/** The `/create-code` handler: validate the amount, generate a code for the
    authenticated user and insert it as an unused code. */
module CodeIssuer {
  import opened Tables
  import opened Guards
  import opened PaymentCode

  /** 400 'valid amount required', or the unique-constraint violation on `codes.code`
      answered 500 'code collision, retry'. */
  datatype CreateError = InvalidAmount | CodeCollision

  /** The row the insert returns to the caller. */
  datatype CreatedCode = CreatedCode(code: string, amount: int, status: Status)

  /** Create a code worth `amount` for the user `userId` (the principal
      requireAuth verified); `picks` are the three random alphabet indices. */
  method CreateCode(db: Database, userId: int, amount: BodyValue, picks: seq<int>)
    returns (r: Result<CreatedCode, CreateError>)
    requires |picks| == 3
    requires forall i :: 0 <= i < |picks| ==> 0 <= picks[i] < |Alphabet|
    modifies db
    ensures db.wallets == old(db.wallets) && db.transactions == old(db.transactions)
    // success exactly when the amount is valid and the generated code is new
    ensures r.Success? <==> ValidAmount(amount).Some? && CodeOf(userId, picks) !in old(db.codes)
    ensures ValidAmount(amount).None? ==> r == Failure(InvalidAmount)
    ensures ValidAmount(amount).Some? && CodeOf(userId, picks) in old(db.codes) ==>
      r == Failure(CodeCollision)
    ensures r.Failure? ==> db.codes == old(db.codes)
    ensures r.Success? ==>
      amount.Num? &&
      r.value == CreatedCode(CodeOf(userId, picks), amount.n, Unused) &&
      db.codes == old(db.codes)[CodeOf(userId, picks) := CodeRow(amount.n, userId, Unused)]
    ensures CodesOnlyAdvance(old(db.codes), db.codes)
    ensures old(db.Valid()) ==> db.Valid()
  {
    var value := ValidAmount(amount);
    if value.None? {
      return Failure(InvalidAmount);
    }
    var code := GeneratePaymentCode(userId, picks);
    if code in db.codes {
      return Failure(CodeCollision);
    }
    db.codes := db.codes[code := CodeRow(value.value, userId, Unused)];
    r := Success(CreatedCode(code, value.value, Unused));
  }
}
