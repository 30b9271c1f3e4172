/** The `/redeem` handler: one atomic unit that checks the code, debits the
    intermediate wallet, credits the platform wallet and marks the code
    used, or rolls all of it back. */
module Redemption {
  import opened Tables
  import opened WalletLedger

  /** The wallet value is taken from, and the wallet it is paid into. */
  const Intermediate: string := "intermediate"
  const Platform: string := "platform"

  /** The handler's answers other than success: 400 'code required',
      404 'code not found', 400 'code already used', and 500 'redeem failed'
      carrying the helper error that caused the rollback. */
  datatype RedeemError =
    | CodeRequired
    | CodeNotFound
    | CodeAlreadyUsed
    | RedeemFailed(cause: LedgerError)

  /** A redemption of `code` can commit: the code exists and is unused, the
      intermediate wallet exists and covers the amount, and the platform
      wallet exists. */
  predicate CanCommit(s: Snapshot, code: string) {
    code != "" && code in s.codes && s.codes[code].status == Unused &&
    Intermediate in s.wallets && s.wallets[Intermediate].balance >= s.codes[code].amount &&
    Platform in s.wallets
  }

  /** The tables after a committed redemption of `code`. */
  function Committed(s: Snapshot, code: string): (t: Snapshot)
    requires CanCommit(s, code)
    ensures var amount := s.codes[code].amount;
      t.wallets.Keys == s.wallets.Keys &&
      t.wallets[Intermediate] == Wallet(s.wallets[Intermediate].id, s.wallets[Intermediate].balance - amount) &&
      t.wallets[Platform] == Wallet(s.wallets[Platform].id, s.wallets[Platform].balance + amount) &&
      (forall n :: n in s.wallets && n != Intermediate && n != Platform ==> t.wallets[n] == s.wallets[n])
    ensures t.codes.Keys == s.codes.Keys
    ensures t.codes[code] == s.codes[code].(status := Used)
    ensures forall c :: c in s.codes && c != code ==> t.codes[c] == s.codes[c]
    ensures t.transactions == s.transactions +
      [Transaction(s.wallets[Intermediate].id, s.codes[code].amount, Debit, code),
       Transaction(s.wallets[Platform].id, s.codes[code].amount, Credit, code)]
  {
    var amount := s.codes[code].amount;
    Snapshot(
      Transfer(s.wallets, Intermediate, Platform, amount),
      s.codes[code := s.codes[code].(status := Used)],
      s.transactions +
        [Transaction(s.wallets[Intermediate].id, amount, Debit, code),
         Transaction(s.wallets[Platform].id, amount, Credit, code)])
  }

  /** Redeem `code`. On success the result is the code's amount and the
      tables are those of `Committed`; on any error every table is exactly
      as before. */
  method Redeem(db: Database, code: string) returns (r: Result<int, RedeemError>)
    modifies db
    // the error cases, in the order the handler meets them
    ensures code == "" ==> r == Failure(CodeRequired)
    ensures code != "" && code !in old(db.codes) ==> r == Failure(CodeNotFound)
    ensures code != "" && code in old(db.codes) && old(db.codes[code].status) != Unused ==>
      r == Failure(CodeAlreadyUsed)
    ensures (code != "" && code in old(db.codes) && old(db.codes[code].status) == Unused &&
             Intermediate !in old(db.wallets)) ==>
      r == Failure(RedeemFailed(WalletNotFound))
    ensures (code != "" && code in old(db.codes) && old(db.codes[code].status) == Unused &&
             Intermediate in old(db.wallets) &&
             old(db.wallets[Intermediate].balance) < old(db.codes[code].amount)) ==>
      r == Failure(RedeemFailed(InsufficientBalance))
    ensures (code != "" && code in old(db.codes) && old(db.codes[code].status) == Unused &&
             Intermediate in old(db.wallets) &&
             old(db.wallets[Intermediate].balance) >= old(db.codes[code].amount) &&
             Platform !in old(db.wallets)) ==>
      r == Failure(RedeemFailed(WalletNotFound))
    // all or nothing
    ensures r.Success? <==> CanCommit(old(db.Current()), code)
    ensures r.Failure? ==> db.Current() == old(db.Current())
    ensures r.Success? ==>
      CanCommit(old(db.Current()), code) &&
      r.value == old(db.codes[code].amount) &&
      db.Current() == Committed(old(db.Current()), code)
    // what every redemption keeps, whatever its outcome
    ensures CodesOnlyAdvance(old(db.codes), db.codes)
    ensures Total(db.wallets) == old(Total(db.wallets))
    ensures old(db.Valid()) ==> db.Valid()
  {
    if code == "" {
      return Failure(CodeRequired);
    }
    var begin := db.Current();  // BEGIN
    if code !in db.codes {
      db.Restore(begin);  // ROLLBACK
      return Failure(CodeNotFound);
    }
    var row := db.codes[code];
    if row.status != Unused {
      db.Restore(begin);
      return Failure(CodeAlreadyUsed);
    }
    var debit := DebitWalletWithTransaction(db, Intermediate, row.amount, code);
    if debit.Fail? {
      db.Restore(begin);
      return Failure(RedeemFailed(debit.error));
    }
    var credit := CreditWalletWithTransaction(db, Platform, row.amount, code);
    if credit.Fail? {
      db.Restore(begin);
      return Failure(RedeemFailed(credit.error));
    }
    db.codes := db.codes[code := row.(status := Used)];
    // COMMIT
    assert db.Current() == Committed(begin, code);
    CommittedAdvancesCodes(begin, code);
    CommittedConservesTotal(begin, code);
    if Consistent(begin) {
      CommittedKeepsConsistent(begin, code);
    }
    r := Success(row.amount);
  }

  /** A committed redemption moves value between wallets without creating
      or destroying any. */
  lemma CommittedConservesTotal(s: Snapshot, code: string)
    requires CanCommit(s, code)
    ensures Total(Committed(s, code).wallets) == Total(s.wallets)
  {
    TransferConservesTotal(s.wallets, Intermediate, Platform, s.codes[code].amount);
  }

  /** Each wallet's balance moves by exactly the net effect of the two rows
      the redemption logs for it: -amount for the intermediate wallet,
      +amount for the platform wallet, nothing for any other wallet. */
  lemma CommittedReconciles(s: Snapshot, code: string)
    requires CanCommit(s, code) && DistinctIds(s.wallets)
    ensures var t := Committed(s, code);
      t.wallets.Keys == s.wallets.Keys &&
      forall n :: n in s.wallets ==>
        t.wallets[n].id == s.wallets[n].id &&
        t.wallets[n].balance - s.wallets[n].balance ==
          Net(t.transactions, s.wallets[n].id) - Net(s.transactions, s.wallets[n].id)
  {
    TransferReconciles(s.wallets, s.transactions, Intermediate, Platform, s.codes[code].amount, code);
  }

  /** A committed redemption keeps balances non-negative, wallet ids
      distinct and code amounts positive. */
  lemma CommittedKeepsConsistent(s: Snapshot, code: string)
    requires CanCommit(s, code) && Consistent(s)
    ensures Consistent(Committed(s, code))
  {
  }

  /** A committed redemption removes no code and turns no used code back
      to unused. */
  lemma CommittedAdvancesCodes(s: Snapshot, code: string)
    requires CanCommit(s, code)
    ensures CodesOnlyAdvance(s.codes, Committed(s, code).codes)
  {
    var t := Committed(s, code);
    forall c | c in s.codes
      ensures c in t.codes && (s.codes[c].status == Used ==> t.codes[c].status == Used)
    {
      if c != code {
        assert t.codes[c] == s.codes[c];
      }
    }
  }

  /** Once committed, the code is used for good: a second redemption of it
      cannot commit, and the handler answers 'code already used'. */
  lemma NoDoubleRedemption(s: Snapshot, code: string)
    requires CanCommit(s, code)
    ensures var t := Committed(s, code);
      code in t.codes && t.codes[code].status == Used && !CanCommit(t, code)
  {
  }
}
