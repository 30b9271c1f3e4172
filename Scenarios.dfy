/** A client of the redemption handler: what a caller can conclude from its
    contract alone, on a database with both wallets provisioned. */
module Scenarios {
  import opened Tables
  import opened Redemption
  import opened Guards
  import opened PaymentCode
  import opened CodeIssuer

  /** Redeem one code twice, then a code the intermediate wallet cannot
      cover, then a code that does not exist. */
  method RedeemTwiceAndFailures()
  {
    var wallets := map[Intermediate := Wallet(1, 1000), Platform := Wallet(2, 0)];
    var codes := map["U01ABC" := CodeRow(300, 7, Unused), "U02XYZ" := CodeRow(900, 7, Unused)];
    var db := new Database(wallets, codes, []);

    // the first redemption pays out 300
    var r1 := Redeem(db, "U01ABC");
    assert CanCommit(Snapshot(wallets, codes, []), "U01ABC");
    assert r1 == Success(300);
    assert db.wallets[Intermediate].balance == 700 && db.wallets[Platform].balance == 300;
    assert db.codes["U01ABC"].status == Used;
    assert |db.transactions| == 2;

    // the second is refused and changes nothing
    var before := db.Current();
    var r2 := Redeem(db, "U01ABC");
    assert r2 == Failure(CodeAlreadyUsed);
    assert db.Current() == before;

    // 900 exceeds the 700 left: rolled back, the code stays unused
    var r3 := Redeem(db, "U02XYZ");
    assert r3 == Failure(RedeemFailed(InsufficientBalance));
    assert db.codes["U02XYZ"].status == Unused && db.Current() == before;

    var r4 := Redeem(db, "does-not-exist");
    assert r4 == Failure(CodeNotFound);
  }

  /** Create a code on an empty database, then draw the same characters
      again for the same user: the second insert collides. */
  method CreateThenCollide(userId: int, picks: seq<int>)
    requires |picks| == 3
    requires forall i :: 0 <= i < |picks| ==> 0 <= picks[i] < |Alphabet|
  {
    var db := new Database(map[], map[], []);
    var r1 := CreateCode(db, userId, Num(500), picks);
    assert r1 == Success(CreatedCode(CodeOf(userId, picks), 500, Unused));
    assert db.codes == map[CodeOf(userId, picks) := CodeRow(500, userId, Unused)];
    var r2 := CreateCode(db, userId, Num(700), picks);
    assert r2 == Failure(CodeCollision);
    var r3 := CreateCode(db, userId, Num(0), picks);
    assert r3 == Failure(InvalidAmount);
  }
}
