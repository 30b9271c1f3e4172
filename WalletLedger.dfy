/** The two wallet helpers the redemption runs inside its atomic unit. Each
    finds a wallet by name, checks it, moves the balance and logs one row
    tagged with the code. They throw before they change anything, so a
    failing helper leaves the database as it found it. */
module WalletLedger {
  import opened Tables

  /** debitWalletWithTransaction: the wallet must exist and hold at least
      `amount`; its balance drops by `amount` and one 'debit' row is logged. */
  method DebitWalletWithTransaction(db: Database, walletName: string, amount: int, code: string)
    returns (r: Outcome<LedgerError>)
    modifies db
    ensures db.codes == old(db.codes)
    ensures r.Fail? <==>
      walletName !in old(db.wallets) || old(db.wallets[walletName].balance) < amount
    ensures r.Fail? ==>
      r.error == if walletName !in old(db.wallets) then WalletNotFound else InsufficientBalance
    ensures r.Fail? ==> db.wallets == old(db.wallets) && db.transactions == old(db.transactions)
    ensures r.Pass? ==>
      walletName in old(db.wallets) &&
      db.wallets == Adjust(old(db.wallets), walletName, -amount) &&
      db.transactions == old(db.transactions) +
        [Transaction(old(db.wallets[walletName].id), amount, Debit, code)]
  {
    // 1. look the wallet row up
    if walletName !in db.wallets {
      return Fail(WalletNotFound);
    }
    var wallet := db.wallets[walletName];
    if wallet.balance < amount {
      return Fail(InsufficientBalance);
    }
    // 2. debit
    db.wallets := Adjust(db.wallets, walletName, -amount);
    // 3. log the transaction
    db.transactions := db.transactions + [Transaction(wallet.id, amount, Debit, code)];
    r := Pass;
  }

  /** creditWalletWithTransaction: the wallet must exist; its balance grows
      by `amount` and one 'credit' row is logged. */
  method CreditWalletWithTransaction(db: Database, walletName: string, amount: int, code: string)
    returns (r: Outcome<LedgerError>)
    modifies db
    ensures db.codes == old(db.codes)
    ensures r.Fail? <==> walletName !in old(db.wallets)
    ensures r.Fail? ==>
      r.error == WalletNotFound &&
      db.wallets == old(db.wallets) && db.transactions == old(db.transactions)
    ensures r.Pass? ==>
      walletName in old(db.wallets) &&
      db.wallets == Adjust(old(db.wallets), walletName, amount) &&
      db.transactions == old(db.transactions) +
        [Transaction(old(db.wallets[walletName].id), amount, Credit, code)]
  {
    // 1. look the wallet row up
    if walletName !in db.wallets {
      return Fail(WalletNotFound);
    }
    var wallet := db.wallets[walletName];
    // 2. credit
    db.wallets := Adjust(db.wallets, walletName, amount);
    // 3. log the transaction
    db.transactions := db.transactions + [Transaction(wallet.id, amount, Credit, code)];
    r := Pass;
  }
}
