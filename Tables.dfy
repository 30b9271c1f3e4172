/** The three tables the redemption engine works on (wallets, codes,
    transactions), the in-memory database that holds them, and the
    accounting functions used to state what a redemption preserves. */
module Tables {

  /** A row of `wallets`, keyed by its unique name. Amounts are integers in
      minor currency units. */
  datatype Wallet = Wallet(id: int, balance: int)

  /** The two values the server ever writes into `codes.status`. */
  datatype Status = Unused | Used

  /** A row of `codes`, keyed by the code string. */
  datatype CodeRow = CodeRow(amount: int, userId: int, status: Status)

  datatype TxKind = Debit | Credit

  /** A row of the append-only `transactions` table. */
  datatype Transaction = Transaction(walletId: int, amount: int, kind: TxKind, code: string)

  /** The errors the wallet helpers throw. */
  datatype LedgerError = WalletNotFound | InsufficientBalance

  datatype Outcome<E> = Pass | Fail(error: E)

  datatype Result<T, E> = Success(value: T) | Failure(error: E)

  /** The whole content of the database, as BEGIN captures it and ROLLBACK
      restores it. */
  datatype Snapshot = Snapshot(
    wallets: map<string, Wallet>,
    codes: map<string, CodeRow>,
    transactions: seq<Transaction>)

  /** The database connection the handlers talk to, with its three tables. */
  class Database {
    var wallets: map<string, Wallet>
    var codes: map<string, CodeRow>
    var transactions: seq<Transaction>

    /** Provisioned wallets, existing codes and the transaction log so far. */
    constructor (wallets0: map<string, Wallet>, codes0: map<string, CodeRow>, log0: seq<Transaction>)
      ensures wallets == wallets0 && codes == codes0 && transactions == log0
    {
      wallets, codes, transactions := wallets0, codes0, log0;
    }

    /** The tables satisfy the invariant the engine keeps. */
    ghost predicate Valid()
      reads this
    {
      Consistent(Current())
    }

    /** All three tables as one value: what BEGIN captures. */
    function Current(): (s: Snapshot)
      reads this
      ensures s.wallets == wallets && s.codes == codes && s.transactions == transactions
    {
      Snapshot(wallets, codes, transactions)
    }

    /** ROLLBACK: every table returns to what BEGIN saw. */
    method Restore(s: Snapshot)
      modifies this
      ensures Current() == s
    {
      wallets, codes, transactions := s.wallets, s.codes, s.transactions;
    }
  }

  /** What the engine keeps true: balances never negative, wallet ids
      distinct (each transaction row names one wallet), and every code
      carries a positive amount. */
  ghost predicate Consistent(s: Snapshot) {
    NonNegative(s.wallets) && DistinctIds(s.wallets) &&
    forall c :: c in s.codes ==> s.codes[c].amount > 0
  }

  /** No code disappears and a used code stays used: the only status change
      any operation makes is unused to used. */
  ghost predicate CodesOnlyAdvance(before: map<string, CodeRow>, after: map<string, CodeRow>) {
    forall c :: c in before ==>
      c in after && (before[c].status == Used ==> after[c].status == Used)
  }

  ghost predicate NonNegative(ws: map<string, Wallet>) {
    forall n :: n in ws ==> ws[n].balance >= 0
  }

  ghost predicate DistinctIds(ws: map<string, Wallet>) {
    forall a, b :: a in ws && b in ws && a != b ==> ws[a].id != ws[b].id
  }

  /** `UPDATE wallets SET balance = balance + delta WHERE name = n`. */
  function Adjust(ws: map<string, Wallet>, n: string, delta: int): (r: map<string, Wallet>)
    requires n in ws
    ensures r.Keys == ws.Keys
    ensures r[n] == Wallet(ws[n].id, ws[n].balance + delta)
    ensures forall m :: m in ws && m != n ==> r[m] == ws[m]
  {
    ws[n := ws[n].(balance := ws[n].balance + delta)]
  }

  /** The sum of all wallet balances. */
  ghost function Total(ws: map<string, Wallet>): (t: int)
    decreases |ws.Keys|
  {
    if ws == map[] then 0
    else
      var n :| n in ws;
      ws[n].balance + Total(ws - {n})
  }

  /** Total can be computed by taking out any wallet first. */
  lemma {:induction false} TotalRemove(ws: map<string, Wallet>, n: string)
    requires n in ws
    ensures Total(ws) == ws[n].balance + Total(ws - {n})
    decreases |ws.Keys|
  {
    var m :| m in ws && Total(ws) == ws[m].balance + Total(ws - {m});
    if m != n {
      var rest := ws - {m};
      assert n in rest;
      assert |rest.Keys| < |ws.Keys| by { assert rest.Keys < ws.Keys; }
      TotalRemove(rest, n);
      var both := rest - {n};
      assert ws - {n} - {m} == both;
      assert |(ws - {n}).Keys| < |ws.Keys| by { assert (ws - {n}).Keys < ws.Keys; }
      TotalRemove(ws - {n}, m);
    }
  }

  /** Changing one balance by `delta` changes the total by exactly `delta`. */
  lemma TotalAdjust(ws: map<string, Wallet>, n: string, delta: int)
    requires n in ws
    ensures Total(Adjust(ws, n, delta)) == Total(ws) + delta
  {
    var r := Adjust(ws, n, delta);
    TotalRemove(ws, n);
    TotalRemove(r, n);
    assert r - {n} == ws - {n};
  }

  /** The value a transaction row contributes to wallet `id`: credits add,
      debits subtract, rows of other wallets contribute nothing. */
  function Signed(t: Transaction, id: int): (v: int)
    ensures t.walletId != id ==> v == 0
    ensures t.walletId == id ==> (if t.kind == Credit then v == t.amount else v == -t.amount)
  {
    if t.walletId != id then 0
    else if t.kind == Credit then t.amount
    else -t.amount
  }

  /** The net effect of the log on wallet `id`. */
  function Net(log: seq<Transaction>, id: int): (v: int) {
    if log == [] then 0 else Signed(log[0], id) + Net(log[1..], id)
  }

  /** Appending to the log adds the new rows' effect and nothing else. */
  lemma {:induction false} NetAppend(log: seq<Transaction>, more: seq<Transaction>, id: int)
    ensures Net(log + more, id) == Net(log, id) + Net(more, id)
  {
    if log == [] {
      assert log + more == more;
    } else {
      assert (log + more)[1..] == log[1..] + more;
      NetAppend(log[1..], more, id);
    }
  }

  /** A debit of `amount` from one wallet followed by a credit of the same
      amount to another: the balances the redemption leaves behind. */
  function Transfer(ws: map<string, Wallet>, from: string, to: string, amount: int): (r: map<string, Wallet>)
    requires from in ws && to in ws && from != to
    ensures r.Keys == ws.Keys
    ensures r[from] == Wallet(ws[from].id, ws[from].balance - amount)
    ensures r[to] == Wallet(ws[to].id, ws[to].balance + amount)
    ensures forall m :: m in ws && m != from && m != to ==> r[m] == ws[m]
  {
    Adjust(Adjust(ws, from, -amount), to, amount)
  }

  /** A transfer neither creates nor destroys value. */
  lemma TransferConservesTotal(ws: map<string, Wallet>, from: string, to: string, amount: int)
    requires from in ws && to in ws && from != to
    ensures Total(Transfer(ws, from, to, amount)) == Total(ws)
  {
    TotalAdjust(ws, from, -amount);
    TotalAdjust(Adjust(ws, from, -amount), to, amount);
  }

  /** A transfer logged as one debit row and one credit row keeps every
      wallet reconciled with the log: each balance moves by exactly the net
      effect of the rows appended for its id. */
  lemma TransferReconciles(ws: map<string, Wallet>, log: seq<Transaction>,
                           from: string, to: string, amount: int, code: string)
    requires from in ws && to in ws && from != to && DistinctIds(ws)
    ensures var after := Transfer(ws, from, to, amount);
      var log' := log + [Transaction(ws[from].id, amount, Debit, code),
                         Transaction(ws[to].id, amount, Credit, code)];
      forall n :: n in ws ==>
        after[n].id == ws[n].id &&
        after[n].balance - ws[n].balance == Net(log', ws[n].id) - Net(log, ws[n].id)
  {
    var rows := [Transaction(ws[from].id, amount, Debit, code),
                 Transaction(ws[to].id, amount, Credit, code)];
    var after := Transfer(ws, from, to, amount);
    forall n | n in ws
      ensures after[n].balance - ws[n].balance == Net(log + rows, ws[n].id) - Net(log, ws[n].id)
    {
      var id := ws[n].id;
      NetAppend(log, rows, id);
      assert rows[1..] == [rows[1]];
      assert Net([rows[1]], id) == Signed(rows[1], id) by { assert [rows[1]][1..] == []; }
    }
  }
}
