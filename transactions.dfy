/**
 * The transfer engine of app/routes/transactions.py: account lookup, the transaction
 * log, deposit, withdraw, transfer and the per-user history.
 */
module Transactions {
  import opened Results
  import opened Ids
  import opened Seqs
  import opened Store

  // ---------- requests and responses ----------

  datatype DepositWithdraw = DepositWithdraw(userId: Option<string>, accountNumber: Option<string>, amount: int)

  datatype TransferRequest = TransferRequest(
    fromUserId: Option<string>,
    toUserId: Option<string>,
    fromAccount: Option<string>,
    toAccount: Option<string>,
    amount: int)

  datatype BalanceReceipt = BalanceReceipt(newBalance: int, accountNumber: string)

  datatype TransferReceipt = TransferReceipt(
    fromBalance: int, toBalance: int, fromNumber: string, toNumber: string)

  datatype HistoryRow = HistoryRow(
    kind: TxKind, amount: int, balanceAfter: int, timestamp: nat, to: Option<Id>, from: Option<Id>)

  // ---------- find_account ----------

  /** An optional request field counts only when truthy: present and not empty. */
  predicate Given(s: Option<string>) {
    s.Some? && s.value != []
  }

  /** find_account: by account number when one is given, otherwise by user id (which, coming
      from the request, only matches a `user_id` stored as a string), otherwise a 400.
      The result is the position of the first matching account. */
  function FindAccount(accs: seq<Account>, userId: Option<string>, number: Option<string>): (r: Outcome<nat>)
    ensures r.Ok? ==> r.value < |accs|
    ensures Given(number) ==>
      && (r.Err? <==> forall j :: 0 <= j < |accs| ==> accs[j].number != number.value)
      && (r.Err? ==> r.error == AccountNotFoundByNumber)
      && (r.Ok? ==> accs[r.value].number == number.value)
      && (r.Ok? ==> forall j :: 0 <= j < r.value ==> accs[j].number != number.value)
    ensures !Given(number) && Given(userId) ==>
      && (r.Err? <==> forall j :: 0 <= j < |accs| ==> accs[j].userId != Str(userId.value))
      && (r.Err? ==> r.error == AccountNotFoundByUserId)
      && (r.Ok? ==> accs[r.value].userId == Str(userId.value))
      && (r.Ok? ==> forall j :: 0 <= j < r.value ==> accs[j].userId != Str(userId.value))
    ensures !Given(number) && !Given(userId) ==> r == Err(NoAccountKey)
  {
    if Given(number) then
      match FirstIndex(accs, (a: Account) => a.number == number.value)
      case Some(i) => Ok(i)
      case None => Err(AccountNotFoundByNumber)
    else if Given(userId) then
      match FirstIndex(accs, (a: Account) => a.userId == Str(userId.value))
      case Some(i) => Ok(i)
      case None => Err(AccountNotFoundByUserId)
    else
      Err(NoAccountKey)
  }

  // ---------- balances ----------

  /** `update_one({"_id": ...}, {"$inc": {"balance": delta}})` on the account at `i`. */
  function Credit(accs: seq<Account>, i: nat, delta: int): seq<Account>
    requires i < |accs|
  {
    accs[i := accs[i].(balance := accs[i].balance + delta)]
  }

  /** The money held across all accounts. */
  function TotalBalance(accs: seq<Account>): int {
    if accs == [] then 0 else accs[0].balance + TotalBalance(accs[1..])
  }

  lemma {:induction false} TotalBalanceCredit(accs: seq<Account>, i: nat, delta: int)
    requires i < |accs|
    ensures TotalBalance(Credit(accs, i, delta)) == TotalBalance(accs) + delta
  {
    if i > 0 {
      assert Credit(accs, i, delta)[1..] == Credit(accs[1..], i - 1, delta);
      TotalBalanceCredit(accs[1..], i - 1, delta);
    } else {
      assert Credit(accs, i, delta)[1..] == accs[1..];
    }
  }

  /** A balance change touches neither account numbers nor owners, so the same request
      finds the same account before and after it. */
  lemma FindAccountAfterCredit(accs: seq<Account>, i: nat, delta: int, userId: Option<string>, number: Option<string>)
    requires i < |accs|
    ensures FindAccount(Credit(accs, i, delta), userId, number) == FindAccount(accs, userId, number)
  {
    var accs' := Credit(accs, i, delta);
    var a, b := FindAccount(accs', userId, number), FindAccount(accs, userId, number);
    assert forall j :: 0 <= j < |accs| ==> accs'[j].number == accs[j].number && accs'[j].userId == accs[j].userId;
  }

  lemma CreditKeepsConsistent(s: State, i: nat, delta: int)
    requires Consistent(s) && i < |s.accounts| && s.accounts[i].balance + delta >= 0
    ensures Consistent(s.(accounts := Credit(s.accounts, i, delta)))
  {
    var accs := Credit(s.accounts, i, delta);
    assert forall j :: 0 <= j < |accs| ==> accs[j].number == s.accounts[j].number;
  }

  // ---------- log_tx ----------

  /** The record log_tx appends: no account-number keys, stamped with the clock. */
  function Logged(userId: Id, kind: TxKind, amount: int, balanceAfter: int, counterparty: Option<Id>, at: nat): Tx {
    Tx(userId, kind, amount, balanceAfter, counterparty, at, None, None)
  }

  /** The database after log_tx. */
  function AfterLog(s: State, userId: Id, kind: TxKind, amount: int, balanceAfter: int, counterparty: Option<Id>): State {
    s.(transactions := s.transactions + [Logged(userId, kind, amount, balanceAfter, counterparty, s.clock)],
       clock := s.clock + 1)
  }

  /** log_tx: appends one record to the transaction log and changes nothing else. */
  method LogTx(db: Db, userId: Id, kind: TxKind, amount: int, balanceAfter: int, counterparty: Option<Id>)
    requires db.Valid()
    modifies db
    ensures db.Valid()
    ensures db.Snapshot() == AfterLog(old(db.Snapshot()), userId, kind, amount, balanceAfter, counterparty)
  {
    var now := db.Now();
    var t := Logged(userId, kind, amount, balanceAfter, counterparty, now);
    PairwiseAppend(db.transactions, t, LoggedBefore);
    db.transactions := db.transactions + [t];
  }

  // ---------- the effect of each operation ----------

  /** The database after `$inc`-ing account `i` by `delta` and logging the change as `kind`
      with the re-read balance. */
  function AfterAdjust(s: State, i: nat, delta: int, kind: TxKind, amount: int): State
    requires i < |s.accounts|
  {
    var accs := Credit(s.accounts, i, delta);
    AfterLog(s.(accounts := accs), accs[i].userId, kind, amount, accs[i].balance, None)
  }

  /** The database after a transfer from account `i` to account `j`. */
  function AfterTransfer(s: State, i: nat, j: nat, amount: int): State
    requires i < |s.accounts| && j < |s.accounts|
  {
    var accs := Credit(Credit(s.accounts, i, -amount), j, amount);
    var out := AfterLog(s.(accounts := accs), accs[i].userId, TransferOut, amount, accs[i].balance, Some(accs[j].userId));
    AfterLog(out, accs[j].userId, TransferIn, amount, accs[j].balance, Some(accs[i].userId))
  }

  /** A deposit changes exactly the target balance, by `amount`, and appends exactly one
      deposit record carrying the new balance; users, loans and messages are untouched. */
  lemma DepositEffect(s: State, i: nat, amount: int)
    requires i < |s.accounts|
    ensures var s' := AfterAdjust(s, i, amount, TxKind.Deposit, amount);
      && |s'.accounts| == |s.accounts|
      && s'.accounts[i] == s.accounts[i].(balance := s.accounts[i].balance + amount)
      && (forall k :: 0 <= k < |s.accounts| && k != i ==> s'.accounts[k] == s.accounts[k])
      && TotalBalance(s'.accounts) == TotalBalance(s.accounts) + amount
      && |s'.transactions| == |s.transactions| + 1
      && s'.transactions[..|s.transactions|] == s.transactions
      && s'.transactions[|s.transactions|].kind == TxKind.Deposit
      && s'.transactions[|s.transactions|].balanceAfter == s'.accounts[i].balance
      && s'.users == s.users && s'.loans == s.loans && s'.messages == s.messages
  {
    TotalBalanceCredit(s.accounts, i, amount);
    var s' := AfterAdjust(s, i, amount, TxKind.Deposit, amount);
    assert s'.transactions[..|s.transactions|] == s.transactions;
  }

  /** A deposit followed by a withdrawal of the same amount with the same account
      reference: the withdrawal finds the account the deposit credited, has the funds, and
      afterwards every balance is what it was; the log keeps both records. */
  lemma DepositWithdrawRoundTrip(s: State, userId: Option<string>, number: Option<string>, amount: int)
    requires Consistent(s) && amount > 0
    requires FindAccount(s.accounts, userId, number).Ok?
    ensures var i := FindAccount(s.accounts, userId, number).value;
      var s1 := AfterAdjust(s, i, amount, TxKind.Deposit, amount);
      var s2 := AfterAdjust(s1, i, -amount, TxKind.Withdraw, amount);
      && FindAccount(s1.accounts, userId, number) == Ok(i)
      && s1.accounts[i].balance >= amount
      && s2.accounts == s.accounts
      && |s2.transactions| == |s.transactions| + 2
  {
    var i := FindAccount(s.accounts, userId, number).value;
    FindAccountAfterCredit(s.accounts, i, amount, userId, number);
    var accs := Credit(Credit(s.accounts, i, amount), i, -amount);
    assert accs[i] == s.accounts[i];
    assert accs == s.accounts;
  }

  /** A transfer keeps the money in the bank the same and moves exactly `amount` from
      account `i` to account `j`; a transfer from an account to itself leaves every balance
      as it was but still logs both records. */
  lemma {:induction false} TransferConserves(s: State, i: nat, j: nat, amount: int)
    requires i < |s.accounts| && j < |s.accounts|
    ensures var s' := AfterTransfer(s, i, j, amount);
      && TotalBalance(s'.accounts) == TotalBalance(s.accounts)
      && (i != j ==> s'.accounts[i].balance == s.accounts[i].balance - amount)
      && (i != j ==> s'.accounts[j].balance == s.accounts[j].balance + amount)
      && (forall k :: 0 <= k < |s.accounts| && k != i && k != j ==> s'.accounts[k] == s.accounts[k])
      && (i == j ==> s'.accounts == s.accounts)
      && |s'.transactions| == |s.transactions| + 2
      && s'.transactions[|s.transactions|].counterparty == Some(s.accounts[j].userId)
      && s'.transactions[|s.transactions| + 1].counterparty == Some(s.accounts[i].userId)
  {
    TotalBalanceCredit(s.accounts, i, -amount);
    TotalBalanceCredit(Credit(s.accounts, i, -amount), j, amount);
    if i == j {
      var accs := Credit(Credit(s.accounts, i, -amount), j, amount);
      assert accs[i] == s.accounts[i];
      assert accs == s.accounts;
    }
  }

  // ---------- deposit ----------

  method Deposit(db: Db, req: DepositWithdraw) returns (r: Outcome<BalanceReceipt>)
    requires db.Valid()
    modifies db
    ensures db.Valid()
    ensures req.amount <= 0 ==> r == Err(AmountNotPositive) && db.Snapshot() == old(db.Snapshot())
    ensures req.amount > 0 ==>
      match FindAccount(old(db.accounts), req.userId, req.accountNumber)
      case Err(e) => r == Err(e) && db.Snapshot() == old(db.Snapshot())
      case Ok(i) =>
        && db.Snapshot() == AfterAdjust(old(db.Snapshot()), i, req.amount, TxKind.Deposit, req.amount)
        && r == Ok(BalanceReceipt(db.accounts[i].balance, db.accounts[i].number))
  {
    if req.amount <= 0 {
      return Err(AmountNotPositive);
    }
    var found := FindAccount(db.accounts, req.userId, req.accountNumber);
    if found.Err? {
      return Err(found.error);
    }
    var i := found.value;
    CreditKeepsConsistent(db.Snapshot(), i, req.amount);
    db.accounts := Credit(db.accounts, i, req.amount);
    var acc := db.accounts[i];
    LogTx(db, acc.userId, TxKind.Deposit, req.amount, acc.balance, None);
    r := Ok(BalanceReceipt(acc.balance, acc.number));
  }

  // ---------- withdraw ----------

  method Withdraw(db: Db, req: DepositWithdraw) returns (r: Outcome<BalanceReceipt>)
    requires db.Valid()
    modifies db
    ensures db.Valid()
    ensures req.amount <= 0 ==> r == Err(AmountNotPositive) && db.Snapshot() == old(db.Snapshot())
    ensures req.amount > 0 ==>
      match FindAccount(old(db.accounts), req.userId, req.accountNumber)
      case Err(e) => r == Err(e) && db.Snapshot() == old(db.Snapshot())
      case Ok(i) =>
        if old(db.accounts)[i].balance < req.amount then
          r == Err(InsufficientBalance) && db.Snapshot() == old(db.Snapshot())
        else
          && db.Snapshot() == AfterAdjust(old(db.Snapshot()), i, -req.amount, TxKind.Withdraw, req.amount)
          && r == Ok(BalanceReceipt(db.accounts[i].balance, db.accounts[i].number))
          && db.accounts[i].balance >= 0
  {
    if req.amount <= 0 {
      return Err(AmountNotPositive);
    }
    var found := FindAccount(db.accounts, req.userId, req.accountNumber);
    if found.Err? {
      return Err(found.error);
    }
    var i := found.value;
    if db.accounts[i].balance < req.amount {
      return Err(InsufficientBalance);
    }
    CreditKeepsConsistent(db.Snapshot(), i, -req.amount);
    db.accounts := Credit(db.accounts, i, -req.amount);
    var acc := db.accounts[i];
    LogTx(db, acc.userId, TxKind.Withdraw, req.amount, acc.balance, None);
    r := Ok(BalanceReceipt(acc.balance, acc.number));
  }

  // ---------- transfer ----------

  /** transfer: debits the source, credits the destination (the same account when both
      references resolve to it) and logs transfer_out then transfer_in, each naming the
      other side's owner. */
  method Transfer(db: Db, req: TransferRequest) returns (r: Outcome<TransferReceipt>)
    requires db.Valid()
    modifies db
    ensures db.Valid()
    ensures req.amount <= 0 ==> r == Err(AmountNotPositive) && db.Snapshot() == old(db.Snapshot())
    ensures req.amount > 0 ==>
      match FindAccount(old(db.accounts), req.fromUserId, req.fromAccount)
      case Err(e) => r == Err(e) && db.Snapshot() == old(db.Snapshot())
      case Ok(i) =>
        match FindAccount(old(db.accounts), req.toUserId, req.toAccount)
        case Err(e) => r == Err(e) && db.Snapshot() == old(db.Snapshot())
        case Ok(j) =>
          if old(db.accounts)[i].balance < req.amount then
            r == Err(InsufficientBalance) && db.Snapshot() == old(db.Snapshot())
          else
            && db.Snapshot() == AfterTransfer(old(db.Snapshot()), i, j, req.amount)
            && r == Ok(TransferReceipt(db.accounts[i].balance, db.accounts[j].balance,
                                       db.accounts[i].number, db.accounts[j].number))
  {
    if req.amount <= 0 {
      return Err(AmountNotPositive);
    }
    var fromFound := FindAccount(db.accounts, req.fromUserId, req.fromAccount);
    if fromFound.Err? {
      return Err(fromFound.error);
    }
    var toFound := FindAccount(db.accounts, req.toUserId, req.toAccount);
    if toFound.Err? {
      return Err(toFound.error);
    }
    var i, j := fromFound.value, toFound.value;
    if db.accounts[i].balance < req.amount {
      return Err(InsufficientBalance);
    }
    ghost var s0 := db.Snapshot();
    CreditKeepsConsistent(db.Snapshot(), i, -req.amount);
    db.accounts := Credit(db.accounts, i, -req.amount);
    CreditKeepsConsistent(db.Snapshot(), j, req.amount);
    db.accounts := Credit(db.accounts, j, req.amount);
    var newFrom, newTo := db.accounts[i], db.accounts[j];
    LogTx(db, newFrom.userId, TransferOut, req.amount, newFrom.balance, Some(newTo.userId));
    LogTx(db, newTo.userId, TransferIn, req.amount, newTo.balance, Some(newFrom.userId));
    assert db.Snapshot() == AfterTransfer(s0, i, j, req.amount);
    r := Ok(TransferReceipt(newFrom.balance, newTo.balance, newFrom.number, newTo.number));
  }

  // ---------- history ----------

  /** Python truthiness of a stored counterparty: absent and the empty string are false. */
  predicate Truthy(c: Option<Id>) {
    c.Some? && c.value != Str([])
  }

  /** The row the history view shows for one record: the counterparty is labelled `to`
      on a transfer_out, `from` on a transfer_in, and dropped otherwise. */
  function RowOf(t: Tx): HistoryRow {
    HistoryRow(t.kind, t.amount, t.balanceAfter, t.timestamp,
      if Truthy(t.counterparty) && t.kind == TransferOut then t.counterparty else None,
      if Truthy(t.counterparty) && t.kind == TransferIn then t.counterparty else None)
  }

  /** The history filter `{"user_id": user_id}`: a path parameter is a string, so it only
      matches records whose `user_id` was stored as that string. */
  function OwnedBy(userId: string): Tx -> bool {
    (t: Tx) => t.userId == Str(userId)
  }

  /** What the history view promises once its rows are the user's records read newest
      first: every record of the user is shown, in strictly decreasing time, with at most
      the label that matches its kind. */
  lemma HistoryOrder(txs: seq<Tx>, userId: string, rows: seq<HistoryRow>)
    requires Pairwise(txs, LoggedBefore)
    requires var sel := NewestFirst(txs, OwnedBy(userId));
      && |rows| == |sel|
      && forall k :: 0 <= k < |rows| ==> rows[k] == RowOf(sel[k])
    ensures forall t :: t in txs && t.userId == Str(userId) ==> RowOf(t) in rows
    ensures forall i, j :: 0 <= i < j < |rows| ==> rows[i].timestamp > rows[j].timestamp
    ensures forall k :: 0 <= k < |rows| ==> rows[k].to.Some? ==> rows[k].kind == TransferOut
    ensures forall k :: 0 <= k < |rows| ==> rows[k].from.Some? ==> rows[k].kind == TransferIn
  {
    var sel := NewestFirst(txs, OwnedBy(userId));
    NewestFirstReversed(txs, OwnedBy(userId), LoggedBefore);
    forall t | t in txs && t.userId == Str(userId)
      ensures RowOf(t) in rows
    {
      var j :| 0 <= j < |txs| && txs[j] == t;
      assert OwnedBy(userId)(txs[j]);
      var k :| 0 <= k < |sel| && sel[k] == t;
      assert rows[k] == RowOf(t);
    }
  }

  /** history: the user's records, newest first. The store's sort on `timestamp` is read
      here as walking the log from its end, which gives the same order because the log is
      appended in clock order. */
  method History(db: Db, userId: string) returns (rows: seq<HistoryRow>)
    requires db.Valid()
    ensures var sel := NewestFirst(db.transactions, OwnedBy(userId));
      && |rows| == |sel|
      && forall k :: 0 <= k < |rows| ==> rows[k] == RowOf(sel[k])
    ensures forall t :: t in db.transactions && t.userId == Str(userId) ==> RowOf(t) in rows
    ensures forall i, j :: 0 <= i < j < |rows| ==> rows[i].timestamp > rows[j].timestamp
    ensures forall k :: 0 <= k < |rows| ==> rows[k].to.Some? ==> rows[k].kind == TransferOut
    ensures forall k :: 0 <= k < |rows| ==> rows[k].from.Some? ==> rows[k].kind == TransferIn
  {
    var txs := db.transactions;
    rows := [];
    var i := |txs|;
    while i > 0
      invariant 0 <= i <= |txs|
      invariant |rows| == |NewestFirst(txs[i..], OwnedBy(userId))|
      invariant forall k :: 0 <= k < |rows| ==> rows[k] == RowOf(NewestFirst(txs[i..], OwnedBy(userId))[k])
    {
      i := i - 1;
      assert txs[i..][1..] == txs[i + 1..];
      var t := txs[i];
      if t.userId == Str(userId) {
        var to, from := None, None;
        if Truthy(t.counterparty) {
          if t.kind == TransferOut {
            to := t.counterparty;
          } else if t.kind == TransferIn {
            from := t.counterparty;
          }
        }
        rows := rows + [HistoryRow(t.kind, t.amount, t.balanceAfter, t.timestamp, to, from)];
      }
    }
    assert txs[0..] == txs;
    HistoryOrder(txs, userId, rows);
  }
}
