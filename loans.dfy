/**
 * The loan engine of app/routes/loans.py: applying for a loan, listing a user's loans,
 * paying an EMI, and the `notify` helper that appends to the messages collection.
 * The EMI amount itself (calc_emi's amortisation formula) is an input here.
 */
module Loans {
  import opened Results
  import opened Ids
  import opened Seqs
  import opened Store

  datatype ApplyReceipt = ApplyReceipt(loanId: string, emi: int)

  /** pay_emi's response; `status` is read before the loan is closed. */
  datatype PayReceipt = PayReceipt(emisPaid: int, months: int, status: LoanStatus)

  /** A row of my_loans: the loan with `_id` renamed `loan_id` and both ids as text. */
  datatype LoanRow = LoanRow(
    loanId: string, userId: string, amount: int, annualRate: int, months: int, emi: int,
    status: LoanStatus, emisPaid: int, createdAt: nat, approvedAt: Option<nat>)

  // ---------- notify ----------

  /** The database after one message is inserted. */
  function AfterNotify(s: State, userId: Id, text: Notice): State {
    s.(messages := s.messages + [Message(userId, text, s.clock)], clock := s.clock + 1)
  }

  /** notify: inserts one message for the user and changes nothing else. */
  method Notify(db: Db, userId: Id, text: Notice)
    requires db.Valid()
    modifies db
    ensures db.Valid()
    ensures db.Snapshot() == AfterNotify(old(db.Snapshot()), userId, text)
  {
    var now := db.Now();
    db.messages := db.messages + [Message(userId, text, now)];
  }

  // ---------- lookups ----------

  /** `find_one({"_id": loanId, "user_id": userId})` on the loans. */
  function FindOwnedLoan(loans: seq<Loan>, loanId: Id, userId: Id): (r: Option<nat>)
    ensures r.Some? ==> r.value < |loans| && loans[r.value].id == loanId && loans[r.value].userId == userId
    ensures r.None? <==> forall k :: 0 <= k < |loans| ==> !(loans[k].id == loanId && loans[k].userId == userId)
  {
    FirstIndex(loans, (l: Loan) => l.id == loanId && l.userId == userId)
  }

  /** `find_one({"_id": loanId})` on the loans. */
  function FindLoan(loans: seq<Loan>, loanId: Id): (r: Option<nat>)
    ensures r.Some? ==> r.value < |loans| && loans[r.value].id == loanId
    ensures r.None? <==> forall k :: 0 <= k < |loans| ==> loans[k].id != loanId
  {
    FirstIndex(loans, (l: Loan) => l.id == loanId)
  }

  // ---------- apply ----------

  /** The loan apply inserts: pending, nothing paid, stamped with the clock. */
  function NewLoan(s: State, userId: Id, amount: int, annualRate: int, months: int, emi: int): Loan {
    Loan(Oid(s.nextOid), userId, amount, annualRate, months, emi, Pending, 0, s.clock, None)
  }

  /** The database after a successful application: one loan inserted, one message. */
  function AfterApply(s: State, userId: Id, amount: int, annualRate: int, months: int, emi: int): State {
    var loan := NewLoan(s, userId, amount, annualRate, months, emi);
    AfterNotify(s.(loans := s.loans + [loan], clock := s.clock + 1, nextOid := s.nextOid + 1),
                userId, LoanSubmitted(emi))
  }

  lemma ApplyKeepsConsistent(s: State, userId: Id, amount: int, annualRate: int, months: int, emi: int)
    requires Consistent(s)
    ensures Consistent(AfterApply(s, userId, amount, annualRate, months, emi))
  {
    var loan := NewLoan(s, userId, amount, annualRate, months, emi);
    assert forall k :: 0 <= k < |s.loans| ==> LoanBefore(s.loans[k], loan);
    PairwiseAppend(s.loans, loan, LoanBefore);
  }

  /** A successful application adds exactly one loan (pending, nothing paid, the requested
      terms, a fresh id) after the existing ones and exactly one message to the applicant;
      accounts, users and the transaction log are untouched. */
  lemma ApplyEffect(s: State, userId: Id, amount: int, annualRate: int, months: int, emi: int)
    requires Consistent(s)
    ensures var s' := AfterApply(s, userId, amount, annualRate, months, emi);
      && |s'.loans| == |s.loans| + 1 && s'.loans[..|s.loans|] == s.loans
      && var l := s'.loans[|s.loans|];
      && l.status == Pending && l.emisPaid == 0 && l.userId == userId
      && l.amount == amount && l.annualRate == annualRate && l.months == months && l.emi == emi
      && (forall k :: 0 <= k < |s.loans| ==> s.loans[k].id != l.id)
      && s'.messages == s.messages + [Message(userId, LoanSubmitted(emi), s.clock + 1)]
      && s'.accounts == s.accounts && s'.users == s.users && s'.transactions == s.transactions
  {
    var s' := AfterApply(s, userId, amount, annualRate, months, emi);
    assert s'.loans[..|s.loans|] == s.loans;
  }

  /** apply once the user id is parsed: the user must own an account stored under that
      ObjectId, and calc_emi must not have raised. */
  method ApplyFor(db: Db, userId: Id, amount: int, annualRate: int, months: int, emi: Option<int>)
    returns (r: Outcome<ApplyReceipt>)
    requires db.Valid()
    modifies db
    ensures db.Valid()
    ensures !Owns(old(db.accounts), userId) ==> r == Err(NoBankAccount) && db.Snapshot() == old(db.Snapshot())
    ensures Owns(old(db.accounts), userId) && emi.None? ==>
      r == Err(EmiUndefined) && db.Snapshot() == old(db.Snapshot())
    ensures Owns(old(db.accounts), userId) && emi.Some? ==>
      && db.Snapshot() == AfterApply(old(db.Snapshot()), userId, amount, annualRate, months, emi.value)
      && r == Ok(ApplyReceipt(IdText(Oid(old(db.nextOid))), emi.value))
  {
    if !Owns(db.accounts, userId) {
      return Err(NoBankAccount);
    }
    if emi.None? {
      return Err(EmiUndefined);
    }
    ghost var s0 := db.Snapshot();
    ApplyKeepsConsistent(s0, userId, amount, annualRate, months, emi.value);
    var createdAt := db.Now();
    var id := db.NewOid();
    db.loans := db.loans + [Loan(id, userId, amount, annualRate, months, emi.value, Pending, 0, createdAt, None)];
    Notify(db, userId, LoanSubmitted(emi.value));
    assert db.Snapshot() == AfterApply(s0, userId, amount, annualRate, months, emi.value);
    r := Ok(ApplyReceipt(IdText(id), emi.value));
  }

  /** apply: the user id must parse as an ObjectId, then ApplyFor. `emi` is what calc_emi
      returns for the terms (None: it raised, as it does for zero months). */
  method Apply(db: Db, userId: string, amount: int, annualRate: int, months: int, emi: Option<int>)
    returns (r: Outcome<ApplyReceipt>)
    requires db.Valid()
    requires months == 0 ==> emi.None?
    modifies db
    ensures db.Valid()
    ensures OidArg(userId).None? ==> r == Err(InvalidIdFormat) && db.Snapshot() == old(db.Snapshot())
    ensures OidArg(userId).Some? ==>
      var u := Oid(OidArg(userId).value);
      if !Owns(old(db.accounts), u) then
        r == Err(NoBankAccount) && db.Snapshot() == old(db.Snapshot())
      else if emi.None? then
        r == Err(EmiUndefined) && db.Snapshot() == old(db.Snapshot())
      else
        && db.Snapshot() == AfterApply(old(db.Snapshot()), u, amount, annualRate, months, emi.value)
        && r == Ok(ApplyReceipt(IdText(Oid(old(db.nextOid))), emi.value))
  {
    var parsed := OidArg(userId);
    if parsed.None? {
      return Err(InvalidIdFormat);
    }
    r := ApplyFor(db, Oid(parsed.value), amount, annualRate, months, emi);
  }

  /** The loan id apply returns names the loan it inserted and no other, for the admin
      routes' lookup by id and for pay-emi's lookup by id and owner (that `oid` reads the
      returned text back as this id is Ids.ObjectIdRoundTrip). */
  lemma ApplyReceiptNamesLoan(s: State, userId: Id, amount: int, annualRate: int, months: int, emi: int)
    requires Consistent(s)
    ensures var s' := AfterApply(s, userId, amount, annualRate, months, emi);
      && FindLoan(s'.loans, Oid(s.nextOid)) == Some(|s.loans|)
      && FindOwnedLoan(s'.loans, Oid(s.nextOid), userId) == Some(|s.loans|)
  {
    var loans := AfterApply(s, userId, amount, annualRate, months, emi).loans;
    var n, id := |s.loans|, Oid(s.nextOid);
    assert loans == s.loans + [NewLoan(s, userId, amount, annualRate, months, emi)];
    assert loans[n].id == id && loans[n].userId == userId;
    forall k | 0 <= k < n
      ensures loans[k].id != id
    {
      assert loans[k] == s.loans[k] && IssuedBefore(s.loans[k].id, s.nextOid);
    }
    assert FindLoan(loans, id).Some? && FindOwnedLoan(loans, id, userId).Some?;
  }

  // ---------- my_loans ----------

  function RowOf(l: Loan): LoanRow {
    LoanRow(IdText(l.id), IdText(l.userId), l.amount, l.annualRate, l.months, l.emi,
            l.status, l.emisPaid, l.createdAt, l.approvedAt)
  }

  function LoanOwnedBy(userId: Id): Loan -> bool {
    (l: Loan) => l.userId == userId
  }

  /** my_loans: the loans whose `user_id` is the parsed ObjectId, newest `created_at`
      first. As for the history view, the store's sort is read as walking the collection
      from its end, which gives the same order because loans are inserted in clock order. */
  method MyLoans(db: Db, userId: string) returns (r: Outcome<seq<LoanRow>>)
    requires db.Valid()
    ensures OidArg(userId).None? <==> r == Err(InvalidIdFormat)
    ensures OidArg(userId).Some? ==> r.Ok?
    ensures r.Ok? ==>
      var sel := NewestFirst(db.loans, LoanOwnedBy(Oid(OidArg(userId).value)));
      && |r.value| == |sel|
      && (forall k :: 0 <= k < |sel| ==> r.value[k] == RowOf(sel[k]))
      && (forall i, j :: 0 <= i < j < |sel| ==> sel[i].createdAt > sel[j].createdAt)
  {
    var parsed := OidArg(userId);
    if parsed.None? {
      return Err(InvalidIdFormat);
    }
    var uoid := Oid(parsed.value);
    var loans := db.loans;
    var rows := [];
    var i := |loans|;
    while i > 0
      invariant 0 <= i <= |loans|
      invariant |rows| == |NewestFirst(loans[i..], LoanOwnedBy(uoid))|
      invariant forall k :: 0 <= k < |rows| ==> rows[k] == RowOf(NewestFirst(loans[i..], LoanOwnedBy(uoid))[k])
    {
      i := i - 1;
      assert loans[i..][1..] == loans[i + 1..];
      var l := loans[i];
      if l.userId == uoid {
        rows := rows + [LoanRow(IdText(l.id), IdText(l.userId), l.amount, l.annualRate, l.months, l.emi,
                                l.status, l.emisPaid, l.createdAt, l.approvedAt)];
      }
    }
    assert loans[0..] == loans;
    NewestFirstReversed(loans, LoanOwnedBy(uoid), LoanBefore);
    r := Ok(rows);
  }

  // ---------- pay_emi ----------

  /** One instalment on a loan: the counter goes up by one and the loan is closed once it
      reaches the term. */
  function Paid(l: Loan): Loan {
    var n := l.emisPaid + 1;
    l.(emisPaid := n, status := if n >= l.months then Closed else l.status)
  }

  /** The message a payment produces. */
  function PaymentNotice(l: Loan, amount: int): Notice {
    var after := Paid(l);
    if after.emisPaid >= after.months then AllEmisPaid else EmiReceived(amount, after.emisPaid, after.months)
  }

  /** The database after the loan at `k`, owned by `userId`, receives a payment. */
  function AfterPayment(s: State, k: nat, userId: Id, amount: int): State
    requires k < |s.loans|
  {
    AfterNotify(s.(loans := s.loans[k := Paid(s.loans[k])]), userId, PaymentNotice(s.loans[k], amount))
  }

  /** A payment on an approved loan raises `emis_paid` by exactly one, closes the loan
      exactly when the count reaches the term, never overshoots a term it was below, sends
      one message ("all paid" exactly when it closes), and leaves every other loan and every
      other field alone. The paid amount is not checked against the EMI. */
  lemma PaymentEffect(s: State, k: nat, userId: Id, amount: int)
    requires k < |s.loans| && s.loans[k].status == Approved
    ensures var s' := AfterPayment(s, k, userId, amount);
      var l, l' := s.loans[k], s'.loans[k];
      && |s'.loans| == |s.loans|
      && l'.emisPaid == l.emisPaid + 1
      && (l'.status == Closed <==> l'.emisPaid >= l.months)
      && (l'.status != Closed ==> l'.status == Approved)
      && (l.emisPaid < l.months ==> l'.emisPaid <= l'.months)
      && l' == l.(emisPaid := l'.emisPaid, status := l'.status)
      && (forall j :: 0 <= j < |s.loans| && j != k ==> s'.loans[j] == s.loans[j])
      && |s'.messages| == |s.messages| + 1
      && s'.messages[|s.messages|].userId == userId
      && (s'.messages[|s.messages|].text == AllEmisPaid <==> l'.status == Closed)
      && s'.accounts == s.accounts && s'.transactions == s.transactions && s'.users == s.users
  {
  }

  /** Paying `n` instalments in a row. */
  function PaidTimes(l: Loan, n: nat): Loan
    decreases n
  {
    if n == 0 then l else PaidTimes(Paid(l), n - 1)
  }

  /** An approved loan with `p` of `m` instalments paid stays approved (so payable) for the
      next `m - p - 1` payments and is closed, fully paid, by the `m - p`-th. */
  lemma {:induction false} RepaymentSchedule(l: Loan, n: nat)
    requires l.status == Approved && 0 <= l.emisPaid < l.months
    requires n <= l.months - l.emisPaid
    decreases n
    ensures PaidTimes(l, n).emisPaid == l.emisPaid + n
    ensures n < l.months - l.emisPaid ==> PaidTimes(l, n).status == Approved
    ensures n == l.months - l.emisPaid ==> PaidTimes(l, n).status == Closed
  {
    if n > 0 {
      if n == 1 {
        assert PaidTimes(l, 1) == Paid(l);
      } else {
        RepaymentSchedule(Paid(l), n - 1);
      }
    }
  }

  lemma PaymentKeepsConsistent(s: State, k: nat, userId: Id, amount: int)
    requires Consistent(s) && k < |s.loans|
    ensures Consistent(AfterPayment(s, k, userId, amount))
  {
    var loans := s.loans[k := Paid(s.loans[k])];
    assert forall j :: 0 <= j < |loans| ==> loans[j].id == s.loans[j].id && loans[j].createdAt == s.loans[j].createdAt;
  }

  /** pay_emi once both ids are parsed: the loan must have that id and belong to that
      user, and it must be approved. The response reports the status read before closing. */
  method PayOwnedLoan(db: Db, userId: Id, loanId: Id, amount: int) returns (r: Outcome<PayReceipt>)
    requires db.Valid()
    modifies db
    ensures db.Valid()
    ensures match FindOwnedLoan(old(db.loans), loanId, userId)
      case None => r == Err(LoanNotFound) && db.Snapshot() == old(db.Snapshot())
      case Some(k) =>
        if old(db.loans)[k].status != Approved then
          r == Err(LoanNotApproved) && db.Snapshot() == old(db.Snapshot())
        else
          && db.Snapshot() == AfterPayment(old(db.Snapshot()), k, userId, amount)
          && r == Ok(PayReceipt(old(db.loans)[k].emisPaid + 1, old(db.loans)[k].months, Approved))
  {
    var found := FindOwnedLoan(db.loans, loanId, userId);
    if found.None? {
      return Err(LoanNotFound);
    }
    var k := found.value;
    if db.loans[k].status != Approved {
      return Err(LoanNotApproved);
    }
    r := PayAt(db, k, userId, amount);
  }

  /** The writes of pay_emi on the approved loan at `k`. */
  method PayAt(db: Db, k: nat, userId: Id, amount: int) returns (r: Outcome<PayReceipt>)
    requires db.Valid() && k < |db.loans| && db.loans[k].status == Approved
    modifies db
    ensures db.Valid()
    ensures db.Snapshot() == AfterPayment(old(db.Snapshot()), k, userId, amount)
    ensures r == Ok(PayReceipt(old(db.loans)[k].emisPaid + 1, old(db.loans)[k].months, Approved))
  {
    ghost var s0 := db.Snapshot();
    PaymentKeepsConsistent(s0, k, userId, amount);
    // `_id` is unique, so the update by `_id` hits the loan just found.
    var loan := db.loans[k].(emisPaid := db.loans[k].emisPaid + 1);
    db.loans := db.loans[k := loan];
    if loan.emisPaid >= loan.months {
      db.loans := db.loans[k := loan.(status := Closed)];
      Notify(db, userId, AllEmisPaid);
    } else {
      Notify(db, userId, EmiReceived(amount, loan.emisPaid, loan.months));
    }
    r := Ok(PayReceipt(loan.emisPaid, loan.months, loan.status));
  }

  /** pay_emi: both ids must parse, then PayOwnedLoan. */
  method PayEmi(db: Db, userId: string, loanId: string, amount: int) returns (r: Outcome<PayReceipt>)
    requires db.Valid()
    modifies db
    ensures db.Valid()
    ensures OidArg(userId).None? || OidArg(loanId).None? ==>
      r == Err(InvalidIdFormat) && db.Snapshot() == old(db.Snapshot())
    ensures OidArg(userId).Some? && OidArg(loanId).Some? ==>
      var u := Oid(OidArg(userId).value);
      match FindOwnedLoan(old(db.loans), Oid(OidArg(loanId).value), u)
      case None => r == Err(LoanNotFound) && db.Snapshot() == old(db.Snapshot())
      case Some(k) =>
        if old(db.loans)[k].status != Approved then
          r == Err(LoanNotApproved) && db.Snapshot() == old(db.Snapshot())
        else
          && db.Snapshot() == AfterPayment(old(db.Snapshot()), k, u, amount)
          && r == Ok(PayReceipt(old(db.loans)[k].emisPaid + 1, old(db.loans)[k].months, Approved))
  {
    var parsedUser, parsedLoan := OidArg(userId), OidArg(loanId);
    if parsedUser.None? || parsedLoan.None? {
      return Err(InvalidIdFormat);
    }
    r := PayOwnedLoan(db, Oid(parsedUser.value), Oid(parsedLoan.value), amount);
  }
}
