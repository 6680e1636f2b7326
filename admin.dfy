/**
 * The admin routes of app/routes/admin.py that change or reveal state: approving and
 * rejecting a loan, and the customer listing.
 */
module Admin {
  import opened Results
  import opened Ids
  import opened Seqs
  import opened Store
  import opened Loans

  /** The response of approve and reject: the loan id exactly as it was passed in. */
  datatype Decision = Decision(loanId: string, newStatus: LoanStatus)

  /** The customers response. */
  datatype CustomerList = CustomerList(count: nat, customers: seq<User>)

  // ---------- approve / reject ----------

  /** The database after the loan at `k` is approved: status and approval time are set
      (one clock reading), then the owner is told (a second reading). */
  function AfterApprove(s: State, k: nat): State
    requires k < |s.loans|
  {
    var l := s.loans[k];
    AfterNotify(s.(loans := s.loans[k := l.(status := Approved, approvedAt := Some(s.clock))],
                   clock := s.clock + 1),
                l.userId, LoanApproved)
  }

  /** The database after the loan at `k` is rejected: only the status is set. */
  function AfterReject(s: State, k: nat): State
    requires k < |s.loans|
  {
    var l := s.loans[k];
    AfterNotify(s.(loans := s.loans[k := l.(status := Rejected)]), l.userId, LoanRejected)
  }

  /** Approval does not look at the current status: whatever the loan was (pending,
      rejected, even closed), it becomes approved with a fresh approval time; nothing else
      about it changes, no other loan changes, and its owner gets exactly one message. */
  lemma ApproveEffect(s: State, k: nat)
    requires k < |s.loans|
    ensures var s' := AfterApprove(s, k);
      var l, l' := s.loans[k], s'.loans[k];
      && |s'.loans| == |s.loans|
      && l'.status == Approved && l'.approvedAt == Some(s.clock)
      && l' == l.(status := Approved, approvedAt := l'.approvedAt)
      && (forall j :: 0 <= j < |s.loans| && j != k ==> s'.loans[j] == s.loans[j])
      && s'.messages == s.messages + [Message(l.userId, LoanApproved, s.clock + 1)]
      && s'.accounts == s.accounts && s'.transactions == s.transactions && s'.users == s.users
  {
  }

  /** Rejection does not look at the current status either; it keeps any approval time
      the loan already had. */
  lemma RejectEffect(s: State, k: nat)
    requires k < |s.loans|
    ensures var s' := AfterReject(s, k);
      var l, l' := s.loans[k], s'.loans[k];
      && |s'.loans| == |s.loans|
      && l'.status == Rejected && l'.approvedAt == l.approvedAt
      && l' == l.(status := Rejected)
      && (forall j :: 0 <= j < |s.loans| && j != k ==> s'.loans[j] == s.loans[j])
      && s'.messages == s.messages + [Message(l.userId, LoanRejected, s.clock)]
      && s'.accounts == s.accounts && s'.transactions == s.transactions && s'.users == s.users
  {
  }

  /** Since approve has no status guard, a loan already paid off can be approved again and
      then accepts further payments, counting past its term. */
  lemma ReapprovalOverpays(s: State, k: nat, userId: Id, amount: int)
    requires k < |s.loans| && s.loans[k].status == Closed && s.loans[k].emisPaid >= s.loans[k].months
    ensures var s' := AfterApprove(s, k);
      && s'.loans[k].status == Approved
      && AfterPayment(s', k, userId, amount).loans[k].emisPaid > s.loans[k].months
  {
  }

  lemma DecisionKeepsConsistent(s: State, k: nat)
    requires Consistent(s) && k < |s.loans|
    ensures Consistent(AfterApprove(s, k))
    ensures Consistent(AfterReject(s, k))
  {
    var approved := s.loans[k := s.loans[k].(status := Approved, approvedAt := Some(s.clock))];
    var rejected := s.loans[k := s.loans[k].(status := Rejected)];
    assert forall j :: 0 <= j < |s.loans| ==>
      approved[j].id == s.loans[j].id && approved[j].createdAt == s.loans[j].createdAt;
    assert forall j :: 0 <= j < |s.loans| ==>
      rejected[j].id == s.loans[j].id && rejected[j].createdAt == s.loans[j].createdAt;
  }

  /** approve_loan once the id is parsed: the loan must exist. */
  method ApproveById(db: Db, loanId: Id, text: string) returns (r: Outcome<Decision>)
    requires db.Valid()
    modifies db
    ensures db.Valid()
    ensures match FindLoan(old(db.loans), loanId)
      case None => r == Err(LoanNotFound) && db.Snapshot() == old(db.Snapshot())
      case Some(k) => db.Snapshot() == AfterApprove(old(db.Snapshot()), k) && r == Ok(Decision(text, Approved))
  {
    var found := FindLoan(db.loans, loanId);
    if found.None? {
      return Err(LoanNotFound);
    }
    var k := found.value;
    ghost var s0 := db.Snapshot();
    DecisionKeepsConsistent(s0, k);
    var loan := db.loans[k];
    // `_id` is unique, so the update by `_id` hits the loan just found.
    var now := db.Now();
    db.loans := db.loans[k := loan.(status := Approved, approvedAt := Some(now))];
    Notify(db, loan.userId, LoanApproved);
    r := Ok(Decision(text, Approved));
  }

  /** approve_loan: a malformed id is a 400, an unknown one a 404. */
  method Approve(db: Db, loanId: string) returns (r: Outcome<Decision>)
    requires db.Valid()
    modifies db
    ensures db.Valid()
    ensures OidArg(loanId).None? ==> r == Err(InvalidIdFormat) && db.Snapshot() == old(db.Snapshot())
    ensures OidArg(loanId).Some? ==>
      match FindLoan(old(db.loans), Oid(OidArg(loanId).value))
      case None => r == Err(LoanNotFound) && db.Snapshot() == old(db.Snapshot())
      case Some(k) => db.Snapshot() == AfterApprove(old(db.Snapshot()), k) && r == Ok(Decision(loanId, Approved))
  {
    var parsed := OidArg(loanId);
    if parsed.None? {
      return Err(InvalidIdFormat);
    }
    r := ApproveById(db, Oid(parsed.value), loanId);
  }

  /** reject_loan once the id is parsed: the loan must exist. */
  method RejectById(db: Db, loanId: Id, text: string) returns (r: Outcome<Decision>)
    requires db.Valid()
    modifies db
    ensures db.Valid()
    ensures match FindLoan(old(db.loans), loanId)
      case None => r == Err(LoanNotFound) && db.Snapshot() == old(db.Snapshot())
      case Some(k) => db.Snapshot() == AfterReject(old(db.Snapshot()), k) && r == Ok(Decision(text, Rejected))
  {
    var found := FindLoan(db.loans, loanId);
    if found.None? {
      return Err(LoanNotFound);
    }
    var k := found.value;
    ghost var s0 := db.Snapshot();
    DecisionKeepsConsistent(s0, k);
    var loan := db.loans[k];
    db.loans := db.loans[k := loan.(status := Rejected)];
    Notify(db, loan.userId, LoanRejected);
    r := Ok(Decision(text, Rejected));
  }

  /** reject_loan: a malformed id is a 400, an unknown one a 404. */
  method Reject(db: Db, loanId: string) returns (r: Outcome<Decision>)
    requires db.Valid()
    modifies db
    ensures db.Valid()
    ensures OidArg(loanId).None? ==> r == Err(InvalidIdFormat) && db.Snapshot() == old(db.Snapshot())
    ensures OidArg(loanId).Some? ==>
      match FindLoan(old(db.loans), Oid(OidArg(loanId).value))
      case None => r == Err(LoanNotFound) && db.Snapshot() == old(db.Snapshot())
      case Some(k) => db.Snapshot() == AfterReject(old(db.Snapshot()), k) && r == Ok(Decision(loanId, Rejected))
  {
    var parsed := OidArg(loanId);
    if parsed.None? {
      return Err(InvalidIdFormat);
    }
    r := RejectById(db, Oid(parsed.value), loanId);
  }

  // ---------- customers ----------

  /** A user as the listing shows it: `_id` as text and the `password` key projected away.
      A `password_hash` key is not projected away. */
  function CustomerView(u: User): (v: User)
    ensures v.password.None?
    ensures v.id == Str(IdText(u.id)) && v.passwordHash == u.passwordHash
    ensures v.(id := u.id, password := u.password) == u
  {
    u.(id := Str(IdText(u.id)), password := None)
  }

  /** customers: every user, in store order, without `password`; `count` is how many. */
  method Customers(db: Db) returns (r: CustomerList)
    ensures r.count == |r.customers| == |db.users|
    ensures forall k :: 0 <= k < |db.users| ==> r.customers[k] == CustomerView(db.users[k])
    ensures forall k :: 0 <= k < |r.customers| ==> r.customers[k].password.None?
  {
    var users := db.users;
    var out := [];
    for i := 0 to |users|
      invariant |out| == i
      invariant forall k :: 0 <= k < i ==> out[k] == CustomerView(users[k])
    {
      var u := users[i].(password := None);
      out := out + [u.(id := Str(IdText(u.id)))];
    }
    r := CustomerList(|out|, out);
  }
}
