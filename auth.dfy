/**
 * Sign-up and credentials in app/routes/auth.py: registration with its duplicate guard
 * and automatic savings account, login, and the forgotten-password reset.
 */
module Auth {
  import opened Results
  import opened Ids
  import opened Seqs
  import opened Store
  import opened Accounts

  datatype RegisterReceipt = RegisterReceipt(
    userId: string, username: string, email: string, number: string, kind: AccountType, balance: int)

  datatype AccountSummary = AccountSummary(number: string, kind: AccountType, balance: int)

  datatype LoginReceipt = LoginReceipt(userId: string, username: string, email: string, account: Option<AccountSummary>)

  // ---------- register ----------

  /** The duplicate guard: some user already has this username or this email. */
  predicate NameOrEmailUsed(users: seq<User>, username: string, email: string) {
    exists i :: 0 <= i < |users| && (users[i].username == username || users[i].email == email)
  }

  /** Two users share neither username nor email. */
  function DistinctLogins(a: User, b: User): bool {
    a.username != b.username && a.email != b.email
  }

  /** The user document registration inserts: three keys besides `_id`, the password in
      plain text. */
  function Registered(id: Id, username: string, email: string, password: string): User {
    User(id, username, email, Some(password), None, None, None, None, None, None, None, None)
  }

  /** The database after a registration that drew `number`: the user under a fresh
      ObjectId, and a savings account whose `user_id` is that id as a string. */
  function AfterRegister(s: State, username: string, email: string, password: string, number: string): State {
    var id := Oid(s.nextOid);
    s.(users := s.users + [Registered(id, username, email, password)],
       accounts := s.accounts + [Account(Str(IdText(id)), number, Savings, 0)],
       nextOid := s.nextOid + 1)
  }

  lemma RegisterKeepsConsistent(s: State, username: string, email: string, password: string, number: string)
    requires Consistent(s) && !NumberTaken(s.accounts, number)
    ensures Consistent(AfterRegister(s, username, email, password, number))
  {
    var u := Registered(Oid(s.nextOid), username, email, password);
    assert forall i :: 0 <= i < |s.users| ==> DistinctUserIds(s.users[i], u);
    PairwiseAppend(s.users, u, DistinctUserIds);
    PairwiseAppend(s.accounts, Account(Str(IdText(Oid(s.nextOid))), number, Savings, 0), DistinctNumbers);
  }

  /** A registration adds exactly one user, under an id no existing user has, and exactly
      one empty savings account linked to it by the id's text; nothing else changes. */
  lemma RegisterEffect(s: State, username: string, email: string, password: string, number: string)
    requires Consistent(s)
    ensures var s' := AfterRegister(s, username, email, password, number);
      && |s'.users| == |s.users| + 1 && s'.users[..|s.users|] == s.users
      && var u := s'.users[|s.users|];
      && u.username == username && u.email == email && u.password == Some(password)
      && !HasUser(s.users, u.id)
      && s'.accounts == s.accounts + [Account(Str(IdText(u.id)), number, Savings, 0)]
      && s'.transactions == s.transactions && s'.loans == s.loans && s'.messages == s.messages
  {
    var s' := AfterRegister(s, username, email, password, number);
    assert s'.users[..|s.users|] == s.users;
    assert forall i :: 0 <= i < |s.users| ==> IssuedBefore(s.users[i].id, s.nextOid);
  }

  /** The duplicate guard keeps usernames and emails unique. */
  lemma RegisterKeepsLoginsDistinct(s: State, username: string, email: string, password: string, number: string)
    requires Pairwise(s.users, DistinctLogins) && !NameOrEmailUsed(s.users, username, email)
    ensures Pairwise(AfterRegister(s, username, email, password, number).users, DistinctLogins)
  {
    var u := Registered(Oid(s.nextOid), username, email, password);
    assert forall i :: 0 <= i < |s.users| ==> DistinctLogins(s.users[i], u);
    PairwiseAppend(s.users, u, DistinctLogins);
  }

  /** The `while True` loop of register_user: draws numbers (the `draws`, in order) until
      one is not used by any account. It stops only because the stream holds such a
      number. */
  method DrawFreshNumber(db: Db, draws: seq<nat>) returns (number: string)
    requires DrawsInRange(draws)
    requires exists k :: 0 <= k < |draws| && !NumberTaken(db.accounts, Decimal(draws[k]))
    ensures !NumberTaken(db.accounts, number)
    ensures exists i :: (0 <= i < |draws| && number == Decimal(draws[i])
      && forall j :: 0 <= j < i ==> NumberTaken(db.accounts, Decimal(draws[j])))
    ensures |number| == 8 && IsDigits(number) && number[0] != '0'
  {
    ghost var k :| 0 <= k < |draws| && !NumberTaken(db.accounts, Decimal(draws[k]));
    var i := 0;
    while NumberTaken(db.accounts, Decimal(draws[i]))
      invariant 0 <= i <= k
      invariant forall j :: 0 <= j < i ==> NumberTaken(db.accounts, Decimal(draws[j]))
      decreases k - i
    {
      i := i + 1;
    }
    AccountNumberShape(draws[i]);
    number := Decimal(draws[i]);
  }

  /** register_user: refuses a username or email already in use; otherwise inserts the
      user, draws a fresh number and opens the savings account. */
  method Register(db: Db, username: string, email: string, password: string, draws: seq<nat>)
    returns (r: Outcome<RegisterReceipt>)
    requires db.Valid() && DrawsInRange(draws)
    requires !NameOrEmailUsed(db.users, username, email) ==>
      exists k :: 0 <= k < |draws| && !NumberTaken(db.accounts, Decimal(draws[k]))
    modifies db
    ensures db.Valid()
    ensures NameOrEmailUsed(old(db.users), username, email) ==>
      r == Err(UserExists) && db.Snapshot() == old(db.Snapshot())
    ensures !NameOrEmailUsed(old(db.users), username, email) ==>
      && r.Ok?
      && !NumberTaken(old(db.accounts), r.value.number) && |r.value.number| == 8
      && (exists i :: (0 <= i < |draws| && r.value.number == Decimal(draws[i])
            && forall j :: 0 <= j < i ==> NumberTaken(old(db.accounts), Decimal(draws[j]))))
      && db.Snapshot() == AfterRegister(old(db.Snapshot()), username, email, password, r.value.number)
      && r.value == RegisterReceipt(IdText(Oid(old(db.nextOid))), username, email, r.value.number, Savings, 0)
  {
    if NameOrEmailUsed(db.users, username, email) {
      return Err(UserExists);
    }
    ghost var s0 := db.Snapshot();
    var id := db.NewOid();
    db.users := db.users + [Registered(id, username, email, password)];
    var number := DrawFreshNumber(db, draws);
    RegisterKeepsConsistent(s0, username, email, password, number);
    db.accounts := db.accounts + [Account(Str(IdText(id)), number, Savings, 0)];
    r := Ok(RegisterReceipt(IdText(id), username, email, number, Savings, 0));
  }

  // ---------- login ----------

  /** `find_one({"email": ..., "password": ...})`: the first user whose stored `password`
      is exactly the one given. */
  function FindLogin(users: seq<User>, email: string, password: string): (r: Option<nat>)
    ensures r.Some? ==> r.value < |users| && users[r.value].email == email && users[r.value].password == Some(password)
    ensures r.Some? ==> forall j :: 0 <= j < r.value ==> !(users[j].email == email && users[j].password == Some(password))
    ensures r.None? <==> forall j :: 0 <= j < |users| ==> !(users[j].email == email && users[j].password == Some(password))
  {
    FirstIndex(users, (u: User) => u.email == email && u.password == Some(password))
  }

  /** `find_one({"user_id": ...})` on the accounts. */
  function FindAccountOf(accs: seq<Account>, userId: Id): (r: Option<nat>)
    ensures r.Some? ==> r.value < |accs| && accs[r.value].userId == userId
    ensures r.Some? ==> forall j :: 0 <= j < r.value ==> accs[j].userId != userId
    ensures r.None? <==> !Owns(accs, userId)
  {
    FirstIndex(accs, (a: Account) => a.userId == userId)
  }

  /** login_user: the credentials must match a user's email and plain-text `password`; the
      account shown is the first whose `user_id` is the user's id as a string, or none. */
  method Login(db: Db, email: string, password: string) returns (r: Outcome<LoginReceipt>)
    ensures FindLogin(db.users, email, password).None? <==> r == Err(InvalidCredentials)
    ensures r.Err? ==> r == Err(InvalidCredentials)
    ensures r.Ok? ==>
      var u := db.users[FindLogin(db.users, email, password).value];
      && r.value.userId == IdText(u.id) && r.value.username == u.username && r.value.email == u.email
      && (r.value.account.None? <==> !Owns(db.accounts, Str(IdText(u.id))))
      && (r.value.account.Some? ==>
            var a := db.accounts[FindAccountOf(db.accounts, Str(IdText(u.id))).value];
            r.value.account.value == AccountSummary(a.number, a.kind, a.balance))
  {
    var found := FindLogin(db.users, email, password);
    if found.None? {
      return Err(InvalidCredentials);
    }
    var u := db.users[found.value];
    var acc := FindAccountOf(db.accounts, Str(IdText(u.id)));
    var summary := if acc.Some? then
      var a := db.accounts[acc.value]; Some(AccountSummary(a.number, a.kind, a.balance))
    else None;
    r := Ok(LoginReceipt(IdText(u.id), u.username, u.email, summary));
  }

  // ---------- forgot_password ----------

  /** `find_one({"email": ...})` on the users. */
  function FindByEmail(users: seq<User>, email: string): (r: Option<nat>)
    ensures r.Some? ==> r.value < |users| && users[r.value].email == email
    ensures r.Some? ==> forall j :: 0 <= j < r.value ==> users[j].email != email
    ensures r.None? <==> forall j :: 0 <= j < |users| ==> users[j].email != email
  {
    FirstIndex(users, (u: User) => u.email == email)
  }

  /** Whether some account pairs `userId` with `number`. */
  predicate Pairs(accs: seq<Account>, userId: Id, number: string) {
    exists k :: 0 <= k < |accs| && accs[k].userId == userId && accs[k].number == number
  }

  /** The database after the password of user `i` is reset in plain text. */
  function AfterReset(s: State, i: nat, newPassword: string): State
    requires i < |s.users|
  {
    s.(users := s.users[i := s.users[i].(password := Some(newPassword))])
  }

  lemma ResetKeepsConsistent(s: State, i: nat, newPassword: string)
    requires Consistent(s) && i < |s.users|
    ensures Consistent(AfterReset(s, i, newPassword))
  {
    var users := AfterReset(s, i, newPassword).users;
    assert forall j :: 0 <= j < |users| ==> users[j].id == s.users[j].id;
  }

  /** forgot_password once the user is found: the account number must belong to the
      user's id as a string. */
  method ResetFor(db: Db, i: nat, number: string, newPassword: string) returns (r: Outcome<()>)
    requires db.Valid() && i < |db.users|
    modifies db
    ensures db.Valid()
    ensures !Pairs(old(db.accounts), Str(IdText(old(db.users)[i].id)), number) ==>
      r == Err(EmailAccountMismatch) && db.Snapshot() == old(db.Snapshot())
    ensures Pairs(old(db.accounts), Str(IdText(old(db.users)[i].id)), number) ==>
      r == Ok(()) && db.Snapshot() == AfterReset(old(db.Snapshot()), i, newPassword)
  {
    var u := db.users[i];
    if !Pairs(db.accounts, Str(IdText(u.id)), number) {
      return Err(EmailAccountMismatch);
    }
    ResetKeepsConsistent(db.Snapshot(), i, newPassword);
    // `_id` is unique, so the update by `_id` hits the user just found.
    db.users := db.users[i := u.(password := Some(newPassword))];
    r := Ok(());
  }

  /** forgot_password: the first user with that email, then ResetFor. */
  method ForgotPassword(db: Db, email: string, number: string, newPassword: string) returns (r: Outcome<()>)
    requires db.Valid()
    modifies db
    ensures db.Valid()
    ensures match FindByEmail(old(db.users), email)
      case None => r == Err(UserNotFound) && db.Snapshot() == old(db.Snapshot())
      case Some(i) =>
        if !Pairs(old(db.accounts), Str(IdText(old(db.users)[i].id)), number) then
          r == Err(EmailAccountMismatch) && db.Snapshot() == old(db.Snapshot())
        else
          r == Ok(()) && db.Snapshot() == AfterReset(old(db.Snapshot()), i, newPassword)
  {
    var found := FindByEmail(db.users, email);
    if found.None? {
      return Err(UserNotFound);
    }
    r := ResetFor(db, found.value, number, newPassword);
  }

  /** After a reset, logging in with the email and the new password succeeds and finds the
      same user; every other user is unchanged. */
  lemma ResetThenLogin(s: State, email: string, newPassword: string)
    requires FindByEmail(s.users, email).Some?
    ensures var i := FindByEmail(s.users, email).value;
      var s' := AfterReset(s, i, newPassword);
      && FindLogin(s'.users, email, newPassword) == Some(i)
      && s'.users[i] == s.users[i].(password := Some(newPassword))
      && forall j :: 0 <= j < |s.users| && j != i ==> s'.users[j] == s.users[j]
  {
    var i := FindByEmail(s.users, email).value;
    var users := AfterReset(s, i, newPassword).users;
    assert users[i].email == email && users[i].password == Some(newPassword);
    assert forall j :: 0 <= j < i ==> users[j].email != email;
    var f := FindLogin(users, email, newPassword);
    assert f.Some?;
  }
}
