/**
 * Profile maintenance in app/routes/users.py: finding a user by an id of either kind or
 * by account number, the password check that accepts bcrypt hashes and legacy plain
 * text, partial profile updates, password changes and the cascading deletes, each by
 * user id and by account number.
 */
module Users {
  import opened Results
  import opened Ids
  import opened Seqs
  import opened Store

  // ---------- finding users ----------

  /** `users.find_one({"_id": id})`. */
  function FindUserById(users: seq<User>, id: Id): (r: Option<nat>)
    ensures r.Some? ==> r.value < |users| && users[r.value].id == id
    ensures r.Some? ==> forall j :: 0 <= j < r.value ==> users[j].id != id
    ensures r.None? <==> !HasUser(users, id)
  {
    FirstIndex(users, (u: User) => u.id == id)
  }

  /** find_user_by_id_any: the text is tried as an ObjectId first (without stripping it);
      only when that does not parse or finds nobody is it tried as a plain string id. */
  function FindUserByIdAny(users: seq<User>, text: string): (r: Option<nat>)
    ensures r.Some? ==> r.value < |users|
    ensures ObjectIdOf(text).Some? && HasUser(users, Oid(ObjectIdOf(text).value)) ==>
      r.Some? && users[r.value].id == Oid(ObjectIdOf(text).value)
    ensures !(ObjectIdOf(text).Some? && HasUser(users, Oid(ObjectIdOf(text).value))) ==>
      && (r.None? <==> !HasUser(users, Str(text)))
      && (r.Some? ==> users[r.value].id == Str(text))
  {
    match ObjectIdOf(text)
    case Some(n) =>
      (match FindUserById(users, Oid(n))
       case Some(i) => Some(i)
       case None => FindUserById(users, Str(text)))
    case None => FindUserById(users, Str(text))
  }

  /** The text of any stored id finds the user with that id, unless a string id that reads
      as an ObjectId is shadowed by a user holding that ObjectId. */
  lemma IdTextFindsUser(users: seq<User>, id: Id)
    requires HasUser(users, id)
    requires id.Oid? ==> id.n < Pow16(OidDigits)
    requires id.Str? ==> ObjectIdOf(id.s).None? || !HasUser(users, Oid(ObjectIdOf(id.s).value))
    ensures FindUserByIdAny(users, IdText(id)).Some?
    ensures users[FindUserByIdAny(users, IdText(id)).value].id == id
  {
    var t := IdText(id);
    if id.Oid? {
      ObjectIdOfText(id.n);
      FoundByObjectId(users, t, id.n);
    } else {
      FoundByString(users, t);
    }
  }

  lemma FoundByObjectId(users: seq<User>, t: string, n: nat)
    requires ObjectIdOf(t) == Some(n) && HasUser(users, Oid(n))
    ensures FindUserByIdAny(users, t).Some? && users[FindUserByIdAny(users, t).value].id == Oid(n)
  {
  }

  lemma FoundByString(users: seq<User>, t: string)
    requires HasUser(users, Str(t))
    requires ObjectIdOf(t).None? || !HasUser(users, Oid(ObjectIdOf(t).value))
    ensures FindUserByIdAny(users, t).Some? && users[FindUserByIdAny(users, t).value].id == Str(t)
  {
  }

  /** The two results of find_user_by_account_number, as positions. */
  datatype Lookup = Lookup(user: Option<nat>, account: Option<nat>)

  /** find_user_by_account_number: text that is not all digits finds nothing (the
      conditional binds looser than `or`); otherwise the first account with that number,
      and its owner looked up by the text of the account's `user_id`. */
  function FindUserByAccountNumber(users: seq<User>, accs: seq<Account>, text: string): (r: Lookup)
    ensures !IsDigits(text) ==> r == Lookup(None, None)
    ensures r.account.None? ==> r.user.None?
    ensures IsDigits(text) ==> (r.account.None? <==> !NumberTaken(accs, text))
    ensures r.account.Some? ==> r.account.value < |accs| && accs[r.account.value].number == text
    ensures r.account.Some? ==> forall j :: 0 <= j < r.account.value ==> accs[j].number != text
    ensures r.account.Some? ==> r.user == FindUserByIdAny(users, IdText(accs[r.account.value].userId))
  {
    if !IsDigits(text) then Lookup(None, None)
    else match FirstIndex(accs, (a: Account) => a.number == text)
      case None => Lookup(None, None)
      case Some(k) => Lookup(FindUserByIdAny(users, IdText(accs[k].userId)), Some(k))
  }

  /** An account's number leads to its owner whichever kind of `user_id` the account
      carries: the ObjectId written by create_account, or its text written by registration. */
  lemma AccountNumberFindsOwner(users: seq<User>, accs: seq<Account>, k: nat, n: nat)
    requires k < |accs| && Pairwise(accs, DistinctNumbers) && IsDigits(accs[k].number)
    requires accs[k].userId == Oid(n) || accs[k].userId == Str(IdText(Oid(n)))
    requires HasUser(users, Oid(n)) && n < Pow16(OidDigits)
    ensures var r := FindUserByAccountNumber(users, accs, accs[k].number);
      && r.account == Some(k)
      && r.user.Some? && users[r.user.value].id == Oid(n)
  {
    AccountFoundByNumber(users, accs, k);
    var t := IdText(Oid(n));
    if accs[k].userId == Oid(n) {
      assert IdText(accs[k].userId) == t;
    } else {
      assert IdText(accs[k].userId) == t;
    }
    ObjectIdOfText(n);
    FoundByObjectId(users, t, n);
  }

  lemma AccountFoundByNumber(users: seq<User>, accs: seq<Account>, k: nat)
    requires k < |accs| && Pairwise(accs, DistinctNumbers) && IsDigits(accs[k].number)
    ensures FindUserByAccountNumber(users, accs, accs[k].number).account == Some(k)
  {
    var r := FindUserByAccountNumber(users, accs, accs[k].number);
    assert r.account.Some?;
  }

  // ---------- the legacy-aware password check ----------

  /** What passlib's `verify` does with a candidate and a stored hash. */
  datatype BcryptResult = Match | NoMatch | Raises

  /** `u.get("password") or u.get("password_hash") or ""`: the first of the two keys that
      holds a non-empty string. */
  function StoredPassword(u: User): (r: string)
    ensures r == [] <==> (u.password.None? || u.password.value == []) && (u.passwordHash.None? || u.passwordHash.value == [])
    ensures u.password.Some? && u.password.value != [] ==> r == u.password.value
    ensures r != [] ==> u.password == Some(r) || u.passwordHash == Some(r)
  {
    if u.password.Some? && u.password.value != [] then u.password.value
    else if u.passwordHash.Some? then u.passwordHash.value
    else []
  }

  /** The bcrypt marker: the stored value starts with "$2". */
  predicate HasBcryptMarker(s: string) {
    |s| >= 2 && s[0] == '$' && s[1] == '2'
  }

  /** verify_password_with_legacy_support, with passlib's verify as the parameter `bcrypt`:
      nothing matches an empty stored value; a value with the bcrypt marker is checked by
      bcrypt, an exception counting as a mismatch; anything else is compared as plain text. */
  function VerifyLegacy(plain: string, stored: string, bcrypt: (string, string) -> BcryptResult): (ok: bool)
    ensures stored == [] ==> !ok
    ensures HasBcryptMarker(stored) ==> (ok <==> bcrypt(plain, stored) == Match)
    ensures stored != [] && !HasBcryptMarker(stored) ==> (ok <==> plain == stored)
  {
    if stored == [] then false
    else if HasBcryptMarker(stored) then
      match bcrypt(plain, stored)
      case Match => true
      case NoMatch => false
      case Raises => false
    else plain == stored
  }

  /** A plain-text password (as registration and password reset store it) is accepted
      exactly when typed back, whatever bcrypt does, provided it is not empty and does not
      look like a bcrypt hash; an empty stored password accepts nothing. */
  lemma PlainPasswordVerifies(u: User, p: string, typed: string, bcrypt: (string, string) -> BcryptResult)
    requires u.password == Some(p)
    ensures p == [] && (u.passwordHash.None? || u.passwordHash.value == []) ==> !VerifyLegacy(typed, StoredPassword(u), bcrypt)
    ensures p != [] && !HasBcryptMarker(p) ==> (VerifyLegacy(typed, StoredPassword(u), bcrypt) <==> typed == p)
  {
  }

  // ---------- update_user ----------

  datatype UserUpdate = UserUpdate(
    username: Option<string>,
    dob: Option<string>,
    phone: Option<string>,
    address: Option<string>,
    country: Option<string>,
    language: Option<string>,
    timeZone: Option<string>,
    welcome: Option<string>)

  /** Every field of the body is None: update_user then makes no write. */
  predicate NoChanges(upd: UserUpdate) {
    upd == UserUpdate(None, None, None, None, None, None, None, None)
  }

  function SetIfGiven(current: Option<string>, given: Option<string>): (r: Option<string>)
    ensures given.Some? ==> r == given
    ensures given.None? ==> r == current
  {
    if given.Some? then given else current
  }

  /** The `$set` of the fields that are not None. */
  function ApplyUpdate(u: User, upd: UserUpdate): (v: User)
    ensures v.id == u.id && v.email == u.email && v.password == u.password && v.passwordHash == u.passwordHash
    ensures upd.username.Some? ==> v.username == upd.username.value
    ensures upd.username.None? ==> v.username == u.username
    ensures v.dob == SetIfGiven(u.dob, upd.dob) && v.phone == SetIfGiven(u.phone, upd.phone)
    ensures v.address == SetIfGiven(u.address, upd.address) && v.country == SetIfGiven(u.country, upd.country)
    ensures v.language == SetIfGiven(u.language, upd.language) && v.timeZone == SetIfGiven(u.timeZone, upd.timeZone)
    ensures v.welcome == SetIfGiven(u.welcome, upd.welcome)
  {
    u.(username := if upd.username.Some? then upd.username.value else u.username,
       dob := SetIfGiven(u.dob, upd.dob),
       phone := SetIfGiven(u.phone, upd.phone),
       address := SetIfGiven(u.address, upd.address),
       country := SetIfGiven(u.country, upd.country),
       language := SetIfGiven(u.language, upd.language),
       timeZone := SetIfGiven(u.timeZone, upd.timeZone),
       welcome := SetIfGiven(u.welcome, upd.welcome))
  }

  /** An empty body changes nothing, so skipping the write is the same as writing. */
  lemma EmptyUpdateIsIdentity(u: User, upd: UserUpdate)
    requires NoChanges(upd)
    ensures ApplyUpdate(u, upd) == u
  {
  }

  /** Sending the same update twice leaves the user as sending it once. */
  lemma UpdateIdempotent(u: User, upd: UserUpdate)
    ensures ApplyUpdate(ApplyUpdate(u, upd), upd) == ApplyUpdate(u, upd)
  {
  }

  /** The database after user `i` is updated. */
  function AfterUpdate(s: State, i: nat, upd: UserUpdate): State
    requires i < |s.users|
  {
    s.(users := s.users[i := ApplyUpdate(s.users[i], upd)])
  }

  lemma UpdateKeepsConsistent(s: State, i: nat, upd: UserUpdate)
    requires Consistent(s) && i < |s.users|
    ensures Consistent(AfterUpdate(s, i, upd))
  {
    var users := AfterUpdate(s, i, upd).users;
    assert forall j :: 0 <= j < |users| ==> users[j].id == s.users[j].id;
  }

  /** The write of update_user on the user at `i` (the first with its `_id`). */
  method UpdateAt(db: Db, i: nat, upd: UserUpdate)
    requires db.Valid() && i < |db.users|
    modifies db
    ensures db.Valid()
    ensures db.Snapshot() == AfterUpdate(old(db.Snapshot()), i, upd)
  {
    UpdateKeepsConsistent(db.Snapshot(), i, upd);
    if NoChanges(upd) {
      EmptyUpdateIsIdentity(db.users[i], upd);
      assert db.users[i := ApplyUpdate(db.users[i], upd)] == db.users;
    } else {
      db.users := db.users[i := ApplyUpdate(db.users[i], upd)];
    }
  }

  // ---------- change_password ----------

  /** The new hash goes to `password_hash` when the document has that key, else to
      `password`. */
  function WithNewPassword(u: User, newHash: string): (v: User)
    ensures v.id == u.id
    ensures u.passwordHash.Some? ==> v == u.(passwordHash := Some(newHash))
    ensures u.passwordHash.None? ==> v == u.(password := Some(newHash))
  {
    if u.passwordHash.Some? then u.(passwordHash := Some(newHash)) else u.(password := Some(newHash))
  }

  /** The new password takes effect when the hash is a genuine bcrypt hash of it, unless
      the document keeps a non-empty `password` next to its `password_hash`: that key is
      read first and is not the one written. */
  lemma ChangeTakesEffect(u: User, newPassword: string, newHash: string, bcrypt: (string, string) -> BcryptResult)
    requires HasBcryptMarker(newHash) && bcrypt(newPassword, newHash) == Match
    requires u.passwordHash.Some? ==> u.password.None? || u.password.value == []
    ensures VerifyLegacy(newPassword, StoredPassword(WithNewPassword(u, newHash)), bcrypt)
  {
  }

  /** When a document holds both keys and `password` is not empty, a password change does
      not alter what is checked: the old `password` keeps being the one verified. */
  lemma ChangeShadowedByPassword(u: User, newHash: string)
    requires u.passwordHash.Some? && u.password.Some? && u.password.value != []
    ensures StoredPassword(WithNewPassword(u, newHash)) == StoredPassword(u) == u.password.value
  {
  }

  /** The database after user `i`'s password is replaced by `newHash`. */
  function AfterPasswordChange(s: State, i: nat, newHash: string): State
    requires i < |s.users|
  {
    s.(users := s.users[i := WithNewPassword(s.users[i], newHash)])
  }

  lemma PasswordChangeKeepsConsistent(s: State, i: nat, newHash: string)
    requires Consistent(s) && i < |s.users|
    ensures Consistent(AfterPasswordChange(s, i, newHash))
  {
    var users := AfterPasswordChange(s, i, newHash).users;
    assert forall j :: 0 <= j < |users| ==> users[j].id == s.users[j].id;
  }

  /** change_password on the user at `i`: the old password must verify; the new one is
      stored as `hash(newPassword)`, `hash` standing for hash_password. */
  method ChangePasswordAt(db: Db, i: nat, oldPassword: string, newPassword: string,
                          bcrypt: (string, string) -> BcryptResult, hash: string -> string)
    returns (r: Outcome<()>)
    requires db.Valid() && i < |db.users|
    modifies db
    ensures db.Valid()
    ensures !VerifyLegacy(oldPassword, StoredPassword(old(db.users)[i]), bcrypt) ==>
      r == Err(OldPasswordIncorrect) && db.Snapshot() == old(db.Snapshot())
    ensures VerifyLegacy(oldPassword, StoredPassword(old(db.users)[i]), bcrypt) ==>
      r == Ok(()) && db.Snapshot() == AfterPasswordChange(old(db.Snapshot()), i, hash(newPassword))
  {
    var u := db.users[i];
    if !VerifyLegacy(oldPassword, StoredPassword(u), bcrypt) {
      return Err(OldPasswordIncorrect);
    }
    var newHash := hash(newPassword);
    PasswordChangeKeepsConsistent(db.Snapshot(), i, newHash);
    if u.passwordHash.Some? {
      db.users := db.users[i := u.(passwordHash := Some(newHash))];
    } else {
      db.users := db.users[i := u.(password := Some(newHash))];
    }
    r := Ok(());
  }

  // ---------- delete_user ----------

  function TxNotOwnedBy(userId: Id): Tx -> bool {
    (t: Tx) => t.userId != userId
  }

  function AccountNotOwnedBy(userId: Id): Account -> bool {
    (a: Account) => a.userId != userId
  }

  /** The database after delete_user removes user `i`: its transactions and accounts are
      selected by its id as a string; loans and messages are left behind. */
  function AfterDeleteUser(s: State, i: nat): State
    requires i < |s.users|
  {
    var uid := Str(IdText(s.users[i].id));
    s.(transactions := Filter(s.transactions, TxNotOwnedBy(uid)),
       accounts := Filter(s.accounts, AccountNotOwnedBy(uid)),
       users := RemoveAt(s.users, i))
  }

  /** delete_user removes the user and every record and account whose `user_id` is the
      user's id as a string, and keeps everything else: in particular an account whose
      `user_id` is an ObjectId, as create_account writes it, survives its owner. */
  lemma DeleteUserEffect(s: State, i: nat)
    requires Consistent(s) && i < |s.users|
    ensures var s' := AfterDeleteUser(s, i);
      var uid := Str(IdText(s.users[i].id));
      && |s'.users| == |s.users| - 1 && !HasUser(s'.users, s.users[i].id)
      && (forall j :: 0 <= j < |s.users| && j != i ==> s.users[j] in s'.users)
      && !Owns(s'.accounts, uid)
      && (forall k :: 0 <= k < |s'.accounts| ==> s'.accounts[k] in s.accounts)
      && (forall k :: 0 <= k < |s.accounts| && s.accounts[k].userId != uid ==> s.accounts[k] in s'.accounts)
      && (forall k :: 0 <= k < |s.accounts| && s.accounts[k].userId.Oid? ==> s.accounts[k] in s'.accounts)
      && (forall t :: 0 <= t < |s'.transactions| ==> s'.transactions[t].userId != uid && s'.transactions[t] in s.transactions)
      && (forall t :: 0 <= t < |s.transactions| && s.transactions[t].userId != uid ==> s.transactions[t] in s'.transactions)
      && s'.loans == s.loans && s'.messages == s.messages
  {
    var s' := AfterDeleteUser(s, i);
    var users := s'.users;
    forall k | 0 <= k < |users|
      ensures users[k].id != s.users[i].id
    {
      var k' := if k < i then k else k + 1;
      assert users[k] == s.users[k'];
    }
    RemoveAtKeepsOthers(s.users, i);
  }

  lemma DeleteUserKeepsConsistent(s: State, i: nat)
    requires Consistent(s) && i < |s.users|
    ensures Consistent(AfterDeleteUser(s, i))
  {
    var s' := AfterDeleteUser(s, i);
    var uid := Str(IdText(s.users[i].id));
    PairwiseFilter(s.transactions, TxNotOwnedBy(uid), LoggedBefore);
    PairwiseFilter(s.accounts, AccountNotOwnedBy(uid), DistinctNumbers);
    PairwiseRemoveAt(s.users, i, DistinctUserIds);
    forall k | 0 <= k < |s'.accounts|
      ensures s'.accounts[k].balance >= 0 && IssuedBefore(s'.accounts[k].userId, s.nextOid)
    {
      var j :| 0 <= j < |s.accounts| && s.accounts[j] == s'.accounts[k];
    }
    forall t | 0 <= t < |s'.transactions|
      ensures s'.transactions[t].timestamp < s.clock
    {
      var j :| 0 <= j < |s.transactions| && s.transactions[j] == s'.transactions[t];
    }
  }

  /** delete_user on the user at `i`: the current password must verify. */
  method DeleteUserAt(db: Db, i: nat, currentPassword: string, bcrypt: (string, string) -> BcryptResult)
    returns (r: Outcome<()>)
    requires db.Valid() && i < |db.users|
    modifies db
    ensures db.Valid()
    ensures !VerifyLegacy(currentPassword, StoredPassword(old(db.users)[i]), bcrypt) ==>
      r == Err(PasswordIncorrect) && db.Snapshot() == old(db.Snapshot())
    ensures VerifyLegacy(currentPassword, StoredPassword(old(db.users)[i]), bcrypt) ==>
      r == Ok(()) && db.Snapshot() == AfterDeleteUser(old(db.Snapshot()), i)
  {
    var u := db.users[i];
    if !VerifyLegacy(currentPassword, StoredPassword(u), bcrypt) {
      return Err(PasswordIncorrect);
    }
    DeleteUserKeepsConsistent(db.Snapshot(), i);
    var uid := Str(IdText(u.id));
    db.transactions := Filter(db.transactions, TxNotOwnedBy(uid));
    db.accounts := Filter(db.accounts, AccountNotOwnedBy(uid));
    // `_id` is unique, so the delete by `_id` removes the user just found.
    db.users := RemoveAt(db.users, i);
    r := Ok(());
  }

  // ---------- delete_by_account ----------

  function NotFrom(number: string): Tx -> bool {
    (t: Tx) => t.fromAccount != Some(number)
  }

  function NotTo(number: string): Tx -> bool {
    (t: Tx) => t.toAccount != Some(number)
  }

  /** The database after delete_by_account with user `i` and account `k`: records naming
      the number as `from_account` or `to_account` go, then the account, then the user. */
  function AfterDeleteByAccount(s: State, i: nat, k: nat): State
    requires i < |s.users| && k < |s.accounts|
  {
    var an := s.accounts[k].number;
    s.(transactions := Filter(Filter(s.transactions, NotFrom(an)), NotTo(an)),
       accounts := RemoveAt(s.accounts, k),
       users := RemoveAt(s.users, i))
  }

  /** delete_by_account removes the account and the user but keeps every record that
      names the number in neither `from_account` nor `to_account` -- which is every record
      log_tx writes, so the account's deposits, withdrawals and transfers all stay. */
  lemma DeleteByAccountEffect(s: State, i: nat, k: nat)
    requires Consistent(s) && i < |s.users| && k < |s.accounts|
    ensures var s' := AfterDeleteByAccount(s, i, k);
      var an := s.accounts[k].number;
      && !NumberTaken(s'.accounts, an) && |s'.accounts| == |s.accounts| - 1
      && (forall j :: 0 <= j < |s.accounts| && j != k ==> s.accounts[j] in s'.accounts)
      && |s'.users| == |s.users| - 1 && !HasUser(s'.users, s.users[i].id)
      && (forall j :: 0 <= j < |s.users| && j != i ==> s.users[j] in s'.users)
      && (forall t :: 0 <= t < |s'.transactions| ==>
            s'.transactions[t] in s.transactions
            && s'.transactions[t].fromAccount != Some(an) && s'.transactions[t].toAccount != Some(an))
      && (forall t :: (0 <= t < |s.transactions| && s.transactions[t].fromAccount != Some(an)
                        && s.transactions[t].toAccount != Some(an)) ==>
            s.transactions[t] in s'.transactions)
      && (forall t :: 0 <= t < |s.transactions| && s.transactions[t].fromAccount.None? && s.transactions[t].toAccount.None? ==>
            s.transactions[t] in s'.transactions)
      && s'.loans == s.loans && s'.messages == s.messages
  {
    var s' := AfterDeleteByAccount(s, i, k);
    var an := s.accounts[k].number;
    var once := Filter(s.transactions, NotFrom(an));
    forall t | 0 <= t < |s.transactions| && s.transactions[t].fromAccount != Some(an) && s.transactions[t].toAccount != Some(an)
      ensures s.transactions[t] in s'.transactions
    {
      var j :| 0 <= j < |once| && once[j] == s.transactions[t];
    }
    RemoveAtKeepsOthers(s.accounts, k);
    RemoveAtKeepsOthers(s.users, i);
    forall j | 0 <= j < |s'.users|
      ensures s'.users[j].id != s.users[i].id
    {
      var j' := if j < i then j else j + 1;
      assert s'.users[j] == s.users[j'];
    }
    forall t | 0 <= t < |s'.transactions|
      ensures s'.transactions[t] in s.transactions
    {
      var j :| 0 <= j < |once| && once[j] == s'.transactions[t];
    }
    forall j | 0 <= j < |s'.accounts|
      ensures s'.accounts[j].number != an
    {
      var j' := if j < k then j else j + 1;
      assert s'.accounts[j] == s.accounts[j'];
    }
  }

  lemma DeleteByAccountKeepsConsistent(s: State, i: nat, k: nat)
    requires Consistent(s) && i < |s.users| && k < |s.accounts|
    ensures Consistent(AfterDeleteByAccount(s, i, k))
  {
    var s' := AfterDeleteByAccount(s, i, k);
    var an := s.accounts[k].number;
    var once := Filter(s.transactions, NotFrom(an));
    PairwiseFilter(s.transactions, NotFrom(an), LoggedBefore);
    PairwiseFilter(once, NotTo(an), LoggedBefore);
    PairwiseRemoveAt(s.accounts, k, DistinctNumbers);
    PairwiseRemoveAt(s.users, i, DistinctUserIds);
    forall t | 0 <= t < |s'.transactions|
      ensures s'.transactions[t].timestamp < s.clock
    {
      var j :| 0 <= j < |once| && once[j] == s'.transactions[t];
      var j' :| 0 <= j' < |s.transactions| && s.transactions[j'] == once[j];
    }
  }

  /** delete_by_account with user `i` and account `k` found: the current password must
      verify. */
  method DeleteByAccountAt(db: Db, i: nat, k: nat, currentPassword: string, bcrypt: (string, string) -> BcryptResult)
    returns (r: Outcome<()>)
    requires db.Valid() && i < |db.users| && k < |db.accounts|
    modifies db
    ensures db.Valid()
    ensures !VerifyLegacy(currentPassword, StoredPassword(old(db.users)[i]), bcrypt) ==>
      r == Err(PasswordIncorrect) && db.Snapshot() == old(db.Snapshot())
    ensures VerifyLegacy(currentPassword, StoredPassword(old(db.users)[i]), bcrypt) ==>
      r == Ok(()) && db.Snapshot() == AfterDeleteByAccount(old(db.Snapshot()), i, k)
  {
    if !VerifyLegacy(currentPassword, StoredPassword(db.users[i]), bcrypt) {
      return Err(PasswordIncorrect);
    }
    DeleteByAccountKeepsConsistent(db.Snapshot(), i, k);
    var an := db.accounts[k].number;
    db.transactions := Filter(db.transactions, NotFrom(an));
    db.transactions := Filter(db.transactions, NotTo(an));
    // Numbers are unique, so the delete by number removes the account just found.
    db.accounts := RemoveAt(db.accounts, k);
    db.users := RemoveAt(db.users, i);
    r := Ok(());
  }

  // ---------- the handlers by user id ----------

  /** update_user. */
  method UpdateUser(db: Db, userId: string, upd: UserUpdate) returns (r: Outcome<()>)
    requires db.Valid()
    modifies db
    ensures db.Valid()
    ensures match FindUserByIdAny(old(db.users), userId)
      case None => r == Err(UserNotFound) && db.Snapshot() == old(db.Snapshot())
      case Some(i) => r == Ok(()) && db.Snapshot() == AfterUpdate(old(db.Snapshot()), i, upd)
  {
    var found := FindUserByIdAny(db.users, userId);
    if found.None? {
      return Err(UserNotFound);
    }
    UpdateAt(db, found.value, upd);
    r := Ok(());
  }

  /** change_password. */
  method ChangePassword(db: Db, userId: string, oldPassword: string, newPassword: string,
                        bcrypt: (string, string) -> BcryptResult, hash: string -> string)
    returns (r: Outcome<()>)
    requires db.Valid()
    modifies db
    ensures db.Valid()
    ensures match FindUserByIdAny(old(db.users), userId)
      case None => r == Err(UserNotFound) && db.Snapshot() == old(db.Snapshot())
      case Some(i) =>
        if !VerifyLegacy(oldPassword, StoredPassword(old(db.users)[i]), bcrypt) then
          r == Err(OldPasswordIncorrect) && db.Snapshot() == old(db.Snapshot())
        else
          r == Ok(()) && db.Snapshot() == AfterPasswordChange(old(db.Snapshot()), i, hash(newPassword))
  {
    var found := FindUserByIdAny(db.users, userId);
    if found.None? {
      return Err(UserNotFound);
    }
    r := ChangePasswordAt(db, found.value, oldPassword, newPassword, bcrypt, hash);
  }

  /** delete_user. */
  method DeleteUser(db: Db, userId: string, currentPassword: string, bcrypt: (string, string) -> BcryptResult)
    returns (r: Outcome<()>)
    requires db.Valid()
    modifies db
    ensures db.Valid()
    ensures match FindUserByIdAny(old(db.users), userId)
      case None => r == Err(UserNotFound) && db.Snapshot() == old(db.Snapshot())
      case Some(i) =>
        if !VerifyLegacy(currentPassword, StoredPassword(old(db.users)[i]), bcrypt) then
          r == Err(PasswordIncorrect) && db.Snapshot() == old(db.Snapshot())
        else
          r == Ok(()) && db.Snapshot() == AfterDeleteUser(old(db.Snapshot()), i)
  {
    var found := FindUserByIdAny(db.users, userId);
    if found.None? {
      return Err(UserNotFound);
    }
    r := DeleteUserAt(db, found.value, currentPassword, bcrypt);
  }

  // ---------- the handlers by account number ----------

  /** update_user_by_account. */
  method UpdateByAccount(db: Db, number: string, upd: UserUpdate) returns (r: Outcome<()>)
    requires db.Valid()
    modifies db
    ensures db.Valid()
    ensures var found := FindUserByAccountNumber(old(db.users), old(db.accounts), number);
      if found.user.None? || found.account.None? then
        r == Err(AccountOrUserNotFound) && db.Snapshot() == old(db.Snapshot())
      else
        r == Ok(()) && db.Snapshot() == AfterUpdate(old(db.Snapshot()), found.user.value, upd)
  {
    var found := FindUserByAccountNumber(db.users, db.accounts, number);
    if found.user.None? || found.account.None? {
      return Err(AccountOrUserNotFound);
    }
    UpdateAt(db, found.user.value, upd);
    r := Ok(());
  }

  /** change_password_by_account. */
  method ChangePasswordByAccount(db: Db, number: string, oldPassword: string, newPassword: string,
                                 bcrypt: (string, string) -> BcryptResult, hash: string -> string)
    returns (r: Outcome<()>)
    requires db.Valid()
    modifies db
    ensures db.Valid()
    ensures var found := FindUserByAccountNumber(old(db.users), old(db.accounts), number);
      if found.user.None? || found.account.None? then
        r == Err(AccountOrUserNotFound) && db.Snapshot() == old(db.Snapshot())
      else if !VerifyLegacy(oldPassword, StoredPassword(old(db.users)[found.user.value]), bcrypt) then
        r == Err(OldPasswordIncorrect) && db.Snapshot() == old(db.Snapshot())
      else
        r == Ok(()) && db.Snapshot() == AfterPasswordChange(old(db.Snapshot()), found.user.value, hash(newPassword))
  {
    var found := FindUserByAccountNumber(db.users, db.accounts, number);
    if found.user.None? || found.account.None? {
      return Err(AccountOrUserNotFound);
    }
    r := ChangePasswordAt(db, found.user.value, oldPassword, newPassword, bcrypt, hash);
  }

  /** delete_by_account. */
  method DeleteByAccount(db: Db, number: string, currentPassword: string, bcrypt: (string, string) -> BcryptResult)
    returns (r: Outcome<()>)
    requires db.Valid()
    modifies db
    ensures db.Valid()
    ensures var found := FindUserByAccountNumber(old(db.users), old(db.accounts), number);
      if found.user.None? || found.account.None? then
        r == Err(AccountOrUserNotFound) && db.Snapshot() == old(db.Snapshot())
      else if !VerifyLegacy(currentPassword, StoredPassword(old(db.users)[found.user.value]), bcrypt) then
        r == Err(PasswordIncorrect) && db.Snapshot() == old(db.Snapshot())
      else
        r == Ok(()) && db.Snapshot() == AfterDeleteByAccount(old(db.Snapshot()), found.user.value, found.account.value)
  {
    var found := FindUserByAccountNumber(db.users, db.accounts, number);
    if found.user.None? || found.account.None? {
      return Err(AccountOrUserNotFound);
    }
    r := DeleteByAccountAt(db, found.user.value, found.account.value, currentPassword, bcrypt);
  }
}
