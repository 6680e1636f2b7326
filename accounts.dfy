/**
 * Account opening in app/routes/accounts.py: the account-type check, the bounded search
 * for an unused account number, and create_account with its existence and
 * one-account-per-user guards.
 */
module Accounts {
  import opened Results
  import opened Ids
  import opened Seqs
  import opened Store

  /** The `account` part of create_account's response. */
  datatype AccountReceipt = AccountReceipt(userId: string, number: string, kind: AccountType, balance: int)

  /** The request's `account_type` must be exactly "savings" or "current"; anything else is
      refused by request validation with a 422 before the handler runs. */
  function ParseAccountType(s: string): (r: Option<AccountType>)
    ensures r == Some(Savings) <==> s == "savings"
    ensures r == Some(Current) <==> s == "current"
    ensures r.None? <==> s != "savings" && s != "current"
  {
    if s == "savings" then Some(Savings) else if s == "current" then Some(Current) else None
  }

  // ---------- account numbers ----------

  /** The numbers `random.randint(10_000_000, 99_999_999)` can return. */
  predicate DrawsInRange(draws: seq<nat>) {
    forall i :: 0 <= i < |draws| ==> AccountNumberLow <= draws[i] <= AccountNumberHigh
  }

  /** How many numbers gen_acc_no draws before it gives up. */
  const Tries: nat := 25

  /** gen_acc_no: draws up to 25 numbers (the `draws` stand for the random generator's
      results, in order) and returns the text of the first one no account uses; if all 25
      are taken it fails with a 500. */
  method GenAccNo(db: Db, draws: seq<nat>) returns (r: Outcome<string>)
    requires |draws| >= Tries && DrawsInRange(draws)
    ensures r.Err? <==> forall i :: 0 <= i < Tries ==> NumberTaken(db.accounts, Decimal(draws[i]))
    ensures r.Err? ==> r.error == AccountNumbersExhausted
    ensures r.Ok? ==> exists i :: (0 <= i < Tries && r.value == Decimal(draws[i])
      && forall j :: 0 <= j < i ==> NumberTaken(db.accounts, Decimal(draws[j])))
    ensures r.Ok? ==> |r.value| == 8 && IsDigits(r.value) && r.value[0] != '0'
    ensures r.Ok? ==> forall k :: 0 <= k < |db.accounts| ==> db.accounts[k].number != r.value
  {
    for t := 0 to Tries
      invariant forall j :: 0 <= j < t ==> NumberTaken(db.accounts, Decimal(draws[j]))
    {
      var x := Decimal(draws[t]);
      if !NumberTaken(db.accounts, x) {
        AccountNumberShape(draws[t]);
        return Ok(x);
      }
    }
    return Err(AccountNumbersExhausted);
  }

  // ---------- create_account ----------

  /** The database after create_account inserts its account document. */
  function AfterCreate(s: State, userId: Id, number: string, kind: AccountType): State {
    s.(accounts := s.accounts + [Account(userId, number, kind, 0)])
  }

  /** A new account with an unused number keeps the invariant, in particular account
      numbers stay pairwise distinct. */
  lemma CreateKeepsConsistent(s: State, userId: Id, number: string, kind: AccountType)
    requires Consistent(s) && !NumberTaken(s.accounts, number) && HasUser(s.users, userId)
    ensures Consistent(AfterCreate(s, userId, number, kind))
  {
    PairwiseAppend(s.accounts, Account(userId, number, kind, 0), DistinctNumbers);
  }

  /** create_account once the user id is parsed: the user must exist under that ObjectId
      and must not own an account stored under that ObjectId. */
  method CreateFor(db: Db, userId: Id, kind: AccountType, draws: seq<nat>) returns (r: Outcome<AccountReceipt>)
    requires db.Valid() && |draws| >= Tries && DrawsInRange(draws)
    modifies db
    ensures db.Valid()
    ensures !HasUser(old(db.users), userId) ==> r == Err(UserNotFound) && db.Snapshot() == old(db.Snapshot())
    ensures HasUser(old(db.users), userId) && Owns(old(db.accounts), userId) ==>
      r == Err(AlreadyHasAccount) && db.Snapshot() == old(db.Snapshot())
    ensures r.Err? && r.error == AccountNumbersExhausted ==> db.Snapshot() == old(db.Snapshot())
    ensures HasUser(old(db.users), userId) && !Owns(old(db.accounts), userId) ==>
      && (r.Err? <==> forall i :: 0 <= i < Tries ==> NumberTaken(old(db.accounts), Decimal(draws[i])))
      && (r.Err? ==> r.error == AccountNumbersExhausted)
    ensures r.Ok? ==>
      && !NumberTaken(old(db.accounts), r.value.number) && |r.value.number| == 8
      && db.Snapshot() == AfterCreate(old(db.Snapshot()), userId, r.value.number, kind)
      && r.value == AccountReceipt(IdText(userId), r.value.number, kind, 0)
  {
    if !HasUser(db.users, userId) {
      return Err(UserNotFound);
    }
    if Owns(db.accounts, userId) {
      return Err(AlreadyHasAccount);
    }
    var number := GenAccNo(db, draws);
    if number.Err? {
      return Err(number.error);
    }
    ghost var s0 := db.Snapshot();
    CreateKeepsConsistent(s0, userId, number.value, kind);
    db.accounts := db.accounts + [Account(userId, number.value, kind, 0)];
    r := Ok(AccountReceipt(IdText(userId), number.value, kind, 0));
  }

  /** create_account: request validation of the account type (422), then the user id must
      parse as an ObjectId (400), then CreateFor. */
  method CreateAccount(db: Db, userId: string, accountType: string, draws: seq<nat>)
    returns (r: Outcome<AccountReceipt>)
    requires db.Valid() && |draws| >= Tries && DrawsInRange(draws)
    modifies db
    ensures db.Valid()
    ensures ParseAccountType(accountType).None? ==>
      r == Err(InvalidAccountType) && db.Snapshot() == old(db.Snapshot())
    ensures ParseAccountType(accountType).Some? && OidArg(userId).None? ==>
      r == Err(InvalidUserIdFormat) && db.Snapshot() == old(db.Snapshot())
    ensures ParseAccountType(accountType).Some? && OidArg(userId).Some? ==>
      var u := Oid(OidArg(userId).value);
      && (!HasUser(old(db.users), u) ==> r == Err(UserNotFound))
      && (HasUser(old(db.users), u) && Owns(old(db.accounts), u) ==> r == Err(AlreadyHasAccount))
      && (HasUser(old(db.users), u) && !Owns(old(db.accounts), u) ==>
            && (r.Err? <==> forall i :: 0 <= i < Tries ==> NumberTaken(old(db.accounts), Decimal(draws[i])))
            && (r.Err? ==> r.error == AccountNumbersExhausted))
    ensures r.Ok? ==>
      && ParseAccountType(accountType).Some? && OidArg(userId).Some?
      && var u := Oid(OidArg(userId).value);
      && HasUser(old(db.users), u) && !Owns(old(db.accounts), u)
      && !NumberTaken(old(db.accounts), r.value.number) && |r.value.number| == 8
      && db.Snapshot() == AfterCreate(old(db.Snapshot()), u, r.value.number, ParseAccountType(accountType).value)
      && r.value == AccountReceipt(IdText(u), r.value.number, ParseAccountType(accountType).value, 0)
    ensures r.Err? ==> db.Snapshot() == old(db.Snapshot())
  {
    var kind := ParseAccountType(accountType);
    if kind.None? {
      return Err(InvalidAccountType);
    }
    var parsed := OidArg(userId);
    if parsed.None? {
      return Err(InvalidUserIdFormat);
    }
    r := CreateFor(db, Oid(parsed.value), kind.value, draws);
  }
}
