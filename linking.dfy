/**
 * How the routes meet on one user: registration stores the account's `user_id` as the
 * text of the new ObjectId, create_account stores the ObjectId itself, the loan routes
 * look accounts up by ObjectId and the money routes by text. The store tells the two
 * kinds apart, so each route sees only one of a user's accounts.
 */
module Linking {
  import opened Results
  import opened Ids
  import opened Seqs
  import opened Store
  import Transactions
  import Accounts
  import Auth

  /** Right after registering, the user exists under its new ObjectId but owns no account
      stored under that ObjectId: apply refuses the user ("Create a bank account first")
      and create_account's one-account guard lets the user through, while the deposit and
      withdraw routes find the registration account by the id's text. */
  lemma RegisteredAccountInvisibleByObjectId(s: State, username: string, email: string, password: string, number: string)
    requires Consistent(s)
    ensures var s' := Auth.AfterRegister(s, username, email, password, number);
      var id := Oid(s.nextOid);
      && HasUser(s'.users, id)
      && !Owns(s'.accounts, id)
      && Transactions.FindAccount(s'.accounts, Some(IdText(id)), None).Ok?
  {
    var s' := Auth.AfterRegister(s, username, email, password, number);
    var id := Oid(s.nextOid);
    assert s'.users[|s.users|].id == id;
    assert s'.accounts[|s.accounts|].userId == Str(IdText(id));
    forall i | 0 <= i < |s'.accounts|
      ensures s'.accounts[i].userId != id
    {
      if i < |s.accounts| {
        assert IssuedBefore(s.accounts[i].userId, s.nextOid);
      }
    }
  }

  /** So a registered user can open a second account with create_account. Afterwards the
      user holds two accounts, one under each kind of id, and the lookup by user id of the
      money routes still never reaches the second one. */
  lemma SecondAccountAfterRegistration(
    s: State, username: string, email: string, password: string, number: string,
    second: string, kind: AccountType)
    requires Consistent(s) && !NumberTaken(s.accounts, number)
    requires !NumberTaken(s.accounts, second) && second != number
    ensures var s' := Auth.AfterRegister(s, username, email, password, number);
      var s'' := Accounts.AfterCreate(s', Oid(s.nextOid), second, kind);
      var n := |s.accounts|;
      && Consistent(s'')
      && |s''.accounts| == n + 2
      && s''.accounts[n] == Account(Str(IdText(Oid(s.nextOid))), number, Savings, 0)
      && s''.accounts[n + 1] == Account(Oid(s.nextOid), second, kind, 0)
      && Owns(s''.accounts, Oid(s.nextOid))
      && forall t :: Transactions.FindAccount(s''.accounts, Some(t), None).Ok? ==>
           Transactions.FindAccount(s''.accounts, Some(t), None).value != n + 1
  {
    var s' := Auth.AfterRegister(s, username, email, password, number);
    Auth.RegisterKeepsConsistent(s, username, email, password, number);
    assert s'.users[|s.users|].id == Oid(s.nextOid);
    assert !NumberTaken(s'.accounts, second) by {
      forall i | 0 <= i < |s'.accounts|
        ensures s'.accounts[i].number != second
      {
        if i < |s.accounts| {
          assert s'.accounts[i] == s.accounts[i];
        }
      }
    }
    Accounts.CreateKeepsConsistent(s', Oid(s.nextOid), second, kind);
    var s'' := Accounts.AfterCreate(s', Oid(s.nextOid), second, kind);
    assert s''.accounts[|s.accounts| + 1].userId == Oid(s.nextOid);
  }
}
