/**
 * The documents of the bank's database and the database itself: one object holding
 * the users, accounts, transactions, loans and messages collections, each in its
 * natural order, plus the two sources of fresh values the handlers draw on (the
 * `datetime.utcnow()` clock and the ObjectId generator).
 */
module Store {
  import opened Results
  import opened Ids
  import opened Seqs

  // ---------- errors ----------

  /** Every HTTPException the core raises (and the two failures it does not catch). */
  datatype Error =
    | AmountNotPositive          // 400 "Amount must be > 0"
    | AccountNotFoundByNumber    // 404 "Account not found (by account_number)"
    | AccountNotFoundByUserId    // 404 "Account not found (by user_id)"
    | NoAccountKey               // 400 "Provide either user_id or account_number"
    | InsufficientBalance        // 400 "Insufficient balance"
    | InvalidIdFormat            // 400 "Invalid id format"
    | NoBankAccount              // 404 "Create a bank account first"
    | EmiUndefined               // 500: calc_emi raised (division by zero), uncaught
    | LoanNotFound               // 404 "Loan not found"
    | LoanNotApproved            // 400 "Loan not approved"
    | InvalidAccountType         // 422: request validation of account_type
    | InvalidUserIdFormat        // 400 "Invalid user_id format"
    | UserNotFound               // 404 "User not found"
    | AlreadyHasAccount          // 400 "User already has an account"
    | AccountNumbersExhausted    // 500 "Could not generate unique account number"
    | UserExists                 // 400 "User already exists"
    | InvalidCredentials         // 401 "Invalid email or password"
    | EmailAccountMismatch       // 400 "Email and account number do not match"
    | OldPasswordIncorrect       // 400 "Old password incorrect"
    | PasswordIncorrect          // 400 "Password incorrect"
    | AccountOrUserNotFound      // 404 "Account or user not found"

  /** The HTTP status code each error is reported with. */
  function Status(e: Error): (code: int)
    ensures 400 <= code < 600
    ensures code == 404 <==> e in {AccountNotFoundByNumber, AccountNotFoundByUserId, NoBankAccount,
                                   LoanNotFound, UserNotFound, AccountOrUserNotFound}
  {
    match e
    case AccountNotFoundByNumber | AccountNotFoundByUserId | NoBankAccount
       | LoanNotFound | UserNotFound | AccountOrUserNotFound => 404
    case EmiUndefined | AccountNumbersExhausted => 500
    case InvalidAccountType => 422
    case InvalidCredentials => 401
    case _ => 400
  }

  type Outcome<T> = Result<T, Error>

  // ---------- documents ----------

  /** A `users` document. `password` holds whatever was last written to that key
      (plain text from registration and password reset, a bcrypt hash from a password
      change); `passwordHash` is the `password_hash` key some documents carry instead.
      None means the key is absent. */
  datatype User = User(
    id: Id,
    username: string,
    email: string,
    password: Option<string>,
    passwordHash: Option<string>,
    dob: Option<string>,
    phone: Option<string>,
    address: Option<string>,
    country: Option<string>,
    language: Option<string>,
    timeZone: Option<string>,
    welcome: Option<string>)

  datatype AccountType = Savings | Current

  /** An `accounts` document. Its `user_id` is a string when written at registration and
      an ObjectId when written by the create-account route. Balances are exact (cents). */
  datatype Account = Account(userId: Id, number: string, kind: AccountType, balance: int)

  datatype TxKind = Deposit | Withdraw | TransferIn | TransferOut

  /** A `transactions` document. `fromAccount`/`toAccount` are keys the account-deletion
      route filters on; the core itself never writes them. */
  datatype Tx = Tx(
    userId: Id,
    kind: TxKind,
    amount: int,
    balanceAfter: int,
    counterparty: Option<Id>,
    timestamp: nat,
    fromAccount: Option<string>,
    toAccount: Option<string>)

  datatype LoanStatus = Pending | Approved | Rejected | Closed

  /** A `loans` document; `emi` is what calc_emi returned at application time. */
  datatype Loan = Loan(
    id: Id,
    userId: Id,
    amount: int,
    annualRate: int,
    months: int,
    emi: int,
    status: LoanStatus,
    emisPaid: int,
    createdAt: nat,
    approvedAt: Option<nat>)

  /** The text of a `messages` document, as the event that produced it. */
  datatype Notice =
    | LoanSubmitted(emi: int)
    | LoanApproved
    | LoanRejected
    | EmiReceived(amount: int, paid: int, months: int)
    | AllEmisPaid

  datatype Message = Message(userId: Id, text: Notice, createdAt: nat)

  /** The whole database at one moment. */
  datatype State = State(
    users: seq<User>,
    accounts: seq<Account>,
    transactions: seq<Tx>,
    loans: seq<Loan>,
    messages: seq<Message>,
    clock: nat,
    nextOid: nat)

  // ---------- the invariant the handlers keep ----------

  function DistinctUserIds(a: User, b: User): bool { a.id != b.id }
  function DistinctNumbers(a: Account, b: Account): bool { a.number != b.number }
  function LoggedBefore(a: Tx, b: Tx): bool { a.timestamp < b.timestamp }
  function LoanBefore(a: Loan, b: Loan): bool { a.id != b.id && a.createdAt < b.createdAt }

  /** An ObjectId the generator has already handed out. */
  predicate IssuedBefore(id: Id, next: nat) {
    id.Oid? ==> id.n < next
  }

  /** `_id`s are unique (the database enforces it), account numbers are unique (the
      generators check before inserting), no balance is negative, every ObjectId (as a
      user's or loan's `_id` or as an account's `user_id`) was issued by the generator, and
      every timestamp was read from the clock, in order. */
  ghost predicate Consistent(s: State) {
    && Pairwise(s.users, DistinctUserIds)
    && Pairwise(s.accounts, DistinctNumbers)
    && Pairwise(s.transactions, LoggedBefore)
    && Pairwise(s.loans, LoanBefore)
    && (forall i :: 0 <= i < |s.accounts| ==> s.accounts[i].balance >= 0)
    && (forall i :: 0 <= i < |s.users| ==> IssuedBefore(s.users[i].id, s.nextOid))
    && (forall i :: 0 <= i < |s.accounts| ==> IssuedBefore(s.accounts[i].userId, s.nextOid))
    && (forall i :: 0 <= i < |s.loans| ==> IssuedBefore(s.loans[i].id, s.nextOid))
    && (forall i :: 0 <= i < |s.loans| ==> s.loans[i].createdAt < s.clock)
    && (forall i :: 0 <= i < |s.transactions| ==> s.transactions[i].timestamp < s.clock)
  }

  // ---------- existence queries ----------

  /** Whether some user document has `_id` equal to `id`, kind included. */
  predicate HasUser(users: seq<User>, id: Id) {
    exists i :: 0 <= i < |users| && users[i].id == id
  }

  /** Whether some account's `user_id` equals `userId`, kind included. */
  predicate Owns(accs: seq<Account>, userId: Id) {
    exists i :: 0 <= i < |accs| && accs[i].userId == userId
  }

  /** Whether some account already has the number `x`. */
  predicate NumberTaken(accs: seq<Account>, x: string) {
    exists i :: 0 <= i < |accs| && accs[i].number == x
  }

  // ---------- the database ----------

  class Db {
    var users: seq<User>
    var accounts: seq<Account>
    var transactions: seq<Tx>
    var loans: seq<Loan>
    var messages: seq<Message>
    /** The next reading of `datetime.utcnow()`; each reading advances it. */
    var clock: nat
    /** The next ObjectId the driver assigns to an inserted document. */
    var nextOid: nat

    function Snapshot(): State
      reads this
    {
      State(users, accounts, transactions, loans, messages, clock, nextOid)
    }

    ghost predicate Valid()
      reads this
    {
      Consistent(Snapshot())
    }

    /** An empty database. */
    constructor ()
      ensures Valid()
      ensures Snapshot() == State([], [], [], [], [], 0, 0)
    {
      users, accounts, transactions, loans, messages := [], [], [], [], [];
      clock, nextOid := 0, 0;
    }

    /** `datetime.utcnow()`: a reading later than every earlier one. */
    method Now() returns (t: nat)
      requires Valid()
      modifies this`clock
      ensures Valid()
      ensures t == old(clock) && clock == t + 1
    {
      t := clock;
      clock := clock + 1;
    }

    /** The ObjectId an `insert_one` assigns: one never issued before. */
    method NewOid() returns (id: Id)
      requires Valid()
      modifies this`nextOid
      ensures Valid()
      ensures id == Oid(old(nextOid)) && nextOid == old(nextOid) + 1
    {
      id := Oid(nextOid);
      nextOid := nextOid + 1;
    }
  }
}
