# Bank backend core in Dafny

A model of the route handlers of a small FastAPI + MongoDB banking backend, with proofs
about them. The backend keeps five collections: users, accounts, transactions, loans and
messages. Its routes:

- **Money** (`app/routes/transactions.py`): deposit, withdraw, transfer between accounts
  found by account number or user id, and a per-user history.
- **Loans** (`app/routes/loans.py`): apply for a loan, list my loans, pay an instalment
  (EMI).
- **Admin** (`app/routes/admin.py`): approve or reject a loan, list the customers.
- **Accounts** (`app/routes/accounts.py`): open an account under a user's ObjectId.
- **Auth** (`app/routes/auth.py`): register (which also opens a savings account), log in,
  reset a forgotten password.
- **Users** (`app/routes/users.py`): update a profile, change a password, delete a user.
  Each of these works by user id and by account number.

The database is the class `Store.Db`. Its fields are the five collections, held as
sequences in insertion order, plus a clock (`datetime.utcnow()`) and the next ObjectId
to issue. Each handler is a method that changes the `Db`. Its `ensures` ties the new state
to a pure effect function of the old one (`AfterApply`, `AfterPayment`, ...). Every
handler keeps the store invariant `Store.Consistent`:

- user ids and account numbers are unique;
- balances are never negative;
- transactions and loans are in clock order;
- the `_id` of every user and loan, and the `user_id` of every account, lies below the
  next ObjectId to issue.

The lemmas beside the effect functions state what each operation promises.

Three features of the source matter throughout the model:

- **Two kinds of id.** `Ids.Id` is either an ObjectId or a plain string. MongoDB never
  matches one kind against the other, and the routes disagree on which kind they store:
  - `register` writes an account's `user_id` as the text of the new ObjectId;
  - `create_account` writes it as the ObjectId itself;
  - the money routes query by text, the loan routes by ObjectId.

  `Linking` proves what follows from this. A freshly registered user cannot apply for a
  loan, yet can open a second account, and the money routes' lookup by user id never
  reaches that second account; only its account number does.
- **Newest-first listings.** `history` and `my_loans` sort by time, newest first. The model
  walks the collection from its end. This gives the same order because both collections
  are appended in clock order (`Seqs.NewestFirstReversed`).
- **Inputs the model does not compute.** The outcomes of the random generator, of bcrypt,
  of `hash_password` and of `calc_emi` are parameters of the methods that use them.

## Model

| member | source | states |
|---|---|---|
| Ids.ObjectIdOf | app/routes/users.py:24 | `ObjectId(s)` accepts a string exactly when it is 24 hex digits; the value fits in 12 bytes |
| Ids.Strip | app/routes/loans.py:26 | `strip()` drops only whitespace (space, tab to carriage return, U+001C to U+001F) from either end and leaves none at either end |
| Ids.OidArgAccepts | app/routes/loans.py:24-28 | the `oid` helper accepts a string iff, once stripped, it is 24 hex digits (otherwise the 400 "Invalid id format") |
| Ids.ObjectIdRoundTrip | app/routes/loans.py:68 | `str(inserted_id)` handed back to `oid(...)` yields the same id |
| Ids.OidArgSkipsLeadingSpace | app/routes/loans.py:26 | a printed id preceded by any character `strip()` removes, a separator such as U+001C included, is still accepted by `oid` as the same id |
| Ids.ObjectIdOfText | app/routes/users.py:24 | `ObjectId(str(x)) == x` for every ObjectId |
| Ids.Decimal | app/routes/accounts.py:21 | `str(n)` of a non-negative int is all digits, with a leading zero only for 0 |
| Ids.AccountNumberShape | app/routes/accounts.py:21 | every number `randint(10_000_000, 99_999_999)` can draw prints as 8 digits without a leading zero |
| Seqs.NewestFirstReversed | app/routes/transactions.py:116 | reading a collection newest first reverses its order: whatever order insertion kept holds backwards on the selection |
| Store.Db.Now | app/routes/transactions.py:45 | a clock reading returns the current time and advances the clock, so readings strictly increase |
| Store.Db.NewOid | app/routes/loans.py:66 | an insert takes the next ObjectId and advances the counter, so (with the store invariant) no earlier document has it |
| Transactions.FindAccount | app/routes/transactions.py:23-36 | the account number wins when given, else the user id, which matches only text `user_id`s; returns the first match; each miss has its own 404, and neither key is a 400 |
| Transactions.TotalBalanceCredit | app/routes/transactions.py:55 | `$inc` by `delta` raises the bank's total by exactly `delta` |
| Transactions.FindAccountAfterCredit | app/routes/transactions.py:55-56 | the re-read after `$inc` finds the same account the request first found |
| Transactions.CreditKeepsConsistent | app/routes/transactions.py:72-75 | a balance change that leaves the balance non-negative keeps the store invariant |
| Transactions.LogTx | app/routes/transactions.py:38-46 | log_tx appends one record stamped with the clock and changes nothing else |
| Transactions.DepositEffect | app/routes/transactions.py:55-58 | a deposit changes only the target balance, by the amount; it appends one deposit record carrying the new balance |
| Transactions.DepositWithdrawRoundTrip | app/routes/transactions.py:54-78 | a deposit followed by a withdrawal of the same amount on the same reference restores every balance and logs two records |
| Transactions.TransferConserves | app/routes/transactions.py:97-104 | a transfer preserves the bank's total and moves exactly the amount; a self-transfer changes no balance; both records name the other side |
| Transactions.Deposit | app/routes/transactions.py:49-64 | amount <= 0 is a 400; an unknown account is a 404; otherwise the store becomes the deposit effect and the receipt shows the new balance and number |
| Transactions.Withdraw | app/routes/transactions.py:66-84 | as deposit, plus "Insufficient balance" when the balance is below the amount; balances stay non-negative |
| Transactions.Transfer | app/routes/transactions.py:86-112 | amount check, then both lookups (source first), then the funds check on the source, then the transfer effect and both new balances |
| Transactions.HistoryOrder | app/routes/transactions.py:116-130 | the rows cover every record of the user, in strictly decreasing time; `to` appears only on transfer_out rows and `from` only on transfer_in rows |
| Transactions.History | app/routes/transactions.py:114-131 | the rows are exactly the user's records, newest first, and have the HistoryOrder properties |
| Loans.Notify | app/routes/loans.py:37-42 | notify appends one message to the user, stamped with the clock |
| Loans.FindOwnedLoan | app/routes/loans.py:83 | the first loan with both that `_id` and that owner, or none |
| Loans.FindLoan | app/routes/admin.py:36 | the first loan with that `_id`, or none |
| Loans.ApplyKeepsConsistent | app/routes/loans.py:56-67 | inserting a pending loan and its notice keeps the store invariant |
| Loans.ApplyEffect | app/routes/loans.py:56-67 | apply adds exactly one pending loan with no EMIs paid under a fresh id, plus one message to the applicant; accounts and transactions are untouched |
| Loans.ApplyFor | app/routes/loans.py:52-68 | no account under the ObjectId is "Create a bank account first"; otherwise the loan is stored and its id returned as text |
| Loans.Apply | app/routes/loans.py:49-68 | a malformed user id is a 400 before anything else; then as ApplyFor |
| Loans.ApplyReceiptNamesLoan | app/routes/loans.py:66-68 | the id apply returns finds the new loan, both for the admin routes and for pay_emi by its owner |
| Loans.MyLoans | app/routes/loans.py:70-78 | a malformed id is a 400; otherwise exactly the user's loans stored under the ObjectId, newest first, ids as text |
| Loans.PaymentEffect | app/routes/loans.py:87-93 | a payment adds one to emis_paid; it closes the loan when that reaches the term and sends the matching message; nothing else changes |
| Loans.RepaymentSchedule | app/routes/loans.py:85-90 | paying an approved loan `n` times, up to its remaining term, counts `n` more EMIs; the loan stays approved before the last one and is closed by it |
| Loans.PaymentKeepsConsistent | app/routes/loans.py:87-91 | a payment keeps the store invariant |
| Loans.PayOwnedLoan | app/routes/loans.py:83-94 | an unknown or foreign loan is a 404; a loan that is not approved is a 400; otherwise the payment effect |
| Loans.PayAt | app/routes/loans.py:86-94 | the receipt shows the new count and the term, with status "approved" even when the payment closed the loan |
| Loans.PayEmi | app/routes/loans.py:80-94 | both ids must parse (400), then as PayOwnedLoan |
| Admin.ApproveEffect | app/routes/admin.py:38-39 | approval sets status and approval time whatever the previous status was, changes no other loan, and sends the owner one message |
| Admin.RejectEffect | app/routes/admin.py:47-48 | rejection sets only the status, keeps any approval time, and sends the owner one message |
| Admin.ReapprovalOverpays | app/routes/admin.py:38 | a closed, fully paid loan can be approved again and then accepts a payment past its term |
| Admin.DecisionKeepsConsistent | app/routes/admin.py:38-48 | approve and reject keep the store invariant |
| Admin.ApproveById | app/routes/admin.py:36-40 | an unknown loan is a 404; otherwise the approve effect, with the loan id echoed |
| Admin.Approve | app/routes/admin.py:33-40 | a malformed id is a 400, then as ApproveById |
| Admin.RejectById | app/routes/admin.py:45-49 | an unknown loan is a 404; otherwise the reject effect, with the loan id echoed |
| Admin.Reject | app/routes/admin.py:42-49 | a malformed id is a 400, then as RejectById |
| Admin.CustomerView | app/routes/admin.py:15-16 | a listed user has a text `_id` and no `password`, but keeps `password_hash`; nothing else differs |
| Admin.Customers | app/routes/admin.py:12-17 | every user, in store order, as CustomerView; the count equals the number of users |
| Accounts.ParseAccountType | app/routes/accounts.py:11 | exactly "savings" and "current" are accepted |
| Accounts.GenAccNo | app/routes/accounts.py:19-24 | the first of the 25 draws that no account uses; it fails with a 500 iff all 25 are taken; the number is 8 digits and unused |
| Accounts.CreateKeepsConsistent | app/routes/accounts.py:36-43 | a new zero-balance account with an unused number keeps the store invariant |
| Accounts.CreateFor | app/routes/accounts.py:29-50 | an unknown user is a 404; an existing account under the ObjectId is a 400; exhausted draws are a 500; otherwise one new account under the ObjectId |
| Accounts.CreateAccount | app/routes/accounts.py:26-50 | a bad account type is a 422, then a malformed user id is a 400; then an unknown user is a 404, an account already under the ObjectId a 400, and all 25 draws taken a 500; otherwise one new account under the ObjectId and its receipt; any error leaves the store unchanged |
| Auth.RegisterKeepsConsistent | app/routes/auth.py:39-57 | the new user and savings account keep the store invariant |
| Auth.RegisterEffect | app/routes/auth.py:39-57 | register adds one user under a fresh id, storing the password as given, and one empty savings account whose `user_id` is that id's text |
| Auth.RegisterKeepsLoginsDistinct | app/routes/auth.py:29-36 | the duplicate guard keeps usernames and emails unique |
| Auth.DrawFreshNumber | app/routes/auth.py:47-50 | the loop returns the first drawn number that no account uses |
| Auth.Register | app/routes/auth.py:23-72 | a used username or email is a 400 with no change; otherwise the register effect with the first fresh draw; the receipt shows the new id as text |
| Auth.FindLogin | app/routes/auth.py:80-83 | the first user with that email whose stored `password` is exactly the one given |
| Auth.FindAccountOf | app/routes/auth.py:87 | the first account with that `user_id` |
| Auth.Login | app/routes/auth.py:75-102 | no matching user is a 401; otherwise the user and the account found by the id's text, if any |
| Auth.FindByEmail | app/routes/auth.py:111 | the first user with that email |
| Auth.ResetKeepsConsistent | app/routes/auth.py:124-127 | writing a new `password` keeps the store invariant |
| Auth.ResetFor | app/routes/auth.py:116-129 | an account number not held under the user's text id is a 400; otherwise only that user's `password` changes |
| Auth.ForgotPassword | app/routes/auth.py:105-129 | an unknown email is a 404, then as ResetFor |
| Auth.ResetThenLogin | app/routes/auth.py:124-127 | after a reset, login with that email and the new password finds the reset user (the first with that email); no other user changes |
| Users.FindUserById | app/routes/users.py:24 | the first user with that `_id`, or none |
| Users.FindUserByIdAny | app/routes/users.py:20-30 | the ObjectId reading is tried first; the plain-string id only when that does not parse or finds nobody |
| Users.IdTextFindsUser | app/routes/users.py:20-30 | the text of any stored id finds that user, unless a string id that parses is shadowed by the ObjectId user |
| Users.FoundByObjectId | app/routes/users.py:23-26 | a parseable id that some user has as ObjectId finds that user |
| Users.FoundByString | app/routes/users.py:30 | the plain-string fallback finds the user when no ObjectId user shadows it |
| Users.FindUserByAccountNumber | app/routes/users.py:32-40 | non-digit text finds nothing; else the first account with the number, and its owner found by the text of its `user_id` |
| Users.AccountFoundByNumber | app/routes/users.py:34 | with unique numbers, an account's own number finds that account |
| Users.AccountNumberFindsOwner | app/routes/users.py:34-39 | an account's number finds its owner, whether `user_id` is the ObjectId or its text |
| Users.StoredPassword | app/routes/users.py:116 | `password` when non-empty, else `password_hash`, else empty |
| Users.VerifyLegacy | app/routes/users.py:42-51 | empty never matches; a "$2" value is checked by bcrypt, an exception counting as a mismatch; anything else is compared as plain text |
| Users.PlainPasswordVerifies | app/routes/users.py:44-51 | a plain-text password stored at registration or reset that is non-empty and does not start with "$2" is accepted exactly when typed back; an empty one accepts nothing (one starting with "$2" goes to bcrypt) |
| Users.ApplyUpdate | app/routes/users.py:106-108 | the given fields are set, the others kept; id, email and passwords are never touched |
| Users.EmptyUpdateIsIdentity | app/routes/users.py:107 | an empty body changes nothing, so skipping the write is sound |
| Users.UpdateIdempotent | app/routes/users.py:106-108 | the same update twice equals once |
| Users.UpdateKeepsConsistent | app/routes/users.py:108 | a profile update keeps the store invariant |
| Users.UpdateAt | app/routes/users.py:106-109 | the store becomes the update effect on that one user |
| Users.WithNewPassword | app/routes/users.py:119-121 | the new hash goes to `password_hash` when that key exists, else to `password` |
| Users.ChangeTakesEffect | app/routes/users.py:116-121 | after a change, the new password verifies, unless a non-empty `password` sits beside `password_hash` |
| Users.ChangeShadowedByPassword | app/routes/users.py:116-121 | with both keys and a non-empty `password`, the change does not alter which value is checked |
| Users.PasswordChangeKeepsConsistent | app/routes/users.py:121 | a password change keeps the store invariant |
| Users.ChangePasswordAt | app/routes/users.py:116-122 | a wrong old password is a 400 with no change; otherwise the stored key gets `hash_password(new)` |
| Users.DeleteUserEffect | app/routes/users.py:132-135 | delete removes the user and every transaction and account under the id's text; accounts under the ObjectId, loans and messages remain |
| Users.DeleteUserKeepsConsistent | app/routes/users.py:132-135 | the cascading delete keeps the store invariant |
| Users.DeleteUserAt | app/routes/users.py:129-136 | a wrong password is a 400 with no change; otherwise the delete effect |
| Users.DeleteByAccountEffect | app/routes/users.py:199-205 | removes exactly that account and that user (every other account and user stays) and the records naming the number as from/to account; every other record stays, in particular all records log_tx writes (no account keys) |
| Users.DeleteByAccountKeepsConsistent | app/routes/users.py:199-205 | that delete keeps the store invariant |
| Users.DeleteByAccountAt | app/routes/users.py:195-206 | a wrong password is a 400 with no change; otherwise the by-account delete effect |
| Users.UpdateUser | app/routes/users.py:101-109 | an unknown user is a 404; otherwise UpdateAt on the user find_user_by_id_any returns |
| Users.ChangePassword | app/routes/users.py:111-122 | an unknown user is a 404; otherwise as ChangePasswordAt |
| Users.DeleteUser | app/routes/users.py:124-136 | an unknown user is a 404; otherwise as DeleteUserAt |
| Users.UpdateByAccount | app/routes/users.py:167-175 | account or owner not found is a 404; otherwise UpdateAt on the owner |
| Users.ChangePasswordByAccount | app/routes/users.py:177-188 | account or owner not found is a 404; otherwise as ChangePasswordAt |
| Users.DeleteByAccount | app/routes/users.py:190-206 | account or owner not found is a 404; otherwise as DeleteByAccountAt |
| Linking.RegisteredAccountInvisibleByObjectId | app/routes/auth.py:52-57 | right after register, the user exists under its ObjectId; no account is stored under it (so apply refuses), while the money routes find the account by the id's text |
| Linking.SecondAccountAfterRegistration | app/routes/accounts.py:33-43 | a registered user passes create_account's guard and ends with two accounts, one per id kind; lookup by text user id never reaches the second |

## Left out

- Money is modelled as integers. `float(...)` conversions and rounding are not modelled.
- The EMI figure is a parameter of `Loans.Apply`, not computed. The `calc_emi` formula is
  floating point, and `emi_calc` (`app/routes/loans.py:45-47`) only returns it. When
  `months` is 0, `calc_emi` divides by zero; `Loans.Apply` models this as the "undefined
  EMI" error.
- Timestamps are a counter bumped by every clock reading, not datetimes. Their
  `isoformat()` text in history rows is not modelled.
- Concurrency and atomicity are not modelled. Each handler runs alone, and its separate
  Mongo calls cannot interleave with another request.
- `ObjectId(...)` is modelled only on 24-hex-digit text. The 12-byte form and the
  `(s or "")` guard for a missing argument are not modelled, because the request models
  always supply a string.
- `str.strip()` and `str.isdigit()` are modelled on ASCII only. Unicode whitespace (such as
  U+0085 and U+00A0) and Unicode digits are not modelled.
- `ObjectId(s)` of the bson library decodes the 24 characters with `bytes.fromhex`, which
  also skips whitespace between byte pairs. The model accepts only 24 hex digits, so a
  24-character id with inner blanks is a 400 here. That library is not part of this model.
- ObjectIds are unbounded numbers here. The invariant does not keep `nextOid` below 16^24,
  so the round trip through `oid` (`Ids.ObjectIdRoundTrip`, which needs that bound) is not
  derived from the store invariant for the ids `Loans.ApplyReceiptNamesLoan` hands out.
- The `int(acct_no)` retry in find_user_by_account_number is not modelled. Account numbers
  are always stored as text here, so the retry never finds anything.
- The `_id`s of accounts, transactions and messages are not modelled. The core updates
  accounts through a position found by lookup, and the other two are never looked up.
- Not modelled, because they are read-only views with no property of their own:
  - messages routes;
  - admin `accounts` and `loans` listings;
  - `get_user` and `get_user_by_account`;
  - avatar upload.
- `hash_password` and passlib's `verify` are parameters, not computed. bcrypt is not
  modelled.
- HTTP plumbing, CORS, static files and the database connection are not modelled.
  Pydantic validation is modelled only for `account_type`; e-mail format and type coercion
  are not.
- A `password_hash` key whose value is null counts as an absent key. `"password_hash" in u`
  would treat it as present.
- Auth.Register: requires that some draw is unused, because the source's `while True`
  loop never ends when every number is taken.
- Loans.ApplyFor: the notice text ("EMI ≈ ₹…") is a Notice constant, not formatted text.
  The same holds for all message texts.
- History rows carry the counterparty `user_id` as stored. Its JSON encoding, when that
  id is an ObjectId, is not modelled.
