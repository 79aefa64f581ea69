/**
 The two tables of the database as an immutable store, the records kept in
 them, and the invariants the service layer maintains over them.
 */
module Schema {
  import opened Validation

  /** A row of the `account` table. */
  datatype Account = Account(id: int, username: string, password: string)

  /** A row of the `message` table; `epoch` is the caller-supplied posting time. */
  datatype Message = Message(id: int, postedBy: int, text: string, epoch: int)

  /**
   Both tables keyed by their primary key, with the counter of each identity
   column: the next key the database generates.
   */
  datatype Store = Store(
    accounts: map<int, Account>,
    messages: map<int, Message>,
    nextAccountId: int,
    nextMessageId: int)

  /** What an operation returns together with the store it leaves behind. */
  datatype Step<T> = Step(result: T, store: Store)

  /** A fresh database: no rows, both identity columns starting at 1. */
  function Empty(): Store
  {
    Store(map[], map[], 1, 1)
  }

  /** Every row carries its own primary key. */
  predicate KeysMatchIds(s: Store)
  {
    && (forall k :: k in s.accounts ==> s.accounts[k].id == k)
    && (forall k :: k in s.messages ==> s.messages[k].id == k)
  }

  /** Both identity counters are past every key in use. */
  predicate SupplyAhead(s: Store)
  {
    && (forall k :: k in s.accounts ==> k < s.nextAccountId)
    && (forall k :: k in s.messages ==> k < s.nextMessageId)
  }

  /** No two accounts share a username. */
  predicate UniqueUsernames(accounts: map<int, Account>)
  {
    forall j, k :: j in accounts && k in accounts && accounts[j].username == accounts[k].username ==> j == k
  }

  /** Every account passed registration's checks. */
  predicate AccountsWellFormed(accounts: map<int, Account>)
  {
    forall k :: k in accounts ==>
      !IsBlank(accounts[k].username) && |accounts[k].password| >= MinPasswordLength
  }

  /** Every message text is non-blank and at most 255 characters. */
  predicate TextsStorable(messages: map<int, Message>)
  {
    forall k :: k in messages ==> IsStorableText(messages[k].text)
  }

  /**
   Every message names an account that exists. Accounts are never removed, so
   this is the same as saying the poster existed when the message was created.
   */
  predicate PostersExist(s: Store)
  {
    forall k :: k in s.messages ==> s.messages[k].postedBy in s.accounts
  }

  /** The store invariant every service operation preserves. */
  predicate Valid(s: Store)
  {
    && KeysMatchIds(s)
    && SupplyAhead(s)
    && UniqueUsernames(s.accounts)
    && AccountsWellFormed(s.accounts)
    && TextsStorable(s.messages)
    && PostersExist(s)
  }
}
