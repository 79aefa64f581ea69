/**
 The account data-access object: one parameterised statement per operation,
 modelled over the `accounts` map of the store.
 */
module AccountDao {
  import opened Common
  import opened Keys
  import opened Schema

  /**
   `INSERT INTO account (username, password)`: the database generates the key
   and the candidate is returned with that key set; nothing else is touched.
   */
  function CreateAccount(s: Store, candidate: Account): (r: Step<Account>)
    ensures r.result.id !in s.accounts && r.result.id >= s.nextAccountId
    ensures r.result == candidate.(id := r.result.id)
    ensures r.store.accounts == s.accounts[r.result.id := r.result]
    ensures r.store.messages == s.messages && r.store.nextMessageId == s.nextMessageId
    ensures r.store.nextAccountId > r.result.id
    ensures SupplyAhead(s) ==> r.result.id == s.nextAccountId
  {
    var id := FreshFrom(s.accounts.Keys, s.nextAccountId);
    var created := candidate.(id := id);
    Step(created, s.(accounts := s.accounts[id := created], nextAccountId := id + 1))
  }

  /**
   `SELECT * FROM account WHERE username = ?`, first row. A null username
   matches no row (`= NULL` is never true). The first row is taken to be the
   one with the lowest key; with unique usernames there is only one.
   */
  function GetAccountByUsername(s: Store, username: Option<string>): (r: Option<Account>)
    ensures r.Some? <==> username.Some? && exists k :: k in s.accounts && s.accounts[k].username == username.value
    ensures r.Some? ==> r.value.username == username.value
    ensures r.Some? ==> exists k :: k in s.accounts && s.accounts[k] == r.value
    ensures r.Some? && UniqueUsernames(s.accounts) ==>
      forall k :: k in s.accounts && s.accounts[k].username == username.value ==> s.accounts[k] == r.value
  {
    if username.None? then None
    else
      var hits := set k | k in s.accounts && s.accounts[k].username == username.value;
      assert forall k :: k in s.accounts && s.accounts[k].username == username.value ==> k in hits;
      if hits == {} then None else Some(s.accounts[Min(hits)])
  }

  /** `SELECT * FROM account WHERE account_id = ?`. */
  function GetAccountById(s: Store, id: int): (r: Option<Account>)
    ensures r.Some? <==> id in s.accounts
    ensures r.Some? ==> r.value == s.accounts[id]
    ensures r.Some? && KeysMatchIds(s) ==> r.value.id == id
  {
    if id in s.accounts then Some(s.accounts[id]) else None
  }

  /**
   An account just inserted is found again by its new key, and by its
   username when no account had that username before.
   */
  lemma CreateThenLookup(s: Store, candidate: Account)
    requires GetAccountByUsername(s, Some(candidate.username)).None?
    ensures var r := CreateAccount(s, candidate);
      && GetAccountById(r.store, r.result.id) == Some(r.result)
      && GetAccountByUsername(r.store, Some(candidate.username)) == Some(r.result)
  {
  }

  /** Inserting an account with a new username keeps usernames unique. */
  lemma CreateKeepsUsernamesUnique(s: Store, candidate: Account)
    requires UniqueUsernames(s.accounts)
    requires GetAccountByUsername(s, Some(candidate.username)).None?
    ensures UniqueUsernames(CreateAccount(s, candidate).store.accounts)
  {
  }
}
