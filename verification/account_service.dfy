/**
 The account service: registration with ordered input checks and a duplicate
 check, and login by exact password comparison.
 */
module AccountService {
  import opened Common
  import opened Validation
  import opened Schema
  import AccountDao

  /** An account as it arrives in a request body; either field may be null. */
  datatype AccountRequest = AccountRequest(id: int, username: Option<string>, password: Option<string>)

  /** The two reasons registration throws `AccountException`. */
  datatype InvalidInput = BlankUsername | ShortPassword

  /** Registration returns the created account, null for a taken username, or throws. */
  datatype Registration = Registered(account: Account) | UsernameTaken | Invalid(reason: InvalidInput)

  /** Some account has username `u`. */
  predicate NameInUse(s: Store, u: string)
  {
    exists k :: k in s.accounts && s.accounts[k].username == u
  }

  /**
   `registerAccount`: the username is checked first, then the password, then
   whether the username is taken; only then is the account inserted.
   */
  function RegisterAccount(s: Store, request: AccountRequest): (r: Step<Registration>)
    ensures !AcceptableUsername(request.username) ==> r.result == Invalid(BlankUsername)
    ensures AcceptableUsername(request.username) && !AcceptablePassword(request.password) ==>
      r.result == Invalid(ShortPassword)
    ensures r.result.UsernameTaken? <==>
      AcceptableUsername(request.username) && AcceptablePassword(request.password) && NameInUse(s, request.username.value)
    ensures r.result.Registered? <==>
      AcceptableUsername(request.username) && AcceptablePassword(request.password) && !NameInUse(s, request.username.value)
    ensures !r.result.Registered? ==> r.store == s
    ensures r.result.Registered? ==>
      var a := r.result.account;
      && a.id !in s.accounts
      && a == Account(a.id, request.username.value, request.password.value)
      && r.store.accounts == s.accounts[a.id := a]
      && r.store.messages == s.messages
      && r.store.nextMessageId == s.nextMessageId
      && s.nextAccountId <= a.id < r.store.nextAccountId
  {
    if request.username.None? || IsBlank(request.username.value) then
      Step(Invalid(BlankUsername), s)
    else if request.password.None? || |request.password.value| < MinPasswordLength then
      Step(Invalid(ShortPassword), s)
    else if AccountDao.GetAccountByUsername(s, request.username).Some? then
      Step(UsernameTaken, s)
    else
      var created := AccountDao.CreateAccount(s, Account(request.id, request.username.value, request.password.value));
      Step(Registered(created.result), created.store)
  }

  /**
   `login`: the account stored under the username, if its password equals the
   supplied one exactly; otherwise null.
   */
  function Login(s: Store, request: AccountRequest): (r: Option<Account>)
    ensures r.Some? ==>
      && (exists k :: k in s.accounts && s.accounts[k] == r.value)
      && request.username == Some(r.value.username)
      && request.password == Some(r.value.password)
    ensures UniqueUsernames(s.accounts) ==>
      (r.Some? <==> exists k :: k in s.accounts
                      && request.username == Some(s.accounts[k].username)
                      && request.password == Some(s.accounts[k].password))
  {
    var stored := AccountDao.GetAccountByUsername(s, request.username);
    if stored.None? || request.password != Some(stored.value.password) then None
    else stored
  }

  /** Registering succeeds and the same credentials then log in to the new account. */
  lemma RegisterThenLogin(s: Store, request: AccountRequest)
    ensures var r := RegisterAccount(s, request);
      r.result.Registered? ==> Login(r.store, request) == Some(r.result.account)
  {
    var r := RegisterAccount(s, request);
    if r.result.Registered? {
      AccountDao.CreateThenLookup(s, Account(request.id, request.username.value, request.password.value));
    }
  }

  /** Once a username is registered, registering it again reports it taken and adds nothing. */
  lemma RegisterTwice(s: Store, first: AccountRequest, second: AccountRequest)
    requires first.username == second.username && AcceptablePassword(second.password)
    ensures var r := RegisterAccount(s, first);
      r.result.Registered? ==>
        var again := RegisterAccount(r.store, second);
        again.result == UsernameTaken && again.store == r.store
  {
    var r := RegisterAccount(s, first);
    if r.result.Registered? {
      assert r.store.accounts[r.result.account.id].username == second.username.value;
    }
  }
}
