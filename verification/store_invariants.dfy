/**
 The store invariant (`Schema.Valid`) holds of a fresh database and is kept by
 every service operation, so it holds after any sequence of requests.
 */
module StoreInvariants {
  import opened Common
  import opened Validation
  import opened Schema
  import opened AccountService
  import opened MessageService

  /** One call into the service layer, as the routes issue them. */
  datatype Request =
    | Register(account: AccountRequest)
    | LogIn(account: AccountRequest)
    | PostMessage(message: MessageRequest)
    | ListMessages
    | ReadMessage(id: int)
    | RemoveMessage(id: int)
    | EditMessage(id: int, text: Option<string>)
    | ListMessagesOf(accountId: int)

  /** The store after serving one request; reads and login leave it as it was. */
  function Serve(s: Store, request: Request): Store
  {
    match request
    case Register(a) => RegisterAccount(s, a).store
    case PostMessage(m) => CreateMessage(s, m).store
    case RemoveMessage(id) => DeleteMessageById(s, id).store
    case EditMessage(id, text) => UpdateMessageText(s, id, text).store
    case LogIn(_) => s
    case ListMessages => s
    case ReadMessage(_) => s
    case ListMessagesOf(_) => s
  }

  /** The store after serving the requests one after another. */
  function Run(s: Store, requests: seq<Request>): Store
    decreases |requests|
  {
    if requests == [] then s else Run(Serve(s, requests[0]), requests[1..])
  }

  /** A fresh database satisfies the invariant. */
  lemma EmptyIsValid()
    ensures Valid(Empty())
  {
  }

  /** Registration keeps usernames unique, accounts well formed and ids fresh. */
  lemma RegisterPreservesValid(s: Store, request: AccountRequest)
    requires Valid(s)
    ensures Valid(RegisterAccount(s, request).store)
  {
  }

  /** Creating a message keeps texts storable and posters existing. */
  lemma CreatePreservesValid(s: Store, request: MessageRequest)
    requires Valid(s)
    ensures Valid(CreateMessage(s, request).store)
  {
  }

  /** Editing a message keeps texts storable; poster and id do not change. */
  lemma UpdatePreservesValid(s: Store, id: int, text: Option<string>)
    requires Valid(s)
    ensures Valid(UpdateMessageText(s, id, text).store)
  {
  }

  /** Deleting a message only removes a row. */
  lemma DeletePreservesValid(s: Store, id: int)
    requires Valid(s)
    ensures Valid(DeleteMessageById(s, id).store)
  {
  }

  /** Serving any one request keeps the invariant. */
  lemma ServePreservesValid(s: Store, request: Request)
    requires Valid(s)
    ensures Valid(Serve(s, request))
  {
  }

  /** Serving requests one after another keeps the invariant. */
  lemma {:induction false} RunPreservesValid(s: Store, requests: seq<Request>)
    requires Valid(s)
    ensures Valid(Run(s, requests))
    decreases |requests|
  {
    if requests != [] {
      ServePreservesValid(s, requests[0]);
      RunPreservesValid(Serve(s, requests[0]), requests[1..]);
    }
  }

  /**
   From a fresh database, whatever requests are served, no two accounts share a
   username and every message is non-blank, at most 255 characters, and posted
   by an account that exists.
   */
  lemma ReachableStoresAreValid(requests: seq<Request>)
    ensures var s := Run(Empty(), requests);
      && UniqueUsernames(s.accounts)
      && TextsStorable(s.messages)
      && PostersExist(s)
  {
    EmptyIsValid();
    RunPreservesValid(Empty(), requests);
  }

  /** No request removes or alters an account: the account table only grows. */
  lemma {:induction false} AccountsOnlyGrow(s: Store, requests: seq<Request>)
    ensures var t := Run(s, requests);
      forall k :: k in s.accounts ==> k in t.accounts && t.accounts[k] == s.accounts[k]
    decreases |requests|
  {
    if requests != [] {
      var next := Serve(s, requests[0]);
      assert forall k :: k in s.accounts ==> k in next.accounts && next.accounts[k] == s.accounts[k];
      AccountsOnlyGrow(next, requests[1..]);
    }
  }
}
