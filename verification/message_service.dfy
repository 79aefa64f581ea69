/**
 The message service: create and update check the text (and the poster or the
 message) before writing; the remaining operations pass straight through to
 the message data-access object.
 */
module MessageService {
  import opened Common
  import opened Validation
  import opened Schema
  import AccountDao
  import MessageDao

  /** A message as it arrives in a request body; the text may be null. */
  datatype MessageRequest = MessageRequest(id: int, postedBy: int, text: Option<string>, epoch: int)

  /**
   `createMessage`: null and no write when the text is missing, blank or over
   255 characters, or when no account has the poster's id; otherwise the
   message is inserted under a generated id.
   */
  function CreateMessage(s: Store, request: MessageRequest): (r: Step<Option<Message>>)
    ensures r.result.Some? <==> AcceptableText(request.text) && request.postedBy in s.accounts
    ensures r.result.None? ==> r.store == s
    ensures r.result.Some? ==>
      var m := r.result.value;
      && m.id !in s.messages
      && m == Message(m.id, request.postedBy, request.text.value, request.epoch)
      && r.store.messages == s.messages[m.id := m]
      && r.store.accounts == s.accounts
      && r.store.nextAccountId == s.nextAccountId
      && s.nextMessageId <= m.id < r.store.nextMessageId
  {
    if request.text.None? || IsBlank(request.text.value) || |request.text.value| > MaxTextLength then
      Step(None, s)
    else if AccountDao.GetAccountById(s, request.postedBy).None? then
      Step(None, s)
    else
      var created := MessageDao.CreateMessage(s, Message(request.id, request.postedBy, request.text.value, request.epoch));
      Step(Some(created.result), created.store)
  }

  /** `getAllMessages`: every stored message, each once. */
  function GetAllMessages(s: Store): (r: seq<Message>)
    ensures |r| == |s.messages|
    ensures forall m :: m in r <==> m in s.messages.Values
  {
    MessageDao.GetAllMessages(s)
  }

  /** `getMessageById`: the message under `id`, or null. */
  function GetMessageById(s: Store, id: int): (r: Option<Message>)
    ensures r.Some? <==> id in s.messages
    ensures r.Some? ==> r.value == s.messages[id]
  {
    MessageDao.GetMessageById(s, id)
  }

  /** `deleteMessageById`: the removed message, or null when there was none. */
  function DeleteMessageById(s: Store, id: int): (r: Step<Option<Message>>)
    ensures r.result.Some? <==> id in s.messages
    ensures r.result.Some? ==> r.result.value == s.messages[id]
    ensures r.store.messages.Keys == s.messages.Keys - {id}
    ensures forall k :: k in r.store.messages ==> r.store.messages[k] == s.messages[k]
    ensures r.store.accounts == s.accounts
    ensures r.store.nextAccountId == s.nextAccountId && r.store.nextMessageId == s.nextMessageId
    ensures r.result.None? ==> r.store == s
  {
    MessageDao.DeleteMessageById(s, id)
  }

  /**
   `updateMessageText`: null and no write when the new text is missing, blank
   or over 255 characters, or when no message has `id`; otherwise only that
   message's text changes and the updated record is returned.
   */
  function UpdateMessageText(s: Store, id: int, text: Option<string>): (r: Step<Option<Message>>)
    ensures r.result.Some? <==> AcceptableText(text) && id in s.messages
    ensures r.result.None? ==> r.store == s
    ensures r.result.Some? ==>
      var m := r.result.value;
      && m == s.messages[id].(text := text.value)
      && r.store.messages == s.messages[id := m]
      && r.store.accounts == s.accounts
    ensures r.store.nextAccountId == s.nextAccountId && r.store.nextMessageId == s.nextMessageId
  {
    if text.None? || IsBlank(text.value) || |text.value| > MaxTextLength then
      Step(None, s)
    else if MessageDao.GetMessageById(s, id).None? then
      Step(None, s)
    else
      MessageDao.UpdateMessageText(s, id, text.value)
  }

  /** `getMessagesByAccountId`: exactly the messages the account posted, each once; empty if none. */
  function GetMessagesByAccountId(s: Store, accountId: int): (r: seq<Message>)
    ensures forall m :: m in r <==> m in s.messages.Values && m.postedBy == accountId
    ensures |r| == |MessageDao.KeysPostedBy(s.messages, accountId)|
  {
    MessageDao.GetMessagesByAccountId(s, accountId)
  }

  /** A rejected update leaves the stored text as it was. */
  lemma RejectedUpdateKeepsText(s: Store, id: int, text: Option<string>)
    requires id in s.messages && !AcceptableText(text)
    ensures var r := UpdateMessageText(s, id, text);
      r.result == None && GetMessageById(r.store, id) == Some(s.messages[id])
  {
  }

  /** A successful update keeps the message's id, poster and time and is what a later read returns. */
  lemma UpdateKeepsIdentity(s: Store, id: int, text: Option<string>)
    requires KeysMatchIds(s)
    ensures var r := UpdateMessageText(s, id, text);
      r.result.Some? ==>
        && r.result.value.id == id
        && r.result.value.postedBy == s.messages[id].postedBy
        && r.result.value.epoch == s.messages[id].epoch
        && r.result.value.text == text.value
        && GetMessageById(r.store, id) == r.result
  {
  }
}
