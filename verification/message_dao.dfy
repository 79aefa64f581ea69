/**
 The message data-access object: one parameterised statement per operation,
 modelled over the `messages` map of the store. Queries that return a list
 return the rows in ascending key order.
 */
module MessageDao {
  import opened Common
  import opened Keys
  import opened Schema

  /** The rows stored under `ks`, in ascending key order. */
  function Rows(messages: map<int, Message>, ks: set<int>): (r: seq<Message>)
    requires ks <= messages.Keys
    ensures |r| == |ks|
    ensures forall m :: m in r <==> exists k :: k in ks && messages[k] == m
  {
    var order := Ascending(ks);
    var r := seq(|order|, i requires 0 <= i < |order| => messages[order[i]]);
    assert forall k :: k in ks ==> messages[k] in r by {
      forall k | k in ks
        ensures messages[k] in r
      {
        var i :| 0 <= i < |order| && order[i] == k;
        assert r[i] == messages[k];
      }
    }
    r
  }

  /**
   `INSERT INTO message (posted_by, message_text, time_posted_epoch)`: the
   database generates the key and the message is returned with that key set
   and every other field as given; nothing else is touched.
   */
  function CreateMessage(s: Store, message: Message): (r: Step<Message>)
    ensures r.result.id !in s.messages && r.result.id >= s.nextMessageId
    ensures r.result == message.(id := r.result.id)
    ensures r.store.messages == s.messages[r.result.id := r.result]
    ensures r.store.accounts == s.accounts && r.store.nextAccountId == s.nextAccountId
    ensures r.store.nextMessageId > r.result.id
    ensures SupplyAhead(s) ==> r.result.id == s.nextMessageId
  {
    var id := FreshFrom(s.messages.Keys, s.nextMessageId);
    var created := message.(id := id);
    Step(created, s.(messages := s.messages[id := created], nextMessageId := id + 1))
  }

  /**
   Reads the row first; if there was one, `DELETE FROM message WHERE
   message_id = ?` and return what was read, otherwise return null.
   */
  function DeleteMessageById(s: Store, id: int): (r: Step<Option<Message>>)
    ensures r.result.Some? <==> id in s.messages
    ensures r.result.Some? ==> r.result.value == s.messages[id]
    ensures r.store.messages.Keys == s.messages.Keys - {id}
    ensures forall k :: k in r.store.messages ==> r.store.messages[k] == s.messages[k]
    ensures r.store.accounts == s.accounts
    ensures r.store.nextAccountId == s.nextAccountId && r.store.nextMessageId == s.nextMessageId
    ensures r.result.None? ==> r.store == s
  {
    var prior := GetMessageById(s, id);
    if prior.None? then Step(None, s)
    else Step(prior, s.(messages := s.messages - {id}))
  }

  /** `SELECT * FROM message`: every stored message, each once. */
  function GetAllMessages(s: Store): (r: seq<Message>)
    ensures |r| == |s.messages|
    ensures forall m :: m in r <==> m in s.messages.Values
  {
    Rows(s.messages, s.messages.Keys)
  }

  /** `SELECT * FROM message WHERE message_id = ?`. */
  function GetMessageById(s: Store, id: int): (r: Option<Message>)
    ensures r.Some? <==> id in s.messages
    ensures r.Some? ==> r.value == s.messages[id]
    ensures r.Some? && KeysMatchIds(s) ==> r.value.id == id
  {
    if id in s.messages then Some(s.messages[id]) else None
  }

  /**
   `UPDATE message SET message_text = ? WHERE message_id = ?`; null when no row
   was affected, otherwise the row read back after the update.
   */
  function UpdateMessageText(s: Store, id: int, text: string): (r: Step<Option<Message>>)
    ensures r.result.Some? <==> id in s.messages
    ensures r.result.None? ==> r.store == s
    ensures r.result.Some? ==>
      && r.result.value == s.messages[id].(text := text)
      && r.store.messages == s.messages[id := r.result.value]
    ensures r.store.accounts == s.accounts
    ensures r.store.nextAccountId == s.nextAccountId && r.store.nextMessageId == s.nextMessageId
  {
    if id !in s.messages then Step(None, s)
    else
      var updated := s.(messages := s.messages[id := s.messages[id].(text := text)]);
      Step(GetMessageById(updated, id), updated)
  }

  /** The keys of the messages that account `accountId` posted. */
  function KeysPostedBy(messages: map<int, Message>, accountId: int): set<int>
  {
    set k | k in messages && messages[k].postedBy == accountId
  }

  /**
   `SELECT * FROM message WHERE posted_by = ?`: each of the account's messages
   once, and empty when the account has posted nothing.
   */
  function GetMessagesByAccountId(s: Store, accountId: int): (r: seq<Message>)
    ensures forall m :: m in r <==> m in s.messages.Values && m.postedBy == accountId
    ensures |r| == |KeysPostedBy(s.messages, accountId)|
    ensures (forall k :: k in s.messages ==> s.messages[k].postedBy != accountId) <==> r == []
  {
    var mine := KeysPostedBy(s.messages, accountId);
    var r := Rows(s.messages, mine);
    forall m | m in s.messages.Values && m.postedBy == accountId
      ensures m in r
    {
      // Ruling out "no key holds m" supplies the witness for the `:|` below.
      if forall k :: k in s.messages ==> s.messages[k] != m {
        assert false;
      }
      var k :| k in s.messages && s.messages[k] == m;
      assert k in mine;
    }
    r
  }

  /** A message just inserted is read back, listed, and listed under its poster. */
  lemma CreateThenRead(s: Store, message: Message)
    ensures var r := CreateMessage(s, message);
      && GetMessageById(r.store, r.result.id) == Some(r.result)
      && r.result in GetAllMessages(r.store)
      && r.result in GetMessagesByAccountId(r.store, message.postedBy)
  {
  }

  /** After a delete the id is gone, so deleting it again reports null and changes nothing. */
  lemma DeleteTwice(s: Store, id: int)
    ensures var first := DeleteMessageById(s, id);
      var second := DeleteMessageById(first.store, id);
      second.result == None && second.store == first.store
      && GetMessageById(first.store, id) == None
  {
  }

  /** The record an update returns is the one a later read finds. */
  lemma UpdateThenRead(s: Store, id: int, text: string)
    ensures var r := UpdateMessageText(s, id, text);
      r.result.Some? ==> GetMessageById(r.store, id) == r.result && r.result.value.text == text
  {
  }

  /**
   The per-account listings partition the full listing: a message is listed
   under an account exactly when it is in the full listing and that account
   posted it.
   */
  lemma ListingsAgree(s: Store, accountId: int)
    ensures forall m :: m in GetMessagesByAccountId(s, accountId) <==> m in GetAllMessages(s) && m.postedBy == accountId
    ensures forall m :: m in GetAllMessages(s) ==> m in GetMessagesByAccountId(s, m.postedBy)
  {
  }
}
