/** The conversation and message collections behind the chat socket
    handlers of server.js, and the chat page's find-or-create. */
module Chat {
  import opened Common

  /** Ids of stored documents, handed out by one counter as ObjectIds are. */
  type MessageId = nat
  type ConversationId = nat

  /** A chat message; `text` holds plain text or an image or audio snippet. */
  datatype Message = Message(id: MessageId, conversation: ConversationId, sender: UserId,
                             text: string, seen: bool, edited: bool, createdAt: Time)

  /** A conversation: its participants and the message last sent in it. */
  datatype Conversation = Conversation(id: ConversationId, participants: seq<UserId>,
                                       lastMessage: Option<MessageId>, updatedAt: Time)

  /** Every id is below `next` and no two documents share an id. */
  predicate MessageIdsFresh(ms: seq<Message>, next: nat) {
    && (forall i :: 0 <= i < |ms| ==> ms[i].id < next)
    && (forall i, j :: 0 <= i < j < |ms| ==> ms[i].id != ms[j].id)
  }

  predicate ConversationIdsFresh(cs: seq<Conversation>, next: nat) {
    && (forall i :: 0 <= i < |cs| ==> cs[i].id < next)
    && (forall i, j :: 0 <= i < j < |cs| ==> cs[i].id != cs[j].id)
  }

  /** `Message.find({conversation: room})`, in creation order. */
  function MessagesIn(ms: seq<Message>, room: ConversationId): (r: seq<Message>)
    ensures forall m :: m in r <==> m in ms && m.conversation == room
    ensures |r| <= |ms|
  {
    if ms == [] then []
    else (if ms[0].conversation == room then [ms[0]] else []) + MessagesIn(ms[1..], room)
  }

  /** The history keeps creation order across any split of the store: the
      room's messages of an earlier run come before those of a later one. */
  lemma {:induction false} MessagesInConcat(a: seq<Message>, b: seq<Message>, room: ConversationId)
    ensures MessagesIn(a + b, room) == MessagesIn(a, room) + MessagesIn(b, room)
  {
    if a == [] {
      assert a + b == b;
    } else {
      assert (a + b)[1..] == a[1..] + b;
      MessagesInConcat(a[1..], b, room);
    }
  }

  /** A message just created comes last in its room's history. */
  lemma MessagesInAppend(ms: seq<Message>, m: Message)
    ensures MessagesIn(ms + [m], m.conversation) == MessagesIn(ms, m.conversation) + [m]
  {
    MessagesInConcat(ms, [m], m.conversation);
    assert MessagesIn([m], m.conversation) == [m] + MessagesIn([], m.conversation);
  }

  /** The `seen` handler's `updateMany`: every unseen message of the room
      whose sender is not the viewer becomes seen. */
  function MarkSeen(ms: seq<Message>, room: ConversationId, viewer: UserId): (r: seq<Message>)
    ensures |r| == |ms|
    ensures forall i :: 0 <= i < |ms| ==>
      r[i] == if ms[i].conversation == room && ms[i].sender != viewer then ms[i].(seen := true) else ms[i]
  {
    if ms == [] then []
    else
      var m := ms[0];
      [if m.conversation == room && m.sender != viewer && !m.seen then m.(seen := true) else m]
        + MarkSeen(ms[1..], room, viewer)
  }

  /** A second `seen` from the same viewer changes nothing. */
  lemma MarkSeenIdempotent(ms: seq<Message>, room: ConversationId, viewer: UserId)
    ensures MarkSeen(MarkSeen(ms, room, viewer), room, viewer) == MarkSeen(ms, room, viewer)
  {
    var once := MarkSeen(ms, room, viewer);
    var twice := MarkSeen(once, room, viewer);
    assert |twice| == |once|;
    forall i | 0 <= i < |once| ensures twice[i] == once[i] {
    }
  }

  /** After `seen`, every message of the room from someone else is seen; the
      viewer's own messages and other rooms' messages are unchanged. */
  lemma MarkSeenEffect(ms: seq<Message>, room: ConversationId, viewer: UserId)
    ensures forall m :: m in MessagesIn(MarkSeen(ms, room, viewer), room) && m.sender != viewer ==> m.seen
    ensures forall m :: m in ms && (m.conversation != room || m.sender == viewer) ==>
              m in MarkSeen(ms, room, viewer)
  {
    var r := MarkSeen(ms, room, viewer);
    forall m | m in ms && (m.conversation != room || m.sender == viewer)
      ensures m in r
    {
      var i :| 0 <= i < |ms| && ms[i] == m;
      assert r[i] == m;
    }
  }

  /** The `editMessage` handler's `findByIdAndUpdate`: the message with that
      id gets the new text and the edited flag. */
  function EditMessage(ms: seq<Message>, id: MessageId, text: string): (r: seq<Message>)
    ensures |r| == |ms|
    ensures forall i :: 0 <= i < |ms| ==>
      r[i] == if ms[i].id == id then ms[i].(text := text, edited := true) else ms[i]
  {
    if ms == [] then []
    else [if ms[0].id == id then ms[0].(text := text, edited := true) else ms[0]]
           + EditMessage(ms[1..], id, text)
  }

  /** The `deleteMessage` handler's `findByIdAndDelete`. */
  function RemoveMessage(ms: seq<Message>, id: MessageId): (r: seq<Message>)
    ensures forall m :: m in r <==> m in ms && m.id != id
    ensures |r| <= |ms|
    ensures (forall m :: m in ms ==> m.id != id) ==> r == ms
  {
    if ms == [] then []
    else (if ms[0].id == id then [] else [ms[0]]) + RemoveMessage(ms[1..], id)
  }

  lemma FreshTail(ms: seq<Message>, next: nat)
    requires MessageIdsFresh(ms, next) && ms != []
    ensures MessageIdsFresh(ms[1..], next)
    ensures forall m :: m in ms[1..] ==> m.id != ms[0].id
  {
    var rest := ms[1..];
    forall i, j | 0 <= i < j < |rest| ensures rest[i].id != rest[j].id {
      assert rest[i] == ms[i + 1] && rest[j] == ms[j + 1];
    }
    forall m | m in rest ensures m.id != ms[0].id {
      var k :| 0 <= k < |rest| && rest[k] == m;
      assert ms[k + 1] == m;
    }
  }

  /** A message whose id is fresh and unused can go in front. */
  lemma FreshCons(m: Message, tail: seq<Message>, next: nat)
    requires m.id < next && MessageIdsFresh(tail, next)
    requires forall x :: x in tail ==> x.id != m.id
    ensures MessageIdsFresh([m] + tail, next)
  {
    var r := [m] + tail;
    forall i, j | 0 <= i < j < |r| ensures r[i].id != r[j].id {
      assert r[j] == tail[j - 1];
      if i > 0 {
        assert r[i] == tail[i - 1];
      } else {
        assert tail[j - 1] in tail;
      }
    }
  }

  /** Deleting keeps the ids fresh and free of duplicates. */
  lemma {:induction false} RemoveMessageFresh(ms: seq<Message>, id: MessageId, next: nat)
    requires MessageIdsFresh(ms, next)
    ensures MessageIdsFresh(RemoveMessage(ms, id), next)
  {
    if ms != [] {
      FreshTail(ms, next);
      RemoveMessageFresh(ms[1..], id, next);
      var tail := RemoveMessage(ms[1..], id);
      if ms[0].id != id {
        assert RemoveMessage(ms, id) == [ms[0]] + tail;
        FreshCons(ms[0], tail, next);
      } else {
        assert RemoveMessage(ms, id) == tail;
      }
    }
  }

  /** Deleting an id that some message has removes exactly one message. */
  lemma {:induction false} RemoveMessageOne(ms: seq<Message>, id: MessageId, next: nat)
    requires MessageIdsFresh(ms, next) && exists m :: m in ms && m.id == id
    ensures |RemoveMessage(ms, id)| == |ms| - 1
  {
    FreshTail(ms, next);
    if ms[0].id == id {
      assert RemoveMessage(ms, id) == RemoveMessage(ms[1..], id);
    } else {
      var m :| m in ms && m.id == id;
      assert m in ms[1..];
      RemoveMessageOne(ms[1..], id, next);
    }
  }

  /** The `sendMessage` handler's `Conversation.findByIdAndUpdate`: the
      conversation with that id points at the new message; an unknown id
      updates nothing. */
  function SetLastMessage(cs: seq<Conversation>, room: ConversationId, mid: MessageId, now: Time): (r: seq<Conversation>)
    ensures |r| == |cs|
    ensures forall i :: 0 <= i < |cs| ==>
      r[i] == if cs[i].id == room then cs[i].(lastMessage := Some(mid), updatedAt := now) else cs[i]
  {
    if cs == [] then []
    else [if cs[0].id == room then cs[0].(lastMessage := Some(mid), updatedAt := now) else cs[0]]
           + SetLastMessage(cs[1..], room, mid, now)
  }

  predicate Joins(c: Conversation, a: UserId, b: UserId) {
    a in c.participants && b in c.participants
  }

  /** `Conversation.findOne({participants: {$all: [a, b]}})`: the first
      conversation holding both users. */
  function FindConversation(cs: seq<Conversation>, a: UserId, b: UserId): (r: Option<Conversation>)
    ensures r.Some? ==> r.value in cs && Joins(r.value, a, b)
    ensures r.Some? ==> exists i :: 0 <= i < |cs| && cs[i] == r.value && forall j :: 0 <= j < i ==> !Joins(cs[j], a, b)
    ensures r.None? <==> forall c :: c in cs ==> !Joins(c, a, b)
  {
    if cs == [] then None
    else if Joins(cs[0], a, b) then Some(cs[0])
    else FindConversation(cs[1..], a, b)
  }

  /** `$all` ignores the order of the two users. */
  lemma {:induction false} FindConversationSymmetric(cs: seq<Conversation>, a: UserId, b: UserId)
    ensures FindConversation(cs, a, b) == FindConversation(cs, b, a)
  {
    if cs != [] {
      FindConversationSymmetric(cs[1..], a, b);
    }
  }

  /** A conversation appended after a failed search is the one found next. */
  lemma {:induction false} FindAfterAppend(cs: seq<Conversation>, c: Conversation, a: UserId, b: UserId)
    requires FindConversation(cs, a, b).None? && Joins(c, a, b)
    ensures FindConversation(cs + [c], a, b) == Some(c)
  {
    if cs == [] {
      assert cs + [c] == [c];
    } else {
      assert (cs + [c])[1..] == cs[1..] + [c];
      FindAfterAppend(cs[1..], c, a, b);
    }
  }

  /** A just-sent message from someone other than the viewer shows as seen
      in the room's history once the viewer reports `seen`. */
  lemma SendThenSeen(ms: seq<Message>, m: Message, viewer: UserId)
    requires m.sender != viewer
    ensures m.(seen := true) in MessagesIn(MarkSeen(ms + [m], m.conversation, viewer), m.conversation)
  {
    var r := MarkSeen(ms + [m], m.conversation, viewer);
    assert r[|ms|] == m.(seen := true);
  }

  /** An edit shows in the room's history with the new text and the edited
      flag, and every message with that id carries them. */
  lemma EditThenHistory(ms: seq<Message>, m: Message, text: string)
    requires m in ms
    ensures m.(text := text, edited := true) in MessagesIn(EditMessage(ms, m.id, text), m.conversation)
    ensures forall x :: x in EditMessage(ms, m.id, text) && x.id == m.id ==> x.text == text && x.edited
  {
    var r := EditMessage(ms, m.id, text);
    var i :| 0 <= i < |ms| && ms[i] == m;
    assert r[i] == m.(text := text, edited := true);
    forall x | x in r && x.id == m.id ensures x.text == text && x.edited {
      var k :| 0 <= k < |r| && r[k] == x;
    }
  }

  /** The stores behind the chat handlers. */
  class MessageStore {
    var conversations: seq<Conversation>
    var messages: seq<Message>
    var nextId: nat

    ghost predicate Valid()
      reads this
    {
      MessageIdsFresh(messages, nextId) && ConversationIdsFresh(conversations, nextId)
    }

    constructor ()
      ensures Valid() && conversations == [] && messages == []
    {
      conversations, messages, nextId := [], [], 0;
    }

    /** `sendMessage`: create the message unseen and unedited, then point
        the room's conversation at it. */
    method Send(room: ConversationId, sender: UserId, text: string, now: Time) returns (m: Message)
      requires Valid()
      modifies this
      ensures Valid()
      ensures m.conversation == room && m.sender == sender && m.text == text
      ensures !m.seen && !m.edited && m.createdAt == now
      ensures forall x :: x in old(messages) ==> x.id != m.id
      ensures messages == old(messages) + [m]
      ensures conversations == SetLastMessage(old(conversations), room, m.id, now)
    {
      m := Message(nextId, room, sender, text, false, false, now);
      messages := messages + [m];
      conversations := SetLastMessage(conversations, room, m.id, now);
      nextId := nextId + 1;
    }

    /** `editMessage`. */
    method Edit(id: MessageId, text: string)
      requires Valid()
      modifies this
      ensures Valid()
      ensures messages == EditMessage(old(messages), id, text)
      ensures conversations == old(conversations) && nextId == old(nextId)
    {
      messages := EditMessage(messages, id, text);
    }

    /** `deleteMessage`; a missing id deletes nothing. */
    method Delete(id: MessageId)
      requires Valid()
      modifies this
      ensures Valid()
      ensures messages == RemoveMessage(old(messages), id)
      ensures (exists m :: m in old(messages) && m.id == id) ==> |messages| == |old(messages)| - 1
      ensures conversations == old(conversations) && nextId == old(nextId)
    {
      RemoveMessageFresh(messages, id, nextId);
      if exists m :: m in messages && m.id == id {
        RemoveMessageOne(messages, id, nextId);
      }
      messages := RemoveMessage(messages, id);
    }

    /** `seen`. */
    method Seen(room: ConversationId, viewer: UserId)
      requires Valid()
      modifies this
      ensures Valid()
      ensures messages == MarkSeen(old(messages), room, viewer)
      ensures conversations == old(conversations) && nextId == old(nextId)
    {
      messages := MarkSeen(messages, room, viewer);
    }

    /** The chat page's find-or-create: return the conversation holding both
        users, creating one only when none exists. Either way the next
        search, in either order of the users, finds the returned one. */
    method OpenChat(me: UserId, other: UserId, now: Time) returns (c: Conversation)
      requires Valid()
      modifies this
      ensures Valid()
      ensures Joins(c, me, other) && messages == old(messages)
      ensures FindConversation(old(conversations), me, other).Some? ==>
                c == FindConversation(old(conversations), me, other).value && conversations == old(conversations)
      ensures FindConversation(old(conversations), me, other).None? ==>
                c == Conversation(old(nextId), [me, other], None, now) && conversations == old(conversations) + [c]
      ensures FindConversation(conversations, me, other) == Some(c)
      ensures FindConversation(conversations, other, me) == Some(c)
    {
      var found := FindConversation(conversations, me, other);
      if found.Some? {
        c := found.value;
      } else {
        c := Conversation(nextId, [me, other], None, now);
        FindAfterAppend(conversations, c, me, other);
        conversations := conversations + [c];
        nextId := nextId + 1;
      }
      FindConversationSymmetric(conversations, me, other);
    }
  }
}
