/** The socket handlers of server.js and the event side of the like route:
    each handler is one sequential step over the presence registry, the
    user store and the message store, and returns the events it emits in
    order. Delivery of the events is not modelled. */
module Handlers {
  import opened Common
  import opened UserModel
  import opened Presence
  import opened Chat
  import UserStore
  import Matching

  /** An emitted event together with where it goes: `broadcast` events go
      to every other socket, `socket` ones to one socket and `room` ones to
      the sockets that joined that room. */
  datatype Event =
    | UserOnline(user: UserId)
    | UserOffline(user: UserId)
    | UnreadUpdate(socket: SocketId)
    | NewMessage(room: ConversationId, message: Message)
    | Delivered(socket: SocketId, messageId: MessageId, room: ConversationId)
    | MessageEdited(room: ConversationId, messageId: MessageId, text: string)
    | MessageDeleted(room: ConversationId, messageId: MessageId)
    | SeenBy(room: ConversationId)
    | Liked(socket: SocketId, from: UserId, fromName: Option<string>)
    | Matched(socket: SocketId, user: UserId, name: Option<string>, photo: Option<string>)

  /** `online`: a falsy id does nothing at all; otherwise the user is
      registered on this socket, marked online and announced. */
  method HandleOnline(reg: Registry, store: UserStore.Store, sock: SocketId, userId: Option<string>, now: Time)
    returns (events: seq<Event>)
    requires reg.Valid() && store.Valid()
    modifies reg, store
    ensures reg.Valid() && store.Valid()
    ensures !Truthy(userId) ==> events == [] && reg.entries == old(reg.entries) && store.users == old(store.users)
    ensures Truthy(userId) ==>
      && events == [UserOnline(userId.value)]
      && Get(reg.entries, userId.value) == Some(sock)
      && reg.entries == Set(old(reg.entries), userId.value, sock)
      && (userId.value in old(store.users) ==>
            store.users == old(store.users)[userId.value := old(store.users)[userId.value].(online := true, lastActive := now)])
      && (userId.value !in old(store.users) ==> store.users == old(store.users))
  {
    var registered := reg.Online(userId, sock);
    if registered.None? {
      return [];
    }
    store.SetPresence(registered.value, true, now);
    events := [UserOnline(registered.value)];
  }

  /** The store after `findByIdAndUpdate(userId, {online: false, ...})`
      for the user a disconnect listener removed, if any. */
  function MarkOffline(users: map<UserId, User>, who: Option<UserId>, now: Time): (r: map<UserId, User>)
    ensures r.Keys == users.Keys
    ensures forall k :: k in users ==>
      r[k] == if who == Some(k) then users[k].(online := false, lastActive := now) else users[k]
  {
    match who
    case None => users
    case Some(u) => if u in users then users[u := users[u].(online := false, lastActive := now)] else users
  }

  /** The `userOffline` broadcast of a disconnect listener, if it removed
      someone. */
  function Announce(who: Option<UserId>): (r: seq<Event>)
    ensures who.None? <==> r == []
    ensures who.Some? ==> r == [UserOffline(who.value)]
  {
    if who.Some? then [UserOffline(who.value)] else []
  }

  /** Both disconnect listeners, in the order they are registered: each
      deletes the first entry held by the socket, marks that user offline
      and announces it. Returns the users the two listeners removed. */
  method HandleDisconnect(reg: Registry, store: UserStore.Store, sock: SocketId, now: Time)
    returns (first: Option<UserId>, second: Option<UserId>, events: seq<Event>)
    requires reg.Valid() && store.Valid()
    modifies reg, store
    ensures reg.Valid() && store.Valid()
    ensures reg.entries == AfterDisconnect(AfterDisconnect(old(reg.entries), sock), sock)
    ensures first.Some? ==> (first.value, sock) in old(reg.entries)
    ensures second.Some? ==> (second.value, sock) in old(reg.entries) && first.Some? && second != first
    ensures forall u :: Get(old(reg.entries), u) != Some(sock) ==> Get(reg.entries, u) == Get(old(reg.entries), u)
    ensures store.users == MarkOffline(MarkOffline(old(store.users), first, now), second, now)
    ensures events == Announce(first) + Announce(second)
  {
    first := reg.Disconnect(sock);
    if first.Some? {
      store.SetPresence(first.value, false, now);
    }
    assert store.users == MarkOffline(old(store.users), first, now);
    ghost var mid := reg.entries;
    second := reg.Disconnect(sock);
    if second.Some? {
      assert Get(mid, first.value).None?;
      store.SetPresence(second.value, false, now);
    }
    events := Announce(first) + Announce(second);
  }

  /** `joinRoom`: reset the unread counter of a truthy user id and tell the
      joining socket to refresh it. */
  method HandleJoinRoom(store: UserStore.Store, sock: SocketId, userId: Option<UserId>)
    returns (events: seq<Event>)
    requires store.Valid()
    modifies store
    ensures store.Valid()
    ensures events == [UnreadUpdate(sock)]
    ensures Truthy(userId) && userId.value in old(store.users) ==>
      store.users == old(store.users)[userId.value := old(store.users)[userId.value].(unreadCount := 0)]
    ensures !(Truthy(userId) && userId.value in old(store.users)) ==> store.users == old(store.users)
  {
    store.ResetUnread(userId);
    events := [UnreadUpdate(sock)];
  }

  /** `sendMessage`: store the message, point the conversation at it and
      broadcast it to the room; for a truthy receiver, count it unread and,
      when the receiver has a registered socket, tell that socket. */
  method HandleSend(reg: Registry, store: UserStore.Store, chat: MessageStore,
                    room: ConversationId, sender: UserId, text: string, receiver: Option<UserId>, now: Time)
    returns (m: Message, events: seq<Event>)
    requires reg.Valid() && store.Valid() && chat.Valid()
    modifies store, chat
    ensures store.Valid() && chat.Valid()
    ensures m.conversation == room && m.sender == sender && m.text == text && !m.seen && !m.edited
    ensures chat.messages == old(chat.messages) + [m]
    ensures chat.conversations == SetLastMessage(old(chat.conversations), room, m.id, now)
    ensures !Truthy(receiver) ==> events == [NewMessage(room, m)] && store.users == old(store.users)
    ensures Truthy(receiver) ==>
      var r := receiver.value;
      && (r in old(store.users) ==>
            store.users == old(store.users)[r := old(store.users)[r].(unreadCount := old(store.users)[r].unreadCount + 1)])
      && (r !in old(store.users) ==> store.users == old(store.users))
      && events == [NewMessage(room, m)] +
           match Get(reg.entries, r)
           case None => []
           case Some(s) => [UnreadUpdate(s), Delivered(s, m.id, room)]
  {
    m := chat.Send(room, sender, text, now);
    events := [NewMessage(room, m)];
    if Truthy(receiver) {
      store.IncrementUnread(receiver.value);
      var s := reg.Lookup(receiver.value);
      if s.Some? {
        events := events + [UnreadUpdate(s.value), Delivered(s.value, m.id, room)];
      }
    }
  }

  /** `editMessage`: the event goes out whether or not the id exists. */
  method HandleEdit(chat: MessageStore, id: MessageId, text: string, room: ConversationId)
    returns (events: seq<Event>)
    requires chat.Valid()
    modifies chat
    ensures chat.Valid()
    ensures chat.messages == EditMessage(old(chat.messages), id, text)
    ensures chat.conversations == old(chat.conversations)
    ensures events == [MessageEdited(room, id, text)]
  {
    chat.Edit(id, text);
    events := [MessageEdited(room, id, text)];
  }

  /** `deleteMessage`: the event goes out whether or not the id exists. */
  method HandleDelete(chat: MessageStore, id: MessageId, room: ConversationId)
    returns (events: seq<Event>)
    requires chat.Valid()
    modifies chat
    ensures chat.Valid()
    ensures chat.messages == RemoveMessage(old(chat.messages), id)
    ensures chat.conversations == old(chat.conversations)
    ensures events == [MessageDeleted(room, id)]
  {
    chat.Delete(id);
    events := [MessageDeleted(room, id)];
  }

  /** `seen`. */
  method HandleSeen(chat: MessageStore, room: ConversationId, viewer: UserId)
    returns (events: seq<Event>)
    requires chat.Valid()
    modifies chat
    ensures chat.Valid()
    ensures chat.messages == MarkSeen(old(chat.messages), room, viewer)
    ensures chat.conversations == old(chat.conversations)
    ensures events == [SeenBy(room)]
  {
    chat.Seen(room, viewer);
    events := [SeenBy(room)];
  }

  /** The events of a like on an existing target, given the registry and the
      two records as loaded: a `liked` event to the target's socket, and on
      a match a `match` event to each registered side carrying the other's
      id, name and photo. */
  function LikeEvents(es: seq<Entry>, me: User, target: User, matched: bool): (r: seq<Event>)
    ensures |r| <= 3
    ensures forall e :: e in r ==> e.Liked? || e.Matched?
    ensures (exists e :: e in r && e.Matched?) ==> matched
    ensures Get(es, target.id).Some? ==> |r| >= 1 && r[0] == Liked(Get(es, target.id).value, me.id, me.name)
    ensures Get(es, target.id).None? ==> forall e :: e in r ==> !e.Liked?
    ensures matched && Get(es, me.id).Some? ==>
      Matched(Get(es, me.id).value, target.id, target.name, target.photo) in r
    ensures matched && Get(es, target.id).Some? ==>
      Matched(Get(es, target.id).value, me.id, me.name, me.photo) in r
    ensures forall e :: e in r && e.Matched? ==>
      || (Get(es, me.id).Some? && e == Matched(Get(es, me.id).value, target.id, target.name, target.photo))
      || (Get(es, target.id).Some? && e == Matched(Get(es, target.id).value, me.id, me.name, me.photo))
    ensures |r| == (if Get(es, target.id).Some? then 1 else 0)
                 + (if matched then (if Get(es, me.id).Some? then 1 else 0) + (if Get(es, target.id).Some? then 1 else 0) else 0)
  {
    var toTarget := Get(es, target.id);
    var toMe := Get(es, me.id);
    (if toTarget.Some? then [Liked(toTarget.value, me.id, me.name)] else [])
      + (if matched && toMe.Some? then [Matched(toMe.value, target.id, target.name, target.photo)] else [])
      + (if matched && toTarget.Some? then [Matched(toTarget.value, me.id, me.name, me.photo)] else [])
  }

  /** `POST /like/:id` with its live events: a missing target answers no
      match and emits nothing; otherwise the store update of the match
      engine followed by the like and match events. */
  method HandleLike(reg: Registry, store: UserStore.Store, liker: UserId, liked: UserId, now: Time)
    returns (matched: bool, events: seq<Event>)
    requires reg.Valid() && store.Valid() && liker in store.users && liker != liked
    modifies store
    ensures store.Valid()
    ensures Matching.LikeOutcome(store.users, matched) == Matching.Like(old(store.users), liker, liked, now)
    ensures liked !in old(store.users) ==> events == []
    ensures liked in old(store.users) ==>
      events == LikeEvents(reg.entries, old(store.users)[liker], old(store.users)[liked], matched)
  {
    if liked !in store.users {
      matched := store.Like(liker, liked, now);
      return matched, [];
    }
    var me := store.users[liker];
    var target := store.users[liked];
    matched := store.Like(liker, liked, now);
    events := LikeEvents(reg.entries, me, target, matched);
  }

  /** A replayed like on a match announces the match again to every
      registered side, although no array changes: the route does not tell a
      new match from an old one. */
  lemma ReplayAnnouncesMatchAgain(es: seq<Entry>, users: Matching.Users, liker: UserId, liked: UserId,
                                  now: Time, later: Time)
    requires liker in users && liker != liked && liked in users && Matching.StoredUnderId(users)
    requires liker in users[liked].likes && Get(es, liker).Some?
    ensures var o1 := Matching.Like(users, liker, liked, now);
      var o2 := Matching.Like(o1.users, liker, liked, later);
      && o2.matched
      && o2.users[liker] == o1.users[liker]
      && Matched(Get(es, liker).value, liked, users[liked].name, users[liked].photo)
           in LikeEvents(es, o1.users[liker], o1.users[liked], o2.matched)
  {
    Matching.LikeReplay(users, liker, liked, now, later);
    var o1 := Matching.Like(users, liker, liked, now);
    assert o1.users[liked].id == liked && o1.users[liker].id == liker;
  }
}
