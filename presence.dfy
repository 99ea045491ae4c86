/** The online-user registry of server.js: a JavaScript `Map` from user id to
    socket id. A `Map` remembers insertion order, `set` on an existing key
    keeps that key's position, and the disconnect handlers scan the entries in
    that order, so the registry is modelled as an ordered sequence of entries
    with distinct keys. */
module Presence {
  import opened Common

  type Entry = (UserId, SocketId)

  /** At most one entry per user id. */
  predicate KeysUnique(es: seq<Entry>) {
    forall i, j :: 0 <= i < j < |es| ==> es[i].0 != es[j].0
  }

  /** The position of the entry for user `u`, if any. */
  function KeyIndex(es: seq<Entry>, u: UserId): (r: Option<nat>)
    ensures r.Some? ==> r.value < |es| && es[r.value].0 == u
    ensures r.Some? ==> forall j :: 0 <= j < r.value ==> es[j].0 != u
    ensures r.None? ==> forall j :: 0 <= j < |es| ==> es[j].0 != u
  {
    if es == [] then None
    else if es[0].0 == u then Some(0)
    else match KeyIndex(es[1..], u)
      case None => None
      case Some(i) => Some(i + 1)
  }

  /** The position of the first entry, in insertion order, held by socket `s`. */
  function SocketIndex(es: seq<Entry>, s: SocketId): (r: Option<nat>)
    ensures r.Some? ==> r.value < |es| && es[r.value].1 == s
    ensures r.Some? ==> forall j :: 0 <= j < r.value ==> es[j].1 != s
    ensures r.None? ==> forall j :: 0 <= j < |es| ==> es[j].1 != s
  {
    if es == [] then None
    else if es[0].1 == s then Some(0)
    else match SocketIndex(es[1..], s)
      case None => None
      case Some(i) => Some(i + 1)
  }

  /** `Map.prototype.get`. */
  function Get(es: seq<Entry>, u: UserId): (r: Option<SocketId>)
    ensures r.None? <==> forall j :: 0 <= j < |es| ==> es[j].0 != u
    ensures KeysUnique(es) ==> forall j :: 0 <= j < |es| && es[j].0 == u ==> r == Some(es[j].1)
  {
    match KeyIndex(es, u)
    case None => None
    case Some(i) => Some(es[i].1)
  }

  /** `Map.prototype.set`: overwrite the value in place when the key is
      present, append a new entry otherwise. */
  function Set(es: seq<Entry>, u: UserId, s: SocketId): (r: seq<Entry>)
    requires KeysUnique(es)
    ensures KeysUnique(r)
    ensures |r| == |es| + (if Get(es, u).None? then 1 else 0)
    ensures forall j :: 0 <= j < |es| ==> r[j].0 == es[j].0
  {
    match KeyIndex(es, u)
    case Some(i) => es[i := (u, s)]
    case None => es + [(u, s)]
  }

  /** After `set`, the user maps to the new socket and every other user maps
      to what it mapped to before. */
  lemma SetGet(es: seq<Entry>, u: UserId, s: SocketId)
    requires KeysUnique(es)
    ensures Get(Set(es, u, s), u) == Some(s)
    ensures forall v :: v != u ==> Get(Set(es, u, s), v) == Get(es, v)
  {
    var r := Set(es, u, s);
    match KeyIndex(es, u) {
      case Some(i) => assert r[i] == (u, s);
      case None => assert r[|es|] == (u, s);
    }
    forall v | v != u
      ensures Get(r, v) == Get(es, v)
    {
      match KeyIndex(es, v) {
        case None =>
          assert forall j :: 0 <= j < |r| ==> r[j].0 != v;
        case Some(j) =>
          assert r[j] == es[j];
      }
    }
  }

  /** The entries without position `i`: `Map.prototype.delete` of that key. */
  function RemoveAt(es: seq<Entry>, i: nat): (r: seq<Entry>)
    requires i < |es|
    ensures |r| == |es| - 1
    ensures forall j :: 0 <= j < i ==> r[j] == es[j]
    ensures forall j :: i <= j < |r| ==> r[j] == es[j + 1]
  {
    es[..i] + es[i + 1..]
  }

  /** The registry after one disconnect handler for socket `s` ran: the scan
      deletes the first entry held by `s` and stops. */
  function AfterDisconnect(es: seq<Entry>, s: SocketId): (r: seq<Entry>)
    requires KeysUnique(es)
    ensures KeysUnique(r)
    ensures |es| - 1 <= |r| <= |es|
    ensures forall e :: e in r ==> e in es
    ensures forall e :: e in es && e.1 != s ==> e in r
    ensures forall v :: Get(es, v) != Some(s) ==> Get(r, v) == Get(es, v)
  {
    match SocketIndex(es, s)
    case None => es
    case Some(i) => RemoveAt(es, i)
  }

  /** The number of entries held by socket `s`. */
  function EntriesOf(es: seq<Entry>, s: SocketId): nat {
    if es == [] then 0 else (if es[0].1 == s then 1 else 0) + EntriesOf(es[1..], s)
  }

  lemma {:induction false} EntriesOfZero(es: seq<Entry>, s: SocketId)
    ensures EntriesOf(es, s) == 0 <==> SocketIndex(es, s).None?
  {
    if es != [] {
      EntriesOfZero(es[1..], s);
    }
  }

  lemma {:induction false} EntriesOfSplit(a: seq<Entry>, b: seq<Entry>, s: SocketId)
    ensures EntriesOf(a + b, s) == EntriesOf(a, s) + EntriesOf(b, s)
  {
    if a == [] {
      assert a + b == b;
    } else {
      assert (a + b)[1..] == a[1..] + b;
      EntriesOfSplit(a[1..], b, s);
    }
  }

  /** A disconnect removes exactly one of the socket's entries when it holds
      any, and none otherwise. */
  lemma DisconnectRemovesOne(es: seq<Entry>, s: SocketId)
    requires KeysUnique(es)
    ensures EntriesOf(AfterDisconnect(es, s), s) == if EntriesOf(es, s) == 0 then 0 else EntriesOf(es, s) - 1
  {
    EntriesOfZero(es, s);
    match SocketIndex(es, s)
    case None =>
    case Some(i) =>
      assert es == es[..i] + [es[i]] + es[i + 1..];
      EntriesOfSplit(es[..i] + [es[i]], es[i + 1..], s);
      EntriesOfSplit(es[..i], [es[i]], s);
      EntriesOfSplit(es[..i], es[i + 1..], s);
      assert EntriesOf([es[i]], s) == 1 by {
        assert [es[i]][1..] == [];
      }
  }

  /** server.js registers two disconnect listeners; the second one changes
      nothing exactly when the socket held at most one entry. */
  lemma SecondDisconnectNoOp(es: seq<Entry>, s: SocketId)
    requires KeysUnique(es)
    ensures AfterDisconnect(AfterDisconnect(es, s), s) == AfterDisconnect(es, s) <==> EntriesOf(es, s) <= 1
  {
    var once := AfterDisconnect(es, s);
    DisconnectRemovesOne(es, s);
    EntriesOfZero(once, s);
    if EntriesOf(es, s) > 1 {
      assert SocketIndex(once, s).Some?;
      assert |AfterDisconnect(once, s)| == |once| - 1;
    }
  }

  /** The stale-disconnect guard: a user who re-registered on a new socket
      stays registered on it when the old socket disconnects. */
  lemma StaleDisconnectKeepsNewSocket(es: seq<Entry>, u: UserId, stale: SocketId, current: SocketId)
    requires KeysUnique(es) && stale != current
    ensures Get(AfterDisconnect(Set(es, u, current), stale), u) == Some(current)
  {
    SetGet(es, u, current);
  }

  /** Two different entries held by `s` make at least two. */
  lemma {:induction false} TwoEntries(es: seq<Entry>, s: SocketId, i: nat, k: nat)
    requires i < k < |es| && es[i].1 == s && es[k].1 == s
    ensures EntriesOf(es, s) >= 2
  {
    if i == 0 {
      EntriesOfZero(es[1..], s);
      assert es[1..][k - 1].1 == s;
    } else {
      TwoEntries(es[1..], s, i - 1, k - 1);
    }
  }

  /** A user whose only socket disconnects is no longer found. */
  lemma OnlySocketDisconnected(es: seq<Entry>, u: UserId, s: SocketId)
    requires KeysUnique(es) && Get(es, u) == Some(s) && EntriesOf(es, s) == 1
    ensures Get(AfterDisconnect(es, s), u) == None
  {
    EntriesOfZero(es, s);
    var i := SocketIndex(es, s).value;
    var k := KeyIndex(es, u).value;
    if i < k {
      TwoEntries(es, s, i, k);
    } else if k < i {
      TwoEntries(es, s, k, i);
    }
  }

  /** The registry object: the entries of the `onlineUsers` Map. */
  class Registry {
    var entries: seq<Entry>

    ghost predicate Valid()
      reads this
    {
      KeysUnique(entries)
    }

    constructor ()
      ensures Valid() && entries == []
    {
      entries := [];
    }

    /** `onlineUsers.get(userId)`. */
    method Lookup(u: UserId) returns (r: Option<SocketId>)
      requires Valid()
      ensures r.None? <==> forall j :: 0 <= j < |entries| ==> entries[j].0 != u
      ensures forall j :: 0 <= j < |entries| && entries[j].0 == u ==> r == Some(entries[j].1)
    {
      r := Get(entries, u);
    }

    /** The registry part of the `online` handler: a falsy id changes
        nothing; otherwise the user is mapped to this socket, replacing any
        earlier one. Returns the id that was registered. */
    method Online(userId: Option<string>, sock: SocketId) returns (registered: Option<UserId>)
      requires Valid()
      modifies this
      ensures Valid()
      ensures registered.Some? <==> Truthy(userId)
      ensures registered.None? ==> entries == old(entries)
      ensures registered.Some? ==> registered == userId && entries == Set(old(entries), registered.value, sock)
      ensures registered.Some? ==> Get(entries, registered.value) == Some(sock)
    {
      if !Truthy(userId) {
        return None;
      }
      var u := userId.value;
      SetGet(entries, u, sock);
      entries := Set(entries, u, sock);
      registered := Some(u);
    }

    /** The registry part of one disconnect handler: scan the entries in
        order for the disconnecting socket, delete the first hit and stop.
        Returns the user whose entry was deleted. */
    method Disconnect(sock: SocketId) returns (removed: Option<UserId>)
      requires Valid()
      modifies this
      ensures Valid()
      ensures entries == AfterDisconnect(old(entries), sock)
      ensures removed.None? <==> SocketIndex(old(entries), sock).None?
      ensures removed.Some? ==> (removed.value, sock) in old(entries) && Get(entries, removed.value).None?
    {
      var i := 0;
      removed := None;
      while i < |entries|
        invariant 0 <= i <= |entries| && entries == old(entries)
        invariant forall j :: 0 <= j < i ==> entries[j].1 != sock
      {
        if entries[i].1 == sock {
          removed := Some(entries[i].0);
          entries := RemoveAt(entries, i);
          break;
        }
        i := i + 1;
      }
    }
  }
}
