/** The record logic of admin-server.js: the ban check a socket connection
    runs, the dashboard counters, the ban, unban, clear-reports, delete-user
    and delete-photo operations. */
module Admin {
  import opened Common
  import opened UserModel
  import Access

  /** What the connection handler does with the user named in the handshake. */
  datatype ConnectDecision =
    | Refuse(reason: string)  // emit "banned" with the reason, then disconnect
    | Admit(user: User)       // the record as saved, then the stats are sent

  /** The connection-time check as written: a banned user is refused before
      the expiry test is reached; otherwise an expiry in the past clears
      `banned` and `banExpires`. */
  function ConnectCheck(u: User, now: Time): (d: ConnectDecision)
    ensures u.banned <==> d.Refuse?
    ensures u.banned ==> d.reason == (if u.banReason.Some? && u.banReason.value != "" then u.banReason.value else "Account banned")
    ensures !u.banned && u.banExpires.Some? && now > u.banExpires.value ==>
              d == Admit(u.(banned := false, banExpires := None))
    ensures !u.banned && (u.banExpires.None? || now <= u.banExpires.value) ==> d == Admit(u)
  {
    if u.banned then
      Refuse(if u.banReason.Some? && u.banReason.value != "" then u.banReason.value else "Account banned")
    else if u.banExpires.Some? && now > u.banExpires.value then
      Admit(u.(banned := false, banExpires := None))
    else Admit(u)
  }

  /** A banned user whose ban has expired is still refused, on every
      connection: the expiry branch is only reached by users who are not
      banned. */
  lemma ExpiredBanStillRefused(u: User, now: Time)
    requires u.banned && u.banExpires.Some? && now > u.banExpires.value
    ensures ConnectCheck(u, now).Refuse?
    ensures ConnectCheck(u.(lastActive := now), now).Refuse?
  {
  }

  /** The check with the expiry tested first, as the clearing of `banned`
      evidently intends. */
  function ConnectCheckExpiryFirst(u: User, now: Time): (d: ConnectDecision)
    ensures u.banExpires.Some? && now > u.banExpires.value ==>
              d == Admit(u.(banned := false, banExpires := None))
    ensures d.Refuse? <==> u.banned && (u.banExpires.None? || now <= u.banExpires.value)
  {
    if u.banExpires.Some? && now > u.banExpires.value then
      Admit(u.(banned := false, banExpires := None))
    else ConnectCheck(u, now)
  }

  /** Under the intended order an expired ban lets the user back in, and the
      next login check passes too. */
  lemma ExpiredBanLifted(u: User, now: Time)
    requires u.banned && !u.deleted && u.banExpires.Some? && now > u.banExpires.value
    ensures ConnectCheckExpiryFirst(u, now).Admit?
    ensures var v := ConnectCheckExpiryFirst(u, now).user;
      Access.RequireLogin(Some(v.id), map[v.id := v]) == Access.Proceed
  {
  }

  /* ---------------- dashboard counters ---------------- */

  /** `countDocuments({deleted: {$ne: true}})` over the documents. */
  function TotalUsers(docs: seq<User>): (n: nat)
    ensures n <= |docs|
  {
    if docs == [] then 0 else (if !docs[0].deleted then 1 else 0) + TotalUsers(docs[1..])
  }

  /** `countDocuments({online: true, deleted: {$ne: true}})`. */
  function OnlineUsers(docs: seq<User>): (n: nat)
    ensures n <= TotalUsers(docs)
  {
    if docs == [] then 0
    else (if docs[0].online && !docs[0].deleted then 1 else 0) + OnlineUsers(docs[1..])
  }

  /** The `$size`/`$sum` aggregation over non-deleted users, with
      `totalMatchesAgg[0]?.total || 0` giving 0 for an empty collection. */
  function TotalMatches(docs: seq<User>): (n: nat)
    ensures TotalUsers(docs) == 0 ==> n == 0
  {
    if docs == [] then 0
    else (if !docs[0].deleted then |docs[0].matches| else 0) + TotalMatches(docs[1..])
  }

  /** The three counters are sums over documents, so they split over any
      division of the collection. */
  lemma {:induction false} CountersSplit(a: seq<User>, b: seq<User>)
    ensures TotalUsers(a + b) == TotalUsers(a) + TotalUsers(b)
    ensures OnlineUsers(a + b) == OnlineUsers(a) + OnlineUsers(b)
    ensures TotalMatches(a + b) == TotalMatches(a) + TotalMatches(b)
  {
    if a == [] {
      assert a + b == b;
    } else {
      assert (a + b)[1..] == a[1..] + b;
      CountersSplit(a[1..], b);
    }
  }

  /** The ids of the non-deleted documents. */
  function ActiveIds(docs: seq<User>): set<UserId> {
    set i | 0 <= i < |docs| && !docs[i].deleted :: docs[i].id
  }

  predicate DistinctIds(docs: seq<User>) {
    forall i, j :: 0 <= i < j < |docs| ==> docs[i].id != docs[j].id
  }

  lemma DistinctTail(docs: seq<User>)
    requires DistinctIds(docs) && docs != []
    ensures DistinctIds(docs[1..])
    ensures forall u :: u in docs[1..] ==> u.id != docs[0].id
  {
    var rest := docs[1..];
    forall i, j | 0 <= i < j < |rest| ensures rest[i].id != rest[j].id {
      assert rest[i] == docs[i + 1] && rest[j] == docs[j + 1];
    }
    forall u | u in rest ensures u.id != docs[0].id {
      var i :| 0 <= i < |rest| && rest[i] == u;
      assert docs[i + 1] == u;
    }
  }

  lemma ActiveIdsCons(docs: seq<User>)
    requires docs != []
    ensures ActiveIds(docs) == (if !docs[0].deleted then {docs[0].id} else {}) + ActiveIds(docs[1..])
  {
    var rest := docs[1..];
    forall x | x in ActiveIds(docs) ensures x in (if !docs[0].deleted then {docs[0].id} else {}) + ActiveIds(rest) {
      var i :| 0 <= i < |docs| && !docs[i].deleted && docs[i].id == x;
      if i > 0 {
        assert rest[i - 1] == docs[i];
      }
    }
    forall x | x in ActiveIds(rest) ensures x in ActiveIds(docs) {
      var i :| 0 <= i < |rest| && !rest[i].deleted && rest[i].id == x;
      assert docs[i + 1] == rest[i];
    }
  }

  /** `totalUsers` is the number of distinct non-deleted users. */
  lemma {:induction false} TotalUsersCountsIds(docs: seq<User>)
    requires DistinctIds(docs)
    ensures TotalUsers(docs) == |ActiveIds(docs)|
  {
    if docs != [] {
      var rest := docs[1..];
      DistinctTail(docs);
      TotalUsersCountsIds(rest);
      ActiveIdsCons(docs);
      assert docs[0].id !in ActiveIds(rest);
    }
  }

  /** Replacing one document changes `totalMatches` by exactly the change in
      that user's `matches` length while the user stays non-deleted. */
  lemma ReplaceChangesTotalMatches(docs: seq<User>, i: nat, v: User)
    requires i < |docs| && !docs[i].deleted && !v.deleted
    ensures TotalMatches(docs[i := v]) + |docs[i].matches| == TotalMatches(docs) + |v.matches|
  {
    var pre, post := docs[..i], docs[i + 1..];
    assert docs == pre + [docs[i]] + post;
    assert docs[i := v] == pre + [v] + post;
    CountersSplit(pre + [docs[i]], post);
    CountersSplit(pre, [docs[i]]);
    CountersSplit(pre + [v], post);
    CountersSplit(pre, [v]);
    assert [v][1..] == [] && [docs[i]][1..] == [];
  }

  /* ---------------- record operations ---------------- */

  /** The fields `/admin-ban/:id` sets. */
  function BanRecord(u: User): (r: User)
    ensures r.banned && r.banReason == Some("Banned by admin")
    ensures r.(banned := u.banned, banReason := u.banReason) == u
  {
    u.(banned := true, banReason := Some("Banned by admin"))
  }

  /** The fields `/admin-unban/:id` sets. */
  function UnbanRecord(u: User): (r: User)
    ensures !r.banned && r.banReason.None? && r.banExpires.None?
    ensures r.(banned := u.banned, banReason := u.banReason, banExpires := u.banExpires) == u
  {
    u.(banned := false, banReason := None, banExpires := None)
  }

  /** A banned user meets the banned page at the next request and is refused
      at the next socket connection; after an unban a non-deleted user gets
      through both. */
  lemma BanThenUnban(users: map<UserId, User>, id: UserId, now: Time)
    requires id in users && !users[id].deleted
    ensures Access.RequireLogin(Some(id), users[id := BanRecord(users[id])]) == Access.BannedPage
    ensures ConnectCheck(BanRecord(users[id]), now) == Refuse("Banned by admin")
    ensures Access.RequireLogin(Some(id), users[id := UnbanRecord(BanRecord(users[id]))]) == Access.Proceed
    ensures ConnectCheck(UnbanRecord(users[id]), now) == Admit(UnbanRecord(users[id]))
  {
  }

  /** Banning twice is banning once, and likewise for unbanning. */
  lemma BanUnbanIdempotent(u: User)
    ensures BanRecord(BanRecord(u)) == BanRecord(u)
    ensures UnbanRecord(UnbanRecord(u)) == UnbanRecord(u)
  {
  }

  /** The delete-user guard: the user must exist and must not be an admin. */
  function MayDelete(users: map<UserId, User>, id: UserId): (ok: bool)
    ensures ok <==> id in users && users[id].role != "admin"
  {
    id in users && !IsAdmin(users[id])
  }

  /** The position `Array.prototype.splice` starts at for a length and a
      relative start: negative starts count back from the end. */
  function SpliceStart(len: nat, index: int): (k: nat)
    ensures k <= len
  {
    if index < 0 then (if len + index < 0 then 0 else len + index)
    else if index > len then len else index
  }

  /** `photos.splice(index, 1)`. */
  function RemoveAtIndex<T>(s: seq<T>, index: int): (r: seq<T>)
    ensures 0 <= index < |s| ==> r == s[..index] + s[index + 1..]
    ensures index >= |s| ==> r == s
    ensures -|s| <= index < 0 ==> r == s[..|s| + index] + s[|s| + index + 1..]
    ensures index < -|s| && s != [] ==> r == s[1..]
    ensures |r| == if s == [] || index >= |s| then |s| else |s| - 1
  {
    var k := SpliceStart(|s|, index);
    if k < |s| then s[..k] + s[k + 1..] else s
  }
}
