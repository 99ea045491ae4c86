/** The `/like/:id` route of server.js: record a like, notify the target, and
    record a match in both users when the like is reciprocated. Each call is
    one sequential step over the user collection, keyed by user id. */
module Matching {
  import opened Common
  import opened UserModel

  type Users = map<UserId, User>

  /** Every record is stored under its own id. */
  predicate StoredUnderId(users: Users) {
    forall k :: k in users ==> users[k].id == k
  }

  datatype LikeOutcome = LikeOutcome(users: Users, matched: bool)

  /** The durable notification a like leaves in the target's record; the
      text interpolates the liker's name, which renders as "undefined" when
      the liker never set one. */
  function LikeNotification(likerName: Option<string>, now: Time): (n: Notification)
    ensures !n.read && n.link == "/discover" && n.date == now
  {
    Notification(JsText(likerName) + " liked you!", "/discover", false, now)
  }

  /** The liker's record after the route: the target pushed into `likes`
      unless already there, and on a match into `matches` and `chatUsers`
      unless already there. */
  function LikerAfter(me: User, liked: UserId, matched: bool): (r: User)
    ensures r.likes == PushUnique(me.likes, liked)
    ensures matched ==> r.matches == PushUnique(me.matches, liked) && r.chatUsers == PushUnique(me.chatUsers, liked)
    ensures !matched ==> r.matches == me.matches && r.chatUsers == me.chatUsers
    ensures r.(likes := me.likes, matches := me.matches, chatUsers := me.chatUsers) == me
    ensures r.id == me.id && r.name == me.name
  {
    me.(likes := PushUnique(me.likes, liked),
        matches := if matched then PushUnique(me.matches, liked) else me.matches,
        chatUsers := if matched then PushUnique(me.chatUsers, liked) else me.chatUsers)
  }

  /** The target's record after the route: the notification appended, and on
      a match the liker pushed into `matches` and `chatUsers` unless already
      there. */
  function TargetAfter(target: User, liker: UserId, note: Notification, matched: bool): (r: User)
    ensures r.notifications == target.notifications + [note]
    ensures r.likes == target.likes
    ensures matched ==> r.matches == PushUnique(target.matches, liker) && r.chatUsers == PushUnique(target.chatUsers, liker)
    ensures !matched ==> r.matches == target.matches && r.chatUsers == target.chatUsers
    ensures r.(notifications := target.notifications, matches := target.matches, chatUsers := target.chatUsers) == target
    ensures r.id == target.id
  {
    target.(notifications := target.notifications + [note],
            matches := if matched then PushUnique(target.matches, liker) else target.matches,
            chatUsers := if matched then PushUnique(target.chatUsers, liker) else target.chatUsers)
  }

  /** One call of the like route by the logged-in `liker` on `liked`. The
      reciprocity test reads the target's `likes` as loaded, and the liker's
      own record is never the target's. */
  function Like(users: Users, liker: UserId, liked: UserId, now: Time): (o: LikeOutcome)
    requires liker in users && liker != liked
    ensures o.users.Keys == users.Keys
    ensures forall k :: k in users && k != liker && k != liked ==> o.users[k] == users[k]
  {
    if liked !in users then LikeOutcome(users, false)
    else
      var matched := liker in users[liked].likes;
      var note := LikeNotification(users[liker].name, now);
      LikeOutcome(users[liker := LikerAfter(users[liker], liked, matched)]
                       [liked := TargetAfter(users[liked], liker, note, matched)],
                  matched)
  }

  /** Liking a user that does not exist answers `{match: false}` and changes
      nothing. */
  lemma LikeMissingTarget(users: Users, liker: UserId, liked: UserId, now: Time)
    requires liker in users && liker != liked && liked !in users
    ensures Like(users, liker, liked, now) == LikeOutcome(users, false)
  {
  }

  /** The liker's `likes` contains the target afterwards, exactly once, and
      nothing else was added to it. */
  lemma LikeRecordsTarget(users: Users, liker: UserId, liked: UserId, now: Time)
    requires liker in users && liker != liked && liked in users
    requires NoDup(users[liker].likes)
    ensures var likes := Like(users, liker, liked, now).users[liker].likes;
      && Occurrences(likes, liked) == 1 && NoDup(likes)
      && forall v :: v in likes <==> v in users[liker].likes || v == liked
  {
    PushUniqueOnce(users[liker].likes, liked);
  }

  /** Every call on an existing target, a repeated one included, appends
      exactly one unread notification linking to the discover page. */
  lemma LikeNotifiesTarget(users: Users, liker: UserId, liked: UserId, now: Time)
    requires liker in users && liker != liked && liked in users
    ensures var ns := Like(users, liker, liked, now).users[liked].notifications;
      && |ns| == |users[liked].notifications| + 1
      && ns[..|users[liked].notifications|] == users[liked].notifications
      && !ns[|ns| - 1].read && ns[|ns| - 1].link == "/discover"
  {
    var ns := Like(users, liker, liked, now).users[liked].notifications;
    assert ns == users[liked].notifications + [LikeNotification(users[liker].name, now)];
  }

  /** The route answers `{match: true}` exactly when the target already
      liked the liker. */
  lemma LikeMatchIff(users: Users, liker: UserId, liked: UserId, now: Time)
    requires liker in users && liker != liked
    ensures Like(users, liker, liked, now).matched <==> liked in users && liker in users[liked].likes
  {
  }

  /** On a match each user's id is in the other's `matches` and `chatUsers`
      exactly once, whatever those held before (provided they were free of
      duplicates); without a match neither array of either user changes. */
  lemma LikeMatchSymmetric(users: Users, liker: UserId, liked: UserId, now: Time)
    requires liker in users && liker != liked && liked in users
    requires WellFormed(users[liker]) && WellFormed(users[liked])
    ensures var o := Like(users, liker, liked, now);
      if o.matched then
        && Occurrences(o.users[liker].matches, liked) == 1
        && Occurrences(o.users[liked].matches, liker) == 1
        && Occurrences(o.users[liker].chatUsers, liked) == 1
        && Occurrences(o.users[liked].chatUsers, liker) == 1
      else
        && o.users[liker].matches == users[liker].matches
        && o.users[liked].matches == users[liked].matches
        && o.users[liker].chatUsers == users[liker].chatUsers
        && o.users[liked].chatUsers == users[liked].chatUsers
  {
    var me, target := users[liker], users[liked];
    if liker in target.likes {
      PushUniqueOnce(me.matches, liked);
      PushUniqueOnce(target.matches, liker);
      PushUniqueOnce(me.chatUsers, liked);
      PushUniqueOnce(target.chatUsers, liker);
    }
  }

  /** A like keeps every record well formed. */
  lemma LikePreservesWellFormed(users: Users, liker: UserId, liked: UserId, now: Time)
    requires liker in users && liker != liked && StoredUnderId(users)
    requires forall k :: k in users ==> WellFormed(users[k])
    ensures var o := Like(users, liker, liked, now);
      StoredUnderId(o.users) && forall k :: k in o.users ==> WellFormed(o.users[k])
  {
  }

  /** A user lists another in `matches` only if that user exists, lists
      them back, and the two like each other. */
  ghost predicate MatchListsMutual(users: Users) {
    forall a, b :: a in users && b in users[a].matches ==>
      b in users && a in users[b].matches && b in users[a].likes && a in users[b].likes
  }

  /** A user lists another in `chatUsers` only if that user exists and lists
      them back. */
  ghost predicate ChatListsMutual(users: Users) {
    forall a, b :: a in users && b in users[a].chatUsers ==> b in users && a in users[b].chatUsers
  }

  /** The match relation of the collection is mutual. */
  ghost predicate MatchesMutual(users: Users) {
    MatchListsMutual(users) && ChatListsMutual(users)
  }

  /** What a like adds to the arrays: nothing is ever removed, the target
      joins the liker's likes, and the only new `matches` and `chatUsers`
      entries are the pair of a match. */
  lemma LikeGrows(users: Users, liker: UserId, liked: UserId, now: Time)
    requires liker in users && liker != liked && liked in users
    ensures var o := Like(users, liker, liked, now);
      && (forall x, v :: x in users && v in users[x].likes ==> v in o.users[x].likes)
      && (forall x, v :: x in users && v in users[x].matches ==> v in o.users[x].matches)
      && (forall x, v :: x in users && v in users[x].chatUsers ==> v in o.users[x].chatUsers)
      && liked in o.users[liker].likes
      && o.users[liked].likes == users[liked].likes
      && (forall x, v :: x in o.users && v in o.users[x].matches ==>
            v in users[x].matches || (o.matched && ((x == liker && v == liked) || (x == liked && v == liker))))
      && (forall x, v :: x in o.users && v in o.users[x].chatUsers ==>
            v in users[x].chatUsers || (o.matched && ((x == liker && v == liked) || (x == liked && v == liker))))
  {
  }

  /** A like keeps the `matches` lists mutual. */
  lemma LikeKeepsMatchListsMutual(users: Users, liker: UserId, liked: UserId, now: Time)
    requires liker in users && liker != liked && liked in users && MatchListsMutual(users)
    ensures MatchListsMutual(Like(users, liker, liked, now).users)
  {
    var o := Like(users, liker, liked, now);
    LikeGrows(users, liker, liked, now);
    forall a, b | a in o.users && b in o.users[a].matches
      ensures b in o.users && a in o.users[b].matches && b in o.users[a].likes && a in o.users[b].likes
    {
      if b in users[a].matches {
        assert b in users && a in users[b].matches && b in users[a].likes && a in users[b].likes;
      } else {
        assert o.matched && liker in users[liked].likes;
      }
    }
  }

  /** A like keeps the `chatUsers` lists mutual. */
  lemma LikeKeepsChatListsMutual(users: Users, liker: UserId, liked: UserId, now: Time)
    requires liker in users && liker != liked && liked in users && ChatListsMutual(users)
    ensures ChatListsMutual(Like(users, liker, liked, now).users)
  {
    var o := Like(users, liker, liked, now);
    LikeGrows(users, liker, liked, now);
    forall a, b | a in o.users && b in o.users[a].chatUsers
      ensures b in o.users && a in o.users[b].chatUsers
    {
      if b in users[a].chatUsers {
        assert b in users && a in users[b].chatUsers;
      }
    }
  }

  /** A like never breaks the mutuality of matches. */
  lemma LikePreservesMutualMatches(users: Users, liker: UserId, liked: UserId, now: Time)
    requires liker in users && liker != liked && MatchesMutual(users)
    ensures MatchesMutual(Like(users, liker, liked, now).users)
  {
    if liked in users {
      LikeKeepsMatchListsMutual(users, liker, liked, now);
      LikeKeepsChatListsMutual(users, liker, liked, now);
    }
  }

  /** The liker's record is a fixed point of a second identical update. */
  lemma LikerAfterReplay(me: User, liked: UserId, matched: bool)
    ensures LikerAfter(LikerAfter(me, liked, matched), liked, matched) == LikerAfter(me, liked, matched)
  {
    PushUniqueIdempotent(me.likes, liked);
    PushUniqueIdempotent(me.matches, liked);
    PushUniqueIdempotent(me.chatUsers, liked);
  }

  /** A second identical update of the target only appends the notification. */
  lemma TargetAfterReplay(target: User, liker: UserId, n1: Notification, n2: Notification, matched: bool)
    ensures var t1 := TargetAfter(target, liker, n1, matched);
      TargetAfter(t1, liker, n2, matched) == t1.(notifications := t1.notifications + [n2])
  {
    PushUniqueIdempotent(target.matches, liker);
    PushUniqueIdempotent(target.chatUsers, liker);
  }

  /** The two records a like on an existing target rewrites. */
  lemma LikeRecords(users: Users, liker: UserId, liked: UserId, now: Time)
    requires liker in users && liker != liked && liked in users
    ensures var o := Like(users, liker, liked, now);
      var matched := liker in users[liked].likes;
      && o.matched == matched
      && o.users[liker] == LikerAfter(users[liker], liked, matched)
      && o.users[liked] == TargetAfter(users[liked], liker, LikeNotification(users[liker].name, now), matched)
  {
  }

  /** Replaying a like gives the same answer and changes no `likes`,
      `matches` or `chatUsers` array: its only effect is one more
      notification for the target. */
  lemma LikeReplay(users: Users, liker: UserId, liked: UserId, now: Time, later: Time)
    requires liker in users && liker != liked
    ensures var o1 := Like(users, liker, liked, now);
      var o2 := Like(o1.users, liker, liked, later);
      && o2.matched == o1.matched
      && (liked !in users ==> o2 == o1)
      && o2.users.Keys == o1.users.Keys
      && (forall k :: k in o1.users && k != liked ==> o2.users[k] == o1.users[k])
      && (liked in users ==>
            o2.users[liked] == o1.users[liked].(notifications := o1.users[liked].notifications
                                                 + [LikeNotification(users[liker].name, later)]))
  {
    if liked in users {
      var o1 := Like(users, liker, liked, now);
      var matched := liker in users[liked].likes;
      var n1 := LikeNotification(users[liker].name, now);
      LikeRecords(users, liker, liked, now);
      LikeRecords(o1.users, liker, liked, later);
      LikerAfterReplay(users[liker], liked, matched);
      TargetAfterReplay(users[liked], liker, n1, LikeNotification(users[liker].name, later), matched);
    }
  }

  /** The scenario of two users: u1 likes u2, who has not liked u1, and gets
      no match; u2 then likes u1 and gets one, after which each lists the
      other in `matches` and in `chatUsers` exactly once. */
  lemma MutualLikeScenario(users: Users, u1: UserId, u2: UserId, t1: Time, t2: Time)
    requires u1 in users && u2 in users && u1 != u2 && StoredUnderId(users)
    requires WellFormed(users[u1]) && WellFormed(users[u2])
    requires u1 !in users[u2].likes
    ensures var first := Like(users, u1, u2, t1);
      var second := Like(first.users, u2, u1, t2);
      && !first.matched && second.matched
      && Occurrences(second.users[u1].matches, u2) == 1
      && Occurrences(second.users[u2].matches, u1) == 1
      && Occurrences(second.users[u1].chatUsers, u2) == 1
      && Occurrences(second.users[u2].chatUsers, u1) == 1
  {
    var first := Like(users, u1, u2, t1);
    LikeMatchSymmetric(users, u1, u2, t1);
    assert first.users[u1].likes == PushUnique(users[u1].likes, u2);
    assert WellFormed(first.users[u1]) && WellFormed(first.users[u2]);
    LikeMatchSymmetric(first.users, u2, u1, t2);
  }
}
