/** The user collection as the request handlers of server.js and
    admin-server.js update it: each route loads a record, changes fields or
    arrays in place and saves it. */
module UserStore {
  import opened Common
  import opened UserModel
  import opened Matching
  import Admin

  /** The notifications page's `u.notifications.forEach(n => (n.read = true))`. */
  method MarkAllRead(ns: seq<Notification>) returns (r: seq<Notification>)
    ensures |r| == |ns|
    ensures forall n :: n in r ==> n.read
    ensures forall i :: 0 <= i < |ns| ==> r[i] == ns[i].(read := true)
  {
    r := ns;
    var i := 0;
    while i < |r|
      invariant 0 <= i <= |r| == |ns|
      invariant forall j :: 0 <= j < i ==> r[j] == ns[j].(read := true)
      invariant forall j :: i <= j < |r| ==> r[j] == ns[j]
    {
      r := r[i := r[i].(read := true)];
      i := i + 1;
    }
  }

  /** `user.photos.id(photoId)`: the first photo with that id. */
  function PhotoIndex(photos: seq<Photo>, pid: PhotoId): (r: Option<nat>)
    ensures r.Some? ==> r.value < |photos| && photos[r.value].id == pid
    ensures r.Some? ==> forall j :: 0 <= j < r.value ==> photos[j].id != pid
    ensures r.None? ==> forall j :: 0 <= j < |photos| ==> photos[j].id != pid
  {
    if photos == [] then None
    else if photos[0].id == pid then Some(0)
    else match PhotoIndex(photos[1..], pid)
      case None => None
      case Some(i) => Some(i + 1)
  }

  /** The photo at position `i` with `liker` pushed into its likes unless
      already there; the other photos are untouched. */
  function LikePhotoAt(photos: seq<Photo>, i: nat, liker: UserId): (r: seq<Photo>)
    requires i < |photos|
    ensures |r| == |photos| && r[i].id == photos[i].id && r[i].url == photos[i].url
    ensures r[i].comments == photos[i].comments
    ensures r[i].likes == PushUnique(photos[i].likes, liker)
    ensures forall j :: 0 <= j < |photos| && j != i ==> r[j] == photos[j]
  {
    photos[i := photos[i].(likes := PushUnique(photos[i].likes, liker))]
  }

  /** A second like of the same photo by the same user changes nothing. */
  lemma LikePhotoTwice(photos: seq<Photo>, i: nat, liker: UserId)
    requires i < |photos|
    ensures LikePhotoAt(LikePhotoAt(photos, i, liker), i, liker) == LikePhotoAt(photos, i, liker)
  {
    PushUniqueIdempotent(photos[i].likes, liker);
  }

  /** Writing two different keys twice leaves the second writes. */
  lemma MapRewrite<K, V>(m: map<K, V>, a: K, b: K, x: V, y: V, x': V, y': V)
    requires a != b
    ensures m[a := x][b := y][a := x'][b := y'] == m[a := x'][b := y']
  {
  }

  /** Signup's `User.findOne({email})` finds nobody. */
  predicate EmailFree(users: map<UserId, User>, email: Option<string>) {
    forall k :: k in users ==> users[k].email != email
  }

  /** No two stored users share an email. */
  predicate EmailsUnique(users: map<UserId, User>) {
    forall a, b :: a in users && b in users && a != b ==> users[a].email != users[b].email
  }

  /** A signup that passed the email check keeps emails unique, and a
      second signup with the same email is refused. */
  lemma SignupKeepsEmailsUnique(users: map<UserId, User>, id: UserId, email: Option<string>,
                                passwordHash: Option<string>, now: Time)
    requires EmailsUnique(users) && EmailFree(users, email) && id !in users
    ensures var after := users[id := NewUser(id, email, passwordHash, now)];
      EmailsUnique(after) && !EmailFree(after, email)
  {
    var after := users[id := NewUser(id, email, passwordHash, now)];
    assert after[id].email == email;
  }

  class Store {
    var users: map<UserId, User>

    ghost predicate Valid()
      reads this
    {
      StoredUnderId(users) && forall k :: k in users ==> WellFormed(users[k])
    }

    constructor ()
      ensures Valid() && users == map[]
    {
      users := map[];
    }

    /** Signup's `new User({...}).save()` for an unused id. */
    method Create(id: UserId, email: Option<string>, passwordHash: Option<string>, now: Time)
      returns (created: bool)
      requires Valid() && id !in users
      modifies this
      ensures Valid()
      ensures created <==> EmailFree(old(users), email)
      ensures created ==> users == old(users)[id := NewUser(id, email, passwordHash, now)]
      ensures !created ==> users == old(users)
    {
      if exists k :: k in users && users[k].email == email {
        return false;
      }
      users := users[id := NewUser(id, email, passwordHash, now)];
      created := true;
    }

    /** The like route's first save: the target pushed into the liker's
        likes unless already there. */
    method SaveLike(liker: UserId, liked: UserId)
      requires Valid() && liker in users && liker != liked
      modifies this
      ensures Valid()
      ensures users == old(users)[liker := old(users)[liker].(likes := PushUnique(old(users)[liker].likes, liked))]
    {
      var me := users[liker];
      if liked !in me.likes {
        users := users[liker := me.(likes := me.likes + [liked])];
      }
    }

    /** The like route's second save: the notification pushed to the target. */
    method SaveNotification(liked: UserId, note: Notification)
      requires Valid() && liked in users
      modifies this
      ensures Valid()
      ensures users == old(users)[liked := old(users)[liked].(notifications := old(users)[liked].notifications + [note])]
    {
      var target := users[liked];
      users := users[liked := target.(notifications := target.notifications + [note])];
    }

    /** The like route's saves on a match: each pushed into the other's
        matches and chat users unless already there. */
    method SaveMatch(liker: UserId, liked: UserId)
      requires Valid() && liker in users && liked in users && liker != liked
      modifies this
      ensures Valid()
      ensures users == old(users)
        [liker := old(users)[liker].(matches := PushUnique(old(users)[liker].matches, liked),
                                     chatUsers := PushUnique(old(users)[liker].chatUsers, liked))]
        [liked := old(users)[liked].(matches := PushUnique(old(users)[liked].matches, liker),
                                     chatUsers := PushUnique(old(users)[liked].chatUsers, liker))]
    {
      var me, target := users[liker], users[liked];
      // each guarded push is `if (!xs.some(...)) xs.push(...)`
      var myMatches := PushUnique(me.matches, liked);
      var theirMatches := PushUnique(target.matches, liker);
      var myChats := PushUnique(me.chatUsers, liked);
      var theirChats := PushUnique(target.chatUsers, liker);
      users := users[liker := me.(matches := myMatches, chatUsers := myChats)]
                    [liked := target.(matches := theirMatches, chatUsers := theirChats)];
    }

    /** `/like/:id`: push the target into the liker's likes unless already
        there, push a like notification to the target, and on reciprocity
        push each into the other's matches and chat users unless already
        there. Answers whether it was a match. */
    method Like(liker: UserId, liked: UserId, now: Time) returns (matched: bool)
      requires Valid() && liker in users && liker != liked
      modifies this
      ensures Valid()
      ensures LikeOutcome(users, matched) == Matching.Like(old(users), liker, liked, now)
    {
      if liked !in users {
        return false;
      }
      ghost var before := users;
      var me, likedUser := users[liker], users[liked];
      var note := LikeNotification(me.name, now);
      SaveLike(liker, liked);
      SaveNotification(liked, note);
      ghost var me1, target1 := me.(likes := PushUnique(me.likes, liked)),
                                likedUser.(notifications := likedUser.notifications + [note]);
      assert users == before[liker := me1][liked := target1];
      // reciprocity against the target's likes as loaded
      matched := liker in likedUser.likes;
      if matched {
        SaveMatch(liker, liked);
        MapRewrite(before, liker, liked, me1, target1,
                   LikerAfter(me, liked, true), TargetAfter(likedUser, liker, note, true));
      }
      assert users == before[liker := LikerAfter(me, liked, matched)][liked := TargetAfter(likedUser, liker, note, matched)];
    }

    /** The presence update of the `online` and disconnect handlers:
        `findByIdAndUpdate(userId, {online, lastActive})`; an unknown id
        updates nothing. */
    method SetPresence(id: UserId, online: bool, now: Time)
      requires Valid()
      modifies this
      ensures Valid()
      ensures id in old(users) ==> users == old(users)[id := old(users)[id].(online := online, lastActive := now)]
      ensures id !in old(users) ==> users == old(users)
    {
      if id in users {
        users := users[id := users[id].(online := online, lastActive := now)];
      }
    }

    /** `joinRoom`'s `findByIdAndUpdate(userId, {unreadCount: 0})`, run only
        for a truthy user id. */
    method ResetUnread(userId: Option<UserId>)
      requires Valid()
      modifies this
      ensures Valid()
      ensures userId.Some? && userId.value != "" && userId.value in old(users) ==>
                users == old(users)[userId.value := old(users)[userId.value].(unreadCount := 0)]
      ensures !(userId.Some? && userId.value != "" && userId.value in old(users)) ==> users == old(users)
    {
      if userId.Some? && userId.value != "" && userId.value in users {
        users := users[userId.value := users[userId.value].(unreadCount := 0)];
      }
    }

    /** `sendMessage`'s `$inc: {unreadCount: 1}` on the receiver. */
    method IncrementUnread(receiver: UserId)
      requires Valid()
      modifies this
      ensures Valid()
      ensures receiver in old(users) ==>
                users == old(users)[receiver := old(users)[receiver].(unreadCount := old(users)[receiver].unreadCount + 1)]
      ensures receiver !in old(users) ==> users == old(users)
    {
      if receiver in users {
        users := users[receiver := users[receiver].(unreadCount := users[receiver].unreadCount + 1)];
      }
    }

    /** The notifications page marks every notification of the logged-in
        user read. */
    method OpenNotifications(id: UserId)
      requires Valid() && id in users
      modifies this
      ensures Valid()
      ensures id in users && users.Keys == old(users).Keys
      ensures forall k :: k in users && k != id ==> users[k] == old(users)[k]
      ensures users[id] == old(users)[id].(notifications := users[id].notifications)
      ensures |users[id].notifications| == |old(users)[id].notifications|
      ensures forall i :: 0 <= i < |users[id].notifications| ==>
                users[id].notifications[i] == old(users)[id].notifications[i].(read := true)
    {
      var u := users[id];
      var ns := MarkAllRead(u.notifications);
      users := users[id := u.(notifications := ns)];
    }

    /** `/photo/like/:userId/:photoId`. A missing owner or photo makes the
        handler throw before anything is saved; `ok` is false then. */
    method LikePhoto(owner: UserId, pid: PhotoId, liker: UserId) returns (ok: bool)
      requires Valid()
      modifies this
      ensures Valid()
      ensures ok <==> owner in old(users) && PhotoIndex(old(users)[owner].photos, pid).Some?
      ensures !ok ==> users == old(users)
      ensures ok ==> var u := old(users)[owner];
        users == old(users)[owner := u.(photos := LikePhotoAt(u.photos, PhotoIndex(u.photos, pid).value, liker))]
    {
      if owner !in users {
        return false;
      }
      var user := users[owner];
      var idx := PhotoIndex(user.photos, pid);
      if idx.None? {
        return false;
      }
      var photo := user.photos[idx.value];
      ghost var liked := LikePhotoAt(user.photos, idx.value, liker);
      if liker !in photo.likes {
        photo := photo.(likes := photo.likes + [liker]);
        assert user.photos[idx.value := photo] == liked;
        assert WellFormed(user.(photos := liked)) by {
          forall p | p in liked ensures NoDup(p.likes) {
            var j :| 0 <= j < |liked| && liked[j] == p;
            assert j != idx.value ==> p == user.photos[j];
          }
        }
        user := user.(photos := user.photos[idx.value := photo]);
        users := users[owner := user];
      } else {
        assert user.photos == liked;
      }
      ok := true;
    }

    /** The connection-time ban check for the handshake's user id. Answers
        the refusal reason, or nothing when the socket is admitted. */
    method AdmitConnection(authUser: Option<UserId>, now: Time) returns (refused: Option<string>)
      requires Valid()
      modifies this
      ensures Valid()
      ensures !Truthy(authUser) || authUser.value !in old(users) ==> refused.None? && users == old(users)
      ensures Truthy(authUser) && authUser.value in old(users) ==>
        match Admin.ConnectCheck(old(users)[authUser.value], now)
        case Refuse(reason) => refused == Some(reason) && users == old(users)
        case Admit(u) => refused.None? && users == old(users)[authUser.value := u]
    {
      refused := None;
      if Truthy(authUser) && authUser.value in users {
        var u := users[authUser.value];
        if u.banned {
          refused := Some(if u.banReason.Some? && u.banReason.value != "" then u.banReason.value else "Account banned");
          return;
        }
        if u.banExpires.Some? && now > u.banExpires.value {
          u := u.(banned := false, banExpires := None);
          users := users[authUser.value := u];
        }
      }
    }

    /** `/admin-ban/:id`; an unknown id updates nothing. */
    method Ban(id: UserId)
      requires Valid()
      modifies this
      ensures Valid()
      ensures id in old(users) ==> users == old(users)[id := Admin.BanRecord(old(users)[id])]
      ensures id !in old(users) ==> users == old(users)
    {
      if id in users {
        users := users[id := users[id].(banned := true, banReason := Some("Banned by admin"))];
      }
    }

    /** `/admin-unban/:id`. */
    method Unban(id: UserId)
      requires Valid()
      modifies this
      ensures Valid()
      ensures id in old(users) ==> users == old(users)[id := Admin.UnbanRecord(old(users)[id])]
      ensures id !in old(users) ==> users == old(users)
    {
      if id in users {
        users := users[id := users[id].(banned := false, banReason := None, banExpires := None)];
      }
    }

    /** `/admin-clear-reports/:id`. */
    method ClearReports(id: UserId)
      requires Valid()
      modifies this
      ensures Valid()
      ensures id in old(users) ==> users == old(users)[id := old(users)[id].(reports := [])]
      ensures id !in old(users) ==> users == old(users)
    {
      if id in users {
        users := users[id := users[id].(reports := [])];
      }
    }

    /** `/admin-delete-photo/:uid/:index`: `user.photos.splice(index, 1)`. */
    method DeletePhoto(uid: UserId, index: int)
      requires Valid()
      modifies this
      ensures Valid()
      ensures uid in old(users) ==>
                users == old(users)[uid := old(users)[uid].(photos := Admin.RemoveAtIndex(old(users)[uid].photos, index))]
      ensures uid !in old(users) ==> users == old(users)
    {
      if uid in users {
        var user := users[uid];
        var photos := Admin.RemoveAtIndex(user.photos, index);
        assert forall p :: p in photos ==> p in user.photos;
        users := users[uid := user.(photos := photos)];
      }
    }

    /** `/admin-delete-user/:id`: refuse a missing id or an admin, otherwise
        remove exactly that user. */
    method DeleteUser(id: UserId) returns (deleted: bool)
      requires Valid()
      modifies this
      ensures Valid()
      ensures deleted == Admin.MayDelete(old(users), id)
      ensures deleted ==> users == old(users) - {id}
      ensures !deleted ==> users == old(users)
    {
      if id !in users {
        return false;
      }
      if users[id].role == "admin" {
        return false;
      }
      users := users - {id};
      deleted := true;
    }
  }
}
