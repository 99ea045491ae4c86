/** What the discover page and the messages dashboard of server.js compute
    from the stored records before rendering them. */
module Views {
  import opened Common
  import opened UserModel
  import opened Chat
  import Matching

  /** A discover candidate: someone other than the viewer, with a profile
      photo, whom the viewer has not liked yet. */
  predicate Candidate(me: User, u: User) {
    u.id != me.id && u.photo.Some? && u.id !in me.likes
  }

  /** The discover page's candidates, in the order the query returns the
      users. */
  function Discover(me: User, users: seq<User>): (r: seq<User>)
    ensures forall u :: u in r <==> u in users && Candidate(me, u)
    ensures |r| <= |users|
  {
    if users == [] then []
    else (if Candidate(me, users[0]) then [users[0]] else []) + Discover(me, users[1..])
  }

  /** The candidates keep the order of the query: filtering two runs of
      users one after the other gives the two filtered runs in that order. */
  lemma {:induction false} DiscoverConcat(me: User, a: seq<User>, b: seq<User>)
    ensures Discover(me, a + b) == Discover(me, a) + Discover(me, b)
  {
    if a == [] {
      assert a + b == b;
    } else {
      assert (a + b)[1..] == a[1..] + b;
      DiscoverConcat(me, a[1..], b);
    }
  }

  /** Once the viewer has liked someone, that user drops out of the
      viewer's candidates and nobody else does. */
  lemma DiscoverAfterLike(users: Matching.Users, liker: UserId, liked: UserId, now: Time, shown: seq<User>)
    requires liker in users && liker != liked && liked in users
    ensures var me := Matching.Like(users, liker, liked, now).users[liker];
      forall u :: u in Discover(me, shown) <==> u in Discover(users[liker], shown) && u.id != liked
  {
  }

  /** A conversation of the viewer already includes this user. */
  predicate HasConvo(convos: seq<Conversation>, uid: UserId) {
    exists c :: c in convos && uid in c.participants
  }

  /** `Conversation.find({participants: me})`: the viewer's conversations. */
  function ConversationsOf(cs: seq<Conversation>, me: UserId): (r: seq<Conversation>)
    ensures forall c :: c in r <==> c in cs && me in c.participants
  {
    if cs == [] then []
    else (if me in cs[0].participants then [cs[0]] else []) + ConversationsOf(cs[1..], me)
  }

  /** The users listed under the viewer's conversations on the dashboard:
      those of `chatUsers` that have no conversation and still exist, in
      `chatUsers` order. */
  function WithoutConvo(chatUsers: seq<UserId>, convos: seq<Conversation>, users: map<UserId, User>): (r: seq<User>)
    ensures |r| <= |chatUsers|
    ensures forall u :: u in r <==>
      exists k :: k in chatUsers && k in users && !HasConvo(convos, k) && u == users[k]
  {
    if chatUsers == [] then []
    else
      var init, last := chatUsers[..|chatUsers| - 1], chatUsers[|chatUsers| - 1];
      assert chatUsers == init + [last];
      WithoutConvo(init, convos, users)
        + (if last in users && !HasConvo(convos, last) then [users[last]] else [])
  }

  /** The dashboard's loop over `chatUsers`: skip users who already have a
      conversation with the viewer and users no longer stored. */
  method MatchedWithoutConvo(chatUsers: seq<UserId>, convos: seq<Conversation>, users: map<UserId, User>)
    returns (r: seq<User>)
    ensures r == WithoutConvo(chatUsers, convos, users)
  {
    r := [];
    var i := 0;
    while i < |chatUsers|
      invariant 0 <= i <= |chatUsers|
      invariant r == WithoutConvo(chatUsers[..i], convos, users)
    {
      var uid := chatUsers[i];
      var hasConvo := false;
      var j := 0;
      while j < |convos|
        invariant 0 <= j <= |convos|
        invariant hasConvo <==> exists c :: c in convos[..j] && uid in c.participants
      {
        if uid in convos[j].participants {
          hasConvo := true;
        }
        assert convos[..j + 1] == convos[..j] + [convos[j]];
        j := j + 1;
      }
      assert convos[..j] == convos;
      if !hasConvo && uid in users {
        r := r + [users[uid]];
      }
      assert chatUsers[..i + 1][..i] == chatUsers[..i];
      i := i + 1;
    }
    assert chatUsers[..i] == chatUsers;
  }

  /** Once a conversation holding the viewer and a matched user exists,
      that user is no longer listed apart from the conversations, and no one
      new is listed. */
  lemma OpenedChatNotListed(chatUsers: seq<UserId>, cs: seq<Conversation>, users: map<UserId, User>,
                            me: UserId, other: UserId, c: Conversation)
    requires forall k :: k in users ==> users[k].id == k
    requires Joins(c, me, other)
    ensures var listed := WithoutConvo(chatUsers, ConversationsOf(cs + [c], me), users);
      && (forall u :: u in listed ==> u.id != other)
      && (forall u :: u in listed ==> u in WithoutConvo(chatUsers, ConversationsOf(cs, me), users))
  {
    var before := ConversationsOf(cs, me);
    var after := ConversationsOf(cs + [c], me);
    assert c in after;
    assert HasConvo(after, other);
    forall k | HasConvo(before, k) ensures HasConvo(after, k) {
      var d :| d in before && k in d.participants;
      assert d in cs + [c];
    }
  }

  /** `sub` occurs in `text` starting at position `i`. */
  predicate OccursAt(text: string, sub: string, i: int) {
    0 <= i && i + |sub| <= |text| && text[i..i + |sub|] == sub
  }

  lemma OccursAtTail(text: string, sub: string, i: int)
    requires 1 <= i && |text| >= 1
    ensures OccursAt(text, sub, i) <==> OccursAt(text[1..], sub, i - 1)
  {
    if i + |sub| <= |text| {
      var x, y := text[i..i + |sub|], text[1..][i - 1..i - 1 + |sub|];
      assert |x| == |y|;
      forall k | 0 <= k < |x| ensures x[k] == y[k] {
        assert x[k] == text[i + k] && y[k] == text[1..][i - 1 + k];
      }
      assert x == y;
    }
  }

  /** `text.includes(sub)`. */
  function Includes(text: string, sub: string): (r: bool)
    ensures r <==> exists i :: OccursAt(text, sub, i)
    decreases |text|
  {
    if |text| < |sub| then
      assert forall i :: !OccursAt(text, sub, i);
      false
    else if text[..|sub|] == sub then
      assert OccursAt(text, sub, 0);
      true
    else
      var r := Includes(text[1..], sub);
      assert r ==> exists i :: OccursAt(text, sub, i) by {
        if r {
          var k :| OccursAt(text[1..], sub, k);
          OccursAtTail(text, sub, k + 1);
        }
      }
      assert !r ==> forall i :: !OccursAt(text, sub, i) by {
        if !r {
          forall i | OccursAt(text, sub, i) ensures false {
            assert i != 0;
            OccursAtTail(text, sub, i);
          }
        }
      }
      r
  }

  /** The stored message a conversation's `lastMessage` points at, as
      `populate` resolves it; a dangling id resolves to nothing. */
  function FindMessage(ms: seq<Message>, id: MessageId): (r: Option<Message>)
    ensures r.Some? ==> r.value in ms && r.value.id == id
    ensures r.None? <==> forall m :: m in ms ==> m.id != id
  {
    if ms == [] then None
    else if ms[0].id == id then Some(ms[0])
    else FindMessage(ms[1..], id)
  }

  const NoMessages: string := "No messages yet"
  const ImagePreview: string := "\U{1F4F7} Image"
  const ImageTag: string := "<img"

  /** The dashboard's preview line for a conversation. */
  function Preview(c: Conversation, ms: seq<Message>): (r: string)
    ensures c.lastMessage.None? ==> r == NoMessages
    ensures c.lastMessage.Some? && FindMessage(ms, c.lastMessage.value).None? ==> r == NoMessages
    ensures c.lastMessage.Some? && FindMessage(ms, c.lastMessage.value).Some? ==>
      var text := FindMessage(ms, c.lastMessage.value).value.text;
      r == if Includes(text, ImageTag) then ImagePreview else text
  {
    match c.lastMessage
    case None => NoMessages
    case Some(id) =>
      match FindMessage(ms, id)
      case None => NoMessages
      case Some(m) => if Includes(m.text, ImageTag) then ImagePreview else m.text
  }

  /** With fresh ids, the message just sent is the one previewed: an image
      snippet shows as the image label and any other text as itself. */
  lemma PreviewAfterSend(cs: seq<Conversation>, ms: seq<Message>, m: Message, i: nat, now: Time)
    requires i < |cs| && cs[i].id == m.conversation
    requires forall x :: x in ms ==> x.id != m.id
    ensures var c := SetLastMessage(cs, m.conversation, m.id, now)[i];
      Preview(c, ms + [m]) == if Includes(m.text, ImageTag) then ImagePreview else m.text
  {
    assert FindMessage(ms + [m], m.id).Some?;
  }

  /** Deleting the message a conversation points at leaves its preview at
      "No messages yet", even when older messages remain, because the
      delete handler does not move `lastMessage`. */
  lemma PreviewAfterDelete(c: Conversation, ms: seq<Message>)
    requires c.lastMessage.Some?
    ensures Preview(c, RemoveMessage(ms, c.lastMessage.value)) == NoMessages
  {
  }

  /** The other participant shown for a conversation, if there is one. */
  function OtherParticipant(ps: seq<UserId>, me: UserId): (r: Option<UserId>)
    ensures r.Some? ==> r.value in ps && r.value != me
    ensures r.Some? ==> exists i :: 0 <= i < |ps| && ps[i] == r.value && forall j :: 0 <= j < i ==> ps[j] == me
    ensures r.None? <==> forall p :: p in ps ==> p == me
  {
    if ps == [] then None
    else if ps[0] != me then Some(ps[0])
    else
      assert forall p :: p in ps ==> p == ps[0] || p in ps[1..];
      var r := OtherParticipant(ps[1..], me);
      assert r.Some? ==> exists i :: 0 <= i < |ps| && ps[i] == r.value && forall j :: 0 <= j < i ==> ps[j] == me by {
        if r.Some? {
          var i :| 0 <= i < |ps[1..]| && ps[1..][i] == r.value && forall j :: 0 <= j < i ==> ps[1..][j] == me;
          assert ps[i + 1] == r.value;
          assert forall j :: 0 <= j < i + 1 ==> ps[j] == me by {
            forall j | 0 <= j < i + 1 ensures ps[j] == me {
              if j > 0 { assert ps[j] == ps[1..][j - 1]; }
            }
          }
        }
      }
      r
  }
}
