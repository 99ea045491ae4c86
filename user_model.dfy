/** The user record of models/User.js: its sub-documents, its fields and the
    defaults a freshly created document receives. */
module UserModel {
  import opened Common

  type PhotoId = string

  /** A comment on a gallery photo. */
  datatype Comment = Comment(user: Option<UserId>, text: Option<string>, date: Time)

  /** A gallery photo: its url, the ids of the users who liked it, its comments. */
  datatype Photo = Photo(id: PhotoId, url: Option<string>, likes: seq<UserId>, comments: seq<Comment>)

  /** A stored notification; `text` is required by the schema. */
  datatype Notification = Notification(text: string, link: string, read: bool, date: Time)

  /** A report filed against a user. */
  datatype Report = Report(reportedUser: Option<UserId>, reportedBy: Option<UserId>,
                           reason: Option<string>, date: Time)

  /** A user document. The last four fields are written by the request and
      socket handlers but are not declared in the schema; they are kept here
      with the meaning the handlers give them. */
  datatype User = User(
    id: UserId,
    email: Option<string>,
    password: Option<string>,
    name: Option<string>,
    dob: Option<string>,
    gender: Option<string>,
    interestedIn: Option<string>,
    photo: Option<string>,
    photos: seq<Photo>,
    likes: seq<UserId>,
    followers: seq<UserId>,
    following: seq<UserId>,
    matches: seq<UserId>,
    notifications: seq<Notification>,
    role: string,
    banned: bool,
    verified: bool,
    deleted: bool,
    reports: seq<Report>,
    online: bool,
    lastActive: Time,
    chatUsers: seq<UserId>,
    unreadCount: nat,
    banReason: Option<string>,
    banExpires: Option<Time>)

  const DefaultRole := "user"
  const AdminRole := "admin"
  const DefaultLink := "/"

  /** The id arrays of a record hold no duplicates and never the user itself. */
  predicate WellFormed(u: User) {
    && NoDup(u.likes) && NoDup(u.matches) && NoDup(u.chatUsers)
    && u.id !in u.likes && u.id !in u.matches && u.id !in u.chatUsers
    && forall p :: p in u.photos ==> NoDup(p.likes)
  }

  /** A document as `new User({...}).save()` creates it at signup: only the
      given paths are set, every other path takes its schema default. */
  function NewUser(id: UserId, email: Option<string>, passwordHash: Option<string>, now: Time): (u: User)
    ensures u.id == id && u.email == email && u.password == passwordHash
    ensures u.likes == [] && u.followers == [] && u.following == [] && u.matches == []
    ensures u.notifications == [] && u.photos == [] && u.reports == []
    ensures u.role == "user" && !u.banned && !u.verified && !u.deleted && !u.online
    ensures u.lastActive == now && u.photo.None? && u.name.None?
    ensures !IsAdmin(u) && WellFormed(u)
  {
    User(id, email, passwordHash, None, None, None, None, None, [],
         [], [], [], [], [], DefaultRole, false, false, false, [], false, now,
         [], 0, None, None)
  }

  /** A notification with only its required `text` given. */
  function NewNotification(text: string, now: Time): (n: Notification)
    ensures n.text == text && n.link == "/" && !n.read && n.date == now
  {
    Notification(text, DefaultLink, false, now)
  }

  /** A gallery photo as the upload route pushes it: no likes, no comments. */
  function NewPhoto(id: PhotoId, url: string): (p: Photo)
    ensures p.id == id && p.url == Some(url) && p.likes == [] && p.comments == []
  {
    Photo(id, Some(url), [], [])
  }

  predicate IsAdmin(u: User) {
    u.role == AdminRole
  }
}
