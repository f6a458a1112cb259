/**
 * The two document shapes of the record store, with their required fields
 * and defaults (backend/models/user.js and backend/models/tweet.js), and the
 * first-match lookups the handlers perform on them.
 */
module Models {
  import opened Common
  import Text

  type UserId = string
  type TweetId = string

  /** A user document. `joinedDate` is a clock reading passed in by the caller. */
  datatype User = User(
    id: UserId,
    username: string,
    displayName: string,
    email: string,
    password: Option<string>,
    avatar: string,
    banner: string,
    bio: string,
    location: string,
    website: string,
    joinedDate: nat,
    provider: string,
    notificationsEnabled: bool)

  /**
   * A tweet document. `image` is `None` for `null`; `likedBy` and
   * `retweetedBy` are lists of user ids, used as sets by the toggles.
   */
  datatype Tweet = Tweet(
    id: TweetId,
    author: UserId,
    content: string,
    image: Option<string>,
    likes: nat,
    retweets: nat,
    comments: nat,
    likedBy: seq<UserId>,
    retweetedBy: seq<UserId>,
    timestamp: nat)

  /** The fields a user document is created from; an absent field takes the schema default. */
  datatype UserFields = UserFields(
    username: string,
    displayName: string,
    email: string,
    password: Option<string>,
    avatar: Option<string>,
    banner: Option<string>,
    bio: Option<string>,
    location: Option<string>,
    website: Option<string>,
    provider: Option<string>,
    notificationsEnabled: Option<bool>)

  /** A list of ids holds each id at most once. */
  predicate NoDup<T(==)>(s: seq<T>) {
    forall i, j :: 0 <= i < j < |s| ==> s[i] != s[j]
  }

  /**
   * The user schema's `required` validator: `username`, `displayName` and
   * `email` hold non-empty strings.
   */
  predicate UserSchemaValid(u: User) {
    u.username != "" && u.displayName != "" && u.email != ""
  }

  /** The tweet schema's `required` validators: `author` and `content` are set. */
  predicate TweetSchemaValid(t: Tweet) {
    t.author != "" && t.content != ""
  }

  /**
   * The denormalised counters mirror their id lists, and each list holds an
   * id at most once.
   */
  predicate CountersConsistent(t: Tweet) {
    && t.likes == |t.likedBy| && t.retweets == |t.retweetedBy|
    && NoDup(t.likedBy) && NoDup(t.retweetedBy)
  }

  /**
   * `new User(fields)`: every field the caller gives is stored as given, and
   * every field it leaves absent takes its schema default (empty strings,
   * provider "local", notifications off); the password stays absent when
   * not given.
   */
  function NewUser(id: UserId, f: UserFields, now: nat): (u: User)
    ensures u.id == id && u.username == f.username && u.displayName == f.displayName
    ensures u.email == f.email && u.password == f.password && u.joinedDate == now
    ensures u.avatar == f.avatar.GetOr("") && u.banner == f.banner.GetOr("") && u.bio == f.bio.GetOr("")
    ensures u.location == f.location.GetOr("") && u.website == f.website.GetOr("")
    ensures u.provider == f.provider.GetOr("local")
    ensures u.notificationsEnabled == f.notificationsEnabled.GetOr(false)
    ensures UserSchemaValid(u) <==> f.username != "" && f.displayName != "" && f.email != ""
  {
    User(id, f.username, f.displayName, f.email, f.password,
         f.avatar.GetOr(""), f.banner.GetOr(""), f.bio.GetOr(""),
         f.location.GetOr(""), f.website.GetOr(""), now,
         f.provider.GetOr("local"), f.notificationsEnabled.GetOr(false))
  }

  /**
   * `new Tweet({author, content, image})`: the content is trimmed by the
   * schema's setter, the counters start at zero, the id lists empty, and the
   * timestamp is the creation time. Fields the schema does not declare are
   * dropped, so there is no parameter for them.
   */
  function NewTweet(id: TweetId, author: UserId, content: string, image: Option<string>, now: nat): (t: Tweet)
    ensures t.id == id && t.author == author && t.image == image && t.timestamp == now
    ensures t.content == Text.Trim(content)
    ensures t.likes == 0 && t.retweets == 0 && t.comments == 0
    ensures t.likedBy == [] && t.retweetedBy == []
    ensures CountersConsistent(t)
    ensures TweetSchemaValid(t) <==> author != "" && Text.Trim(content) != ""
  {
    Tweet(id, author, Text.Trim(content), image, 0, 0, 0, [], [], now)
  }

  /** The user fields the handlers look a user up by. */
  datatype UserKey = ById | ByEmail | ByUsername

  function KeyOf(u: User, k: UserKey): string {
    match k
    case ById => u.id
    case ByEmail => u.email
    case ByUsername => u.username
  }

  /** Some user's field `k` holds `v`. */
  predicate HasUser(users: seq<User>, k: UserKey, v: string) {
    exists j :: 0 <= j < |users| && KeyOf(users[j], k) == v
  }

  /** No two users share the value of field `k`. */
  predicate UniqueUsers(users: seq<User>, k: UserKey) {
    forall i, j :: 0 <= i < j < |users| ==> KeyOf(users[i], k) != KeyOf(users[j], k)
  }

  /**
   * `User.findById(v)`, `User.findOne({ email: v })` and
   * `User.findOne({ username: v })`: the first user whose field `k` is `v`.
   */
  function FindUser(users: seq<User>, k: UserKey, v: string): (r: Option<nat>)
    ensures r.Some? ==> r.value < |users| && KeyOf(users[r.value], k) == v
    ensures r.None? <==> !HasUser(users, k, v)
  {
    IndexWhere(users, (u: User) => KeyOf(u, k) == v)
  }

  /** `Tweet.findById(id)`. */
  function TweetWithId(tweets: seq<Tweet>, id: TweetId): (r: Option<nat>)
    ensures r.Some? ==> r.value < |tweets| && tweets[r.value].id == id
    ensures r.None? <==> forall j :: 0 <= j < |tweets| ==> tweets[j].id != id
  {
    IndexWhere(tweets, (t: Tweet) => t.id == id)
  }
}
