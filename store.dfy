/**
 * The record store and the request handlers that change it: registration
 * (backend/index.js and backend/routes/auth.js), posting a tweet (by author
 * id in backend/index.js, by e-mail in backend/routes/tweets.js) and the
 * like / retweet toggles. The read-only `loggedinuser` lookup is a function
 * of the user collection.
 */
module Backend {
  import opened Common
  import opened Models
  import opened Interaction
  import Text
  import Notification
  import Feed

  /** Body of a registration request; every field may be absent. */
  datatype RegisterBody = RegisterBody(
    username: Option<string>,
    displayName: Option<string>,
    email: Option<string>,
    password: Option<string>,
    avatar: Option<string>,
    provider: Option<string>,
    banner: Option<string>,
    bio: Option<string>,
    location: Option<string>,
    website: Option<string>)

  /** A tweet saved by `POST /api/tweet`, with the result of the keyword check. */
  datatype Posted = Posted(tweet: Tweet, keywordAlert: bool)

  predicate UniqueTweetIds(tweets: seq<Tweet>) {
    forall i, j :: 0 <= i < j < |tweets| ==> tweets[i].id != tweets[j].id
  }

  /**
   * What holds of the store between requests: ids are set, ids and e-mails are unique,
   * every document passes its schema, every tweet's author was an existing
   * user when it was posted (users are never deleted), and every tweet's
   * counters mirror its duplicate-free id lists.
   */
  predicate StoreInvariant(users: seq<User>, tweets: seq<Tweet>) {
    && UniqueUsers(users, ById) && UniqueUsers(users, ByEmail)
    && (forall i :: 0 <= i < |users| ==> users[i].id != "" && UserSchemaValid(users[i]))
    && UniqueTweetIds(tweets)
    && (forall i :: 0 <= i < |tweets| ==> StoredTweetOk(users, tweets[i]))
  }

  /** One stored tweet passes its schema, has consistent counters and an existing author. */
  predicate StoredTweetOk(users: seq<User>, t: Tweet) {
    TweetSchemaValid(t) && CountersConsistent(t) && HasUser(users, ById, t.author)
  }

  /** The user document `POST /api/register` builds from a request that passed its checks. */
  function RegisterFields(body: RegisterBody): UserFields
    requires Present(body.username) && Present(body.displayName) && Present(body.email)
  {
    UserFields(body.username.value, body.displayName.value, body.email.value,
               Some(OrElse(body.password, "")), Some(OrElse(body.avatar, "")),
               Some(""), Some(""), Some(""), Some(""),
               Some(OrElse(body.provider, if Present(body.password) then "local" else "google")),
               Some(false))
  }

  /** The user document the auth router's `/register` builds: provider and notifications take schema defaults. */
  function RouterRegisterFields(body: RegisterBody): UserFields
    requires Present(body.username) && Present(body.displayName) && Present(body.email)
  {
    UserFields(body.username.value, body.displayName.value, body.email.value,
               Some(OrElse(body.password, "")), Some(OrElse(body.avatar, "")),
               Some(OrElse(body.banner, "")), Some(OrElse(body.bio, "")),
               Some(OrElse(body.location, "")), Some(OrElse(body.website, "")),
               None, None)
  }

  /**
   * `GET /api/loggedinuser?email=`: 400 without an e-mail, 404 when no user
   * has it, otherwise 200 with the user that has it, which is the only one
   * when e-mails are unique.
   */
  function LoggedInUser(users: seq<User>, email: Option<string>): (r: Response<User>)
    ensures r.Ok? || r.BadRequest? || r.NotFound?
    ensures r.BadRequest? <==> !Present(email)
    ensures r.NotFound? <==> Present(email) && !HasUser(users, ByEmail, email.value)
    ensures r.Ok? ==> r.body in users && r.body.email == email.value
    ensures r.Ok? && UniqueUsers(users, ByEmail) ==> forall u :: u in users && u.email == email.value ==> u == r.body
  {
    if !Present(email) then BadRequest
    else match FindUser(users, ByEmail, email.value)
      case None => NotFound
      case Some(j) =>
        assert forall u :: u in users && u.email == email.value ==> UniqueUsers(users, ByEmail) ==> u == users[j] by {
          forall u | u in users && u.email == email.value && UniqueUsers(users, ByEmail) ensures u == users[j] {
            var k :| 0 <= k < |users| && users[k] == u;
            assert users[k].email == users[j].email;
          }
        }
        Ok(users[j])
  }

  /** Appending a user with a fresh id and a fresh e-mail keeps the store invariant. */
  lemma InsertUserKeepsInvariant(users: seq<User>, tweets: seq<Tweet>, u: User)
    requires StoreInvariant(users, tweets) && UserSchemaValid(u) && u.id != ""
    requires !HasUser(users, ById, u.id) && !HasUser(users, ByEmail, u.email)
    ensures StoreInvariant(users + [u], tweets)
  {
    var us := users + [u];
    assert forall i :: 0 <= i < |users| ==> us[i] == users[i];
    forall i | 0 <= i < |tweets| ensures StoredTweetOk(us, tweets[i]) {
      assert StoredTweetOk(users, tweets[i]);
      var j :| 0 <= j < |users| && users[j].id == tweets[i].author;
      assert us[j].id == tweets[i].author;
    }
    AppendUserKeepsUnique(users, u, ById);
    AppendUserKeepsUnique(users, u, ByEmail);
  }

  /** Appending a user whose field `k` no stored user shares keeps that field unique. */
  lemma AppendUserKeepsUnique(users: seq<User>, u: User, k: UserKey)
    requires UniqueUsers(users, k) && !HasUser(users, k, KeyOf(u, k))
    ensures UniqueUsers(users + [u], k)
  {
    var us := users + [u];
    forall i, j | 0 <= i < j < |us| ensures KeyOf(us[i], k) != KeyOf(us[j], k) {
      assert us[i] == users[i];
      if j < |users| {
        assert us[j] == users[j];
      }
    }
  }

  /** Appending a valid tweet with a fresh id by an existing author keeps the store invariant. */
  lemma InsertTweetKeepsInvariant(users: seq<User>, tweets: seq<Tweet>, t: Tweet)
    requires StoreInvariant(users, tweets)
    requires StoredTweetOk(users, t)
    requires forall s :: s in tweets ==> s.id != t.id
    ensures StoreInvariant(users, tweets + [t])
  {
    var ts := tweets + [t];
    forall i | 0 <= i < |ts| ensures StoredTweetOk(users, ts[i]) {
      if i < |tweets| {
        assert ts[i] == tweets[i];
      }
    }
    AppendTweetKeepsUnique(tweets, t);
  }

  /** Appending a tweet whose id no stored tweet has keeps tweet ids unique. */
  lemma AppendTweetKeepsUnique(tweets: seq<Tweet>, t: Tweet)
    requires UniqueTweetIds(tweets)
    requires forall s :: s in tweets ==> s.id != t.id
    ensures UniqueTweetIds(tweets + [t])
  {
    var ts := tweets + [t];
    forall i, j | 0 <= i < j < |ts| ensures ts[i].id != ts[j].id {
      assert ts[i] == tweets[i];
      if j == |tweets| {
        assert tweets[i] in tweets;
      } else {
        assert ts[j] == tweets[j];
      }
    }
  }

  /** Replacing a tweet by one with the same id, author and content and consistent counters keeps the invariant. */
  lemma UpdateTweetKeepsInvariant(users: seq<User>, tweets: seq<Tweet>, i: nat, t: Tweet)
    requires StoreInvariant(users, tweets) && i < |tweets|
    requires t.id == tweets[i].id && t.author == tweets[i].author && t.content == tweets[i].content
    requires CountersConsistent(t)
    ensures StoreInvariant(users, tweets[i := t])
  {
    var ts := tweets[i := t];
    assert StoredTweetOk(users, tweets[i]);
    forall k | 0 <= k < |ts| ensures ts[k].id == tweets[k].id && StoredTweetOk(users, ts[k]) {
      if k != i {
        assert ts[k] == tweets[k];
      }
    }
  }

  /** Under the invariant, looking up the author of a stored tweet finds the user. */
  lemma UniqueIdLookup(users: seq<User>, u: User)
    requires UniqueUsers(users, ById) && u in users
    ensures FindUser(users, ById, u.id).Some? && users[FindUser(users, ById, u.id).value] == u
  {
    var k :| 0 <= k < |users| && users[k] == u;
  }

  /** The record store: the user and tweet collections, in insertion order. */
  class Store {
    var users: seq<User>
    var tweets: seq<Tweet>

    ghost predicate Valid()
      reads this
    {
      StoreInvariant(users, tweets)
    }

    constructor ()
      ensures Valid() && users == [] && tweets == []
    {
      users := [];
      tweets := [];
    }

    /**
     * `POST /api/register`. 400 when e-mail, username or display name is
     * missing; 200 with the existing user, and no insert, when the e-mail is
     * registered; 400 when the username is taken; otherwise 201 with a new
     * user whose notifications are off, appended to the collection.
     * E-mails and usernames stay unique.
     */
    method Register(body: RegisterBody, now: nat, newId: UserId) returns (res: Response<User>)
      requires Valid()
      requires newId != "" && !HasUser(users, ById, newId)
      modifies this
      ensures Valid() && tweets == old(tweets)
      ensures UniqueUsers(old(users), ByUsername) ==> UniqueUsers(users, ByUsername)
      ensures !(Present(body.email) && Present(body.username) && Present(body.displayName)) ==>
        res == BadRequest && users == old(users)
      ensures (Present(body.email) && Present(body.username) && Present(body.displayName) &&
               HasUser(old(users), ByEmail, body.email.value)) ==>
        res.Ok? && res.body in old(users) && res.body.email == body.email.value && users == old(users)
      ensures (Present(body.email) && Present(body.username) && Present(body.displayName) &&
               !HasUser(old(users), ByEmail, body.email.value) &&
               HasUser(old(users), ByUsername, body.username.value)) ==>
        res == BadRequest && users == old(users)
      ensures (Present(body.email) && Present(body.username) && Present(body.displayName) &&
               !HasUser(old(users), ByEmail, body.email.value) &&
               !HasUser(old(users), ByUsername, body.username.value)) ==>
        res.Created? && users == old(users) + [res.body] &&
        res.body == NewUser(newId, RegisterFields(body), now)
      ensures res.Created? ==>
        && res.body.id == newId && res.body.email == body.email.value
        && res.body.username == body.username.value && res.body.displayName == body.displayName.value
        && !res.body.notificationsEnabled && res.body.password == Some(OrElse(body.password, ""))
        && res.body.avatar == OrElse(body.avatar, "")
        && res.body.provider == OrElse(body.provider, if Present(body.password) then "local" else "google")
        && res.body.bio == "" && res.body.banner == "" && res.body.location == "" && res.body.website == ""
        && res.body.joinedDate == now
    {
      if !Present(body.email) || !Present(body.username) || !Present(body.displayName) {
        return BadRequest;
      }
      var existing := FindUser(users, ByEmail, body.email.value);
      if existing.Some? {
        return Ok(users[existing.value]);
      }
      var taken := FindUser(users, ByUsername, body.username.value);
      if taken.Some? {
        assert users[taken.value] in users;
        return BadRequest;
      }
      var u := NewUser(newId, RegisterFields(body), now);
      assert u.avatar == OrElse(body.avatar, "") && u.provider == OrElse(body.provider, if Present(body.password) then "local" else "google");
      InsertUserKeepsInvariant(users, tweets, u);
      if UniqueUsers(users, ByUsername) {
        AppendUserKeepsUnique(users, u, ByUsername);
      }
      users := users + [u];
      res := Created(u);
    }

    /**
     * `POST /register` of the auth router. 400 when username, display name
     * or e-mail is missing; 400, and no insert, when the e-mail is
     * registered; otherwise 201 with a new user whose omitted optional
     * fields are empty strings. Usernames are not checked.
     */
    method RouterRegister(body: RegisterBody, now: nat, newId: UserId) returns (res: Response<User>)
      requires Valid()
      requires newId != "" && !HasUser(users, ById, newId)
      modifies this
      ensures Valid() && tweets == old(tweets)
      ensures res.Created? || res == BadRequest
      ensures !(Present(body.email) && Present(body.username) && Present(body.displayName)) ==>
        res == BadRequest && users == old(users)
      ensures Present(body.email) && HasUser(old(users), ByEmail, body.email.value) ==>
        res == BadRequest && users == old(users)
      ensures (Present(body.email) && Present(body.username) && Present(body.displayName) &&
               !HasUser(old(users), ByEmail, body.email.value)) ==>
        res.Created? && users == old(users) + [res.body] &&
        res.body == NewUser(newId, RouterRegisterFields(body), now)
      ensures res.Created? ==>
        && res.body.id == newId && res.body.email == body.email.value
        && res.body.provider == "local" && !res.body.notificationsEnabled
        && res.body.password == Some(OrElse(body.password, "")) && res.body.avatar == OrElse(body.avatar, "")
        && res.body.banner == OrElse(body.banner, "") && res.body.bio == OrElse(body.bio, "")
        && res.body.location == OrElse(body.location, "") && res.body.website == OrElse(body.website, "")
        && res.body.joinedDate == now
    {
      if !Present(body.username) || !Present(body.displayName) || !Present(body.email) {
        return BadRequest;
      }
      var existing := FindUser(users, ByEmail, body.email.value);
      if existing.Some? {
        return BadRequest;
      }
      var u := NewUser(newId, RouterRegisterFields(body), now);
      InsertUserKeepsInvariant(users, tweets, u);
      users := users + [u];
      res := Created(u);
    }

    /**
     * `POST /api/tweet`. 400 when the author id or the content is missing;
     * 404 when no user has the author id; 500, with nothing stored, when the
     * trimmed content is empty (the schema's `required` check fails on save);
     * otherwise 201 with a new tweet appended: the author's id, the trimmed
     * content, zero counters, empty id lists, image `null` unless given, and
     * the keyword check on the submitted content.
     */
    method PostTweet(authorId: Option<string>, content: Option<string>, image: Option<string>,
                     now: nat, newId: TweetId) returns (res: Response<Posted>)
      requires Valid()
      requires newId != "" && forall t :: t in tweets ==> t.id != newId
      modifies this
      ensures Valid() && users == old(users)
      ensures res.Created? || res == BadRequest || res == NotFound || res == ServerError
      ensures !res.Created? ==> tweets == old(tweets)
      ensures res == BadRequest <==> !Present(authorId) || !Present(content)
      ensures res == NotFound <==>
        Present(authorId) && Present(content) && !HasUser(users, ById, authorId.value)
      ensures res == ServerError <==>
        Present(authorId) && Present(content) && HasUser(users, ById, authorId.value) && Text.Trim(content.value) == ""
      ensures res.Created? ==>
        var t := res.body.tweet;
        && tweets == old(tweets) + [t]
        && t == NewTweet(newId, authorId.value, content.value, if Present(image) then image else None, now)
        && t.likes == 0 && t.retweets == 0 && t.comments == 0 && t.likedBy == [] && t.retweetedBy == []
        && exists u :: u in users && u.id == authorId.value &&
             res.body.keywordAlert == Notification.KeywordDetected(u, content.value)
    {
      if !Present(authorId) || !Present(content) {
        return BadRequest;
      }
      var found := FindUser(users, ById, authorId.value);
      if found.None? {
        return NotFound;
      }
      var user := users[found.value];
      var tweet := NewTweet(newId, user.id, content.value, if Present(image) then image else None, now);
      if !TweetSchemaValid(tweet) {
        return ServerError;
      }
      assert HasUser(users, ById, tweet.author);
      assert StoredTweetOk(users, tweet);
      InsertTweetKeepsInvariant(users, tweets, tweet);
      tweets := tweets + [tweet];
      var alert := Notification.KeywordDetected(user, content.value);
      res := Created(Posted(tweet, alert));
    }

    /**
     * `POST /` of the tweets router. 400 when the e-mail or the content is
     * missing; 404 when no user has the e-mail; 500, with nothing stored,
     * when the trimmed content is empty; otherwise 201 with a new tweet by
     * that user appended, returned with its author resolved to that user.
     */
    method PostTweetByEmail(email: Option<string>, content: Option<string>, image: Option<string>,
                            now: nat, newId: TweetId) returns (res: Response<Feed.FeedItem>)
      requires Valid()
      requires newId != "" && forall t :: t in tweets ==> t.id != newId
      modifies this
      ensures Valid() && users == old(users)
      ensures res.Created? || res == BadRequest || res == NotFound || res == ServerError
      ensures !res.Created? ==> tweets == old(tweets)
      ensures res == BadRequest <==> !Present(email) || !Present(content)
      ensures res == NotFound <==>
        Present(email) && Present(content) && !HasUser(users, ByEmail, email.value)
      ensures res == ServerError <==>
        Present(email) && Present(content) && HasUser(users, ByEmail, email.value) &&
        Text.Trim(content.value) == ""
      ensures res.Created? ==>
        exists u :: u in users && u.email == email.value &&
          tweets == old(tweets) + [res.body.tweet] &&
          res.body.tweet == NewTweet(newId, u.id, content.value, if Present(image) then image else None, now) &&
          res.body.author == Some(Feed.Summary(u))
    {
      if !Present(email) || !Present(content) {
        return BadRequest;
      }
      var found := FindUser(users, ByEmail, email.value);
      if found.None? {
        return NotFound;
      }
      var user := users[found.value];
      assert user in users && user.email == email.value && user.id != "";
      var tweet := NewTweet(newId, user.id, content.value, if Present(image) then image else None, now);
      if !TweetSchemaValid(tweet) {
        return ServerError;
      }
      assert HasUser(users, ById, tweet.author);
      assert StoredTweetOk(users, tweet);
      InsertTweetKeepsInvariant(users, tweets, tweet);
      tweets := tweets + [tweet];
      UniqueIdLookup(users, user);
      var item := Feed.Populate(tweet, users);
      assert item.author == Some(Feed.Summary(user));
      res := Created(item);
      assert user in users && user.email == email.value;
    }

    /**
     * `POST /api/tweet/like/:id`. 404, with nothing changed, when no tweet
     * has the id; otherwise the user id is removed from `likedBy` when
     * present and appended when absent, `likes` becomes the new length, no
     * other field and no other tweet changes, and the tweet is returned.
     */
    method ToggleLike(tweetId: TweetId, userId: UserId) returns (res: Response<Tweet>)
      requires Valid()
      modifies this
      ensures Valid() && users == old(users)
      ensures res.Ok? || res == NotFound
      ensures res == NotFound <==> forall t :: t in old(tweets) ==> t.id != tweetId
      ensures res == NotFound ==> tweets == old(tweets)
      ensures res.Ok? ==>
        var i := TweetWithId(old(tweets), tweetId).value;
        var liked := Toggled(old(tweets)[i].likedBy, userId);
        && tweets == old(tweets)[i := old(tweets)[i].(likedBy := liked, likes := |liked|)]
        && res.body == tweets[i]
      ensures res.Ok? ==> res.body.likes == |res.body.likedBy| && NoDup(res.body.likedBy)
    {
      var found := TweetWithId(tweets, tweetId);
      if found.None? {
        return NotFound;
      }
      var i := found.value;
      var tweet := tweets[i];
      var likedBy := tweet.likedBy;
      if userId in likedBy {
        likedBy := RemoveAll(likedBy, userId);
      } else {
        likedBy := likedBy + [userId];
      }
      tweet := tweet.(likedBy := likedBy);
      tweet := tweet.(likes := |tweet.likedBy|);
      ToggleKeepsNoDup(tweets[i].likedBy, userId);
      UpdateTweetKeepsInvariant(users, tweets, i, tweet);
      tweets := tweets[i := tweet];
      res := Ok(tweet);
    }

    /**
     * `POST /api/tweet/retweet/:id`: the same toggle on `retweetedBy` and
     * `retweets`.
     */
    method ToggleRetweet(tweetId: TweetId, userId: UserId) returns (res: Response<Tweet>)
      requires Valid()
      modifies this
      ensures Valid() && users == old(users)
      ensures res.Ok? || res == NotFound
      ensures res == NotFound <==> forall t :: t in old(tweets) ==> t.id != tweetId
      ensures res == NotFound ==> tweets == old(tweets)
      ensures res.Ok? ==>
        var i := TweetWithId(old(tweets), tweetId).value;
        var retweeted := Toggled(old(tweets)[i].retweetedBy, userId);
        && tweets == old(tweets)[i := old(tweets)[i].(retweetedBy := retweeted, retweets := |retweeted|)]
        && res.body == tweets[i]
      ensures res.Ok? ==> res.body.retweets == |res.body.retweetedBy| && NoDup(res.body.retweetedBy)
    {
      var found := TweetWithId(tweets, tweetId);
      if found.None? {
        return NotFound;
      }
      var i := found.value;
      var tweet := tweets[i];
      var retweetedBy := tweet.retweetedBy;
      if userId in retweetedBy {
        retweetedBy := RemoveAll(retweetedBy, userId);
      } else {
        retweetedBy := retweetedBy + [userId];
      }
      tweet := tweet.(retweetedBy := retweetedBy);
      tweet := tweet.(retweets := |tweet.retweetedBy|);
      ToggleKeepsNoDup(tweets[i].retweetedBy, userId);
      UpdateTweetKeepsInvariant(users, tweets, i, tweet);
      tweets := tweets[i := tweet];
      res := Ok(tweet);
    }
  }
}
