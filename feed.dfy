/**
 * The two feed queries, `GET /api/tweet` (and the tweets router's `GET /`)
 * and `GET /api/tweets/user/:userId`: select tweets, order them newest first
 * and replace each author id by a summary of that user.
 */
module Feed {
  import opened Common
  import opened Models

  /** The author fields `populate("author", "username displayName avatar")` keeps. */
  datatype AuthorSummary = AuthorSummary(id: UserId, username: string, displayName: string, avatar: string)

  /** A tweet as listed: its author is the summary, or `null` when no user has that id. */
  datatype FeedItem = FeedItem(tweet: Tweet, author: Option<AuthorSummary>)

  function Summary(u: User): AuthorSummary {
    AuthorSummary(u.id, u.username, u.displayName, u.avatar)
  }

  /** Resolves the author of one tweet against the user collection. */
  function Populate(t: Tweet, users: seq<User>): (item: FeedItem)
    ensures item.tweet == t
    ensures item.author.Some? ==> exists u :: u in users && u.id == t.author && item.author.value == Summary(u)
    ensures item.author.None? <==> !HasUser(users, ById, t.author)
  {
    match FindUser(users, ById, t.author)
    case None => FeedItem(t, None)
    case Some(j) => FeedItem(t, Some(Summary(users[j])))
  }

  /** `sort({ timestamp: -1 })`: no tweet is followed by a newer one. */
  predicate NewestFirst(ts: seq<Tweet>) {
    forall i, j :: 0 <= i < j < |ts| ==> ts[i].timestamp >= ts[j].timestamp
  }

  /** Puts `t` into a newest-first list ahead of the first tweet that is not newer. */
  function InsertByTimestamp(t: Tweet, ts: seq<Tweet>): (r: seq<Tweet>)
    requires NewestFirst(ts)
    ensures NewestFirst(r)
    ensures multiset(r) == multiset(ts) + multiset{t}
  {
    if ts == [] || t.timestamp >= ts[0].timestamp then
      PrependNewest(t, ts);
      [t] + ts
    else
      var rest := InsertByTimestamp(t, ts[1..]);
      assert ts == [ts[0]] + ts[1..];
      assert multiset(ts) == multiset{ts[0]} + multiset(ts[1..]);
      NoNewerThanHead(ts, t, rest);
      PrependNewest(ts[0], rest);
      [ts[0]] + rest
  }

  /** A tweet at least as new as every tweet of a newest-first list may go in front of it. */
  lemma PrependNewest(x: Tweet, ts: seq<Tweet>)
    requires NewestFirst(ts)
    requires forall y :: y in ts ==> y.timestamp <= x.timestamp
    ensures NewestFirst([x] + ts)
  {
    var r := [x] + ts;
    forall i, j | 0 <= i < j < |r| ensures r[i].timestamp >= r[j].timestamp {
      if i > 0 {
        assert r[i] == ts[i - 1] && r[j] == ts[j - 1];
      } else {
        assert r[j] in ts;
      }
    }
  }

  /** Inserting an older tweet into the tail keeps every element no newer than the head. */
  lemma NoNewerThanHead(ts: seq<Tweet>, t: Tweet, rest: seq<Tweet>)
    requires NewestFirst(ts) && ts != []
    requires t.timestamp < ts[0].timestamp
    requires multiset(rest) == multiset(ts[1..]) + multiset{t}
    ensures forall y :: y in rest ==> y.timestamp <= ts[0].timestamp
  {
    forall y | y in rest ensures y.timestamp <= ts[0].timestamp {
      assert y in multiset(rest);
      if y != t {
        assert y in ts[1..];
        var k :| 0 <= k < |ts[1..]| && ts[1..][k] == y;
        assert ts[k + 1] == y;
      }
    }
  }

  /**
   * The store's descending sort on `timestamp`. The order among tweets with
   * equal timestamps is left open: only the order and the contents are stated.
   */
  function SortNewestFirst(ts: seq<Tweet>): (r: seq<Tweet>)
    ensures NewestFirst(r)
    ensures multiset(r) == multiset(ts)
  {
    if ts == [] then []
    else
      assert ts == [ts[0]] + ts[1..];
      InsertByTimestamp(ts[0], SortNewestFirst(ts[1..]))
  }

  /** `Tweet.find({ author: userId })`: the tweets by that author, in collection order. */
  function AuthoredBy(ts: seq<Tweet>, userId: UserId): (r: seq<Tweet>)
    ensures forall t :: multiset(r)[t] == if t.author == userId then multiset(ts)[t] else 0
  {
    if ts == [] then []
    else
      assert ts == [ts[0]] + ts[1..];
      if ts[0].author == userId then [ts[0]] + AuthoredBy(ts[1..], userId)
      else AuthoredBy(ts[1..], userId)
  }

  /** The tweets of a listing, without their author summaries. */
  function TweetsOf(items: seq<FeedItem>): seq<Tweet> {
    seq(|items|, i requires 0 <= i < |items| => items[i].tweet)
  }

  /** Each tweet of `ts`, in order, with its author resolved. */
  function PopulateAll(ts: seq<Tweet>, users: seq<User>): (r: seq<FeedItem>)
    ensures TweetsOf(r) == ts
    ensures forall i :: 0 <= i < |r| ==> r[i] == Populate(ts[i], users)
  {
    var r := seq(|ts|, i requires 0 <= i < |ts| => Populate(ts[i], users));
    assert TweetsOf(r) == ts;
    r
  }

  /**
   * `GET /api/tweet`: every stored tweet exactly once, newest first, each
   * with its author resolved.
   */
  function ListAll(tweets: seq<Tweet>, users: seq<User>): (r: seq<FeedItem>)
    ensures NewestFirst(TweetsOf(r))
    ensures multiset(TweetsOf(r)) == multiset(tweets)
    ensures forall i :: 0 <= i < |r| ==> r[i] == Populate(r[i].tweet, users)
  {
    PopulateAll(SortNewestFirst(tweets), users)
  }

  /**
   * `GET /api/tweets/user/:userId`: exactly the tweets whose author is
   * `userId`, newest first, each with its author resolved; an author
   * without tweets gets an empty listing, not an error.
   */
  function ListByAuthor(tweets: seq<Tweet>, users: seq<User>, userId: UserId): (r: seq<FeedItem>)
    ensures NewestFirst(TweetsOf(r))
    ensures forall t :: multiset(TweetsOf(r))[t] == if t.author == userId then multiset(tweets)[t] else 0
    ensures forall i :: 0 <= i < |r| ==> r[i].tweet.author == userId && r[i] == Populate(r[i].tweet, users)
    ensures r == [] <==> forall t :: t in tweets ==> t.author != userId
  {
    var mine := AuthoredBy(tweets, userId);
    var sorted := SortNewestFirst(mine);
    var r := PopulateAll(sorted, users);
    forall i | 0 <= i < |r| ensures r[i].tweet.author == userId {
      assert r[i].tweet == sorted[i];
      assert sorted[i] in multiset(mine);
    }
    assert |r| == |sorted| == |mine|;
    AuthoredByEmpty(tweets, userId);
    r
  }

  /** An author has no tweets in the selection iff no stored tweet is theirs. */
  lemma AuthoredByEmpty(ts: seq<Tweet>, userId: UserId)
    ensures AuthoredBy(ts, userId) == [] <==> forall t :: t in ts ==> t.author != userId
  {
    var mine := AuthoredBy(ts, userId);
    if mine == [] {
      forall t | t in ts ensures t.author != userId {
        assert multiset(mine)[t] == 0;
      }
    } else {
      assert mine[0] in multiset(mine);
    }
  }
}
