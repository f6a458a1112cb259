# Twitter clone backend — a Dafny model

This project models the record handling of the Express/MongoDB backend of a
small micro-blogging site. Users register, post short tweets, like and retweet
them, and read a reverse-chronological feed. The model covers:

- the two document shapes (`User`, `Tweet`) with their required fields and
  schema defaults, including the `trim` applied to tweet content;
- the record store, a class holding the user and tweet collections, with the
  handlers that change it: registration (`/api/register` and the auth router's
  `/register`), posting a tweet (by author id and by e-mail), and the
  like/retweet toggles;
- the read-only handlers: the two feed queries and the `loggedinuser` lookup;
- the server-side keyword check (`cricket` / `science`) run after a post.

Files: `common.dfy` (optional values, HTTP outcomes, JavaScript truthiness,
first-match search), `text.dfy` (`trim`, ASCII `toLowerCase`, `includes`),
`models.dfy` (documents, schema checks and defaults, lookups),
`interaction.dfy` (the toggle on an id list and its laws),
`notification.dfy` (keyword check), `feed.dfy` (feed queries), `store.dfy`
(the store class and the handlers that write to it).

Modelling choices:

- Ids are strings. A request field that may be missing is an `Option<string>`.
  The handlers' `!x` test is `!Present(x)`: the field is absent, null or the
  empty string.
- The clock and the store's id generator become parameters. `now: nat` is the
  clock reading. `newId` is the generated id. Every handler that inserts a
  document requires it to be non-empty and unused by the documents of that
  collection, as ObjectIds are.
- Each handler runs as one atomic step. Responses carry the status code and
  the returned document, not the message text.
- The toggles follow the code, not a set abstraction. A present id is removed
  with every duplicate, as `filter` does. An absent id is appended, as `push`
  does. The counter is then set to the list length.
- Whitespace-only content passes the handlers' `!content` check. The schema
  then trims it to "", and its `required` validator fails on save. The model
  returns a 500 with nothing stored.
- `POST /api/tweet` passes an `avatar` to `new Tweet`. The tweet schema has no
  such field and strict mode drops it, so the stored tweet has no avatar.
- `populate` of an author id that matches no user yields `null`. A feed item's
  author is therefore an `Option`.

What the code does not do:

- The toggles do not validate `userId`: any string is toggled into the list, whether or not a user has it.
- The feed sorts only by timestamp; ties between equal timestamps are not broken by any secondary key.
- A toggle is not atomic: it reads the whole document, changes it in memory and saves it.
- The schema does not keep the `likedBy`/`retweetedBy` lists free of
  duplicates; only the toggles' own logic does. The store invariant states that the lists have no duplicates and
  that the counters equal their lengths, and every handler is proved to keep it.

## Model

| member | source | states |
|---|---|---|
| Backend.Store.ToggleLike | backend/index.js:186-208 | 404 with the store unchanged iff no tweet has the id; otherwise that tweet's `likedBy` becomes the toggle of the user id, `likes` its new length, no other field or tweet changes, and the updated tweet is returned; the store invariant (counters = lengths, no duplicate ids) is kept |
| Backend.Store.ToggleRetweet | backend/index.js:210-232 | the same for `retweetedBy` / `retweets` |
| Interaction.Toggled | backend/index.js:194-198 | after a toggle the id is present iff it was absent before; every other id keeps its membership |
| Interaction.RemoveAll | backend/index.js:195 | `filter` removes every occurrence of the id, keeps every other id with its multiplicity, and shortens the list by the number of occurrences removed |
| Interaction.ToggledLength | backend/index.js:194-200 | on a duplicate-free list a toggle changes the length, hence the counter, by exactly one: down when present, up when absent |
| Interaction.ToggleKeepsNoDup | backend/index.js:194-198 | a toggle never introduces a duplicate id |
| Interaction.ToggleTwiceRestoresMembership | backend/index.js:194-198 | toggling twice with the same id restores every id's membership |
| Interaction.ToggleTwiceRestoresAbsent | backend/index.js:194-198 | when the id was absent, toggling twice restores the exact list |
| Interaction.ToggleAllParity | backend/index.js:194-198 | after any sequence of toggles an id is present iff (initially present) xor (toggled an odd number of times), whatever the order |
| Interaction.DistinctNewTogglers | backend/index.js:194-200 | N distinct users not yet in the list each toggling once append exactly themselves, keep the list duplicate-free and raise its length by N |
| Interaction.LikeUnlikeScenario | backend/index.js:194-200 | like by a, like by b, like by a again leaves exactly [b], count 1 |
| Interaction.NoDupCountsOne | backend/index.js:194-195 | in a duplicate-free list a present id occurs exactly once |
| Interaction.RemoveAllOfAbsent | backend/index.js:195 | filtering out an absent id leaves the list unchanged |
| Interaction.RemoveAllAppend | backend/index.js:195 | filtering distributes over concatenation |
| Interaction.RemoveAllKeepsNoDup | backend/index.js:195 | filtering keeps a list duplicate-free |
| Notification.KeywordDetected | backend/index.js:138-142 | fires iff the author has notifications enabled and "cricket" or "science" occurs at some position of the ASCII-lower-cased content |
| Notification.KeywordDetectionIgnoresCase | backend/index.js:138-142 | the check gives the same answer on the content and on its lower-cased form |
| Notification.NoDetectionWhenDisabled | backend/index.js:139 | with notifications off the check never fires |
| Notification.CricketExample | backend/index.js:138-142 | "Great Cricket match today" fires exactly when the author has notifications on |
| Notification.PlainContentDoesNotFire | backend/index.js:140-141 | content whose lower-cased form contains neither keyword never fires |
| Notification.HelloDoesNotFire | backend/index.js:140-141 | the example content "hello" never fires |
| Text.Includes | backend/index.js:140-141 | `includes` is true iff the pattern occurs at some position of the string |
| Text.ToLowerAscii | backend/index.js:140 | `toLowerCase` keeps the length and lowers each ASCII capital, leaving every other character alone |
| Text.ToLowerIdempotent | backend/index.js:140-141 | lower-casing twice equals lower-casing once |
| Text.Trim | backend/models/tweet.js:9-13 | the trimmed content is no longer than the input and neither starts nor ends with white space |
| Text.TrimRemovesOnlyBlanks | backend/models/tweet.js:9-13 | the trimmed content is an infix of the input, obtained by removing only white space at both ends |
| Text.TrimIdempotent | backend/models/tweet.js:12 | trimming stored (already trimmed) content changes nothing |
| Text.TrimEmptyIffBlank | backend/models/tweet.js:9-13 | the trimmed content is empty iff the input is all white space, which is when the `required` check fails |
| Models.NewTweet | backend/models/tweet.js:3-46 | a new tweet has author, image and timestamp as given, the trimmed content, zero likes/retweets/comments, empty id lists and consistent counters; it passes the schema iff the author is set and the trimmed content is non-empty |
| Models.NewUser | backend/models/user.js:4-19 | a given avatar/banner/bio/location/website/provider/notifications flag is stored as given; an absent one defaults to "", provider to "local", notifications to off; the password stays absent when not given; the user passes the schema iff username, display name and e-mail are non-empty |
| Models.FindUser | backend/index.js:42-51 | `findOne` on e-mail or username, and `findById` (backend/index.js:119), finds a user whose field has the value, or reports that none has it |
| Models.TweetWithId | backend/index.js:191 | `findById` finds a tweet with that id, or reports that none has it |
| Backend.Store.Register | backend/index.js:31-81 | 400 when e-mail, username or display name is missing; 200 with an existing user of that e-mail and no insert; 400 when the username is taken; otherwise 201 with a new user appended: notifications off, password and avatar as given or `""`, provider as given or else "local" with a password and "google" without, bio/banner/location/website `""`, joined at the clock reading; e-mails stay unique and usernames stay unique |
| Backend.Store.RouterRegister | backend/routes/auth.js:28-59 | 400 when a required field is missing; 400 with no insert when the e-mail is registered; otherwise 201 with a new user whose omitted optional fields are "" and provider "local"; e-mails stay unique |
| Backend.LoggedInUser | backend/routes/auth.js:11-24 | 400 iff no e-mail; 404 iff no user has it; otherwise 200 with a user that has it, the only one when e-mails are unique |
| Backend.Store.PostTweet | backend/index.js:113-152 | 400 iff author id or content missing; 404 iff no user has the author id; 500 iff the trimmed content is empty; nothing stored on these; otherwise 201 with a tweet appended whose author is that user, counters zero, id lists empty, image null unless given, with the keyword check on the submitted content |
| Backend.Store.PostTweetByEmail | backend/routes/tweets.js:8-34 | 400 iff e-mail or content missing; 404 iff no user has the e-mail; 500 iff a user has it and the trimmed content is empty; nothing stored on these; otherwise 201 with a new tweet by that user appended and returned with its author resolved to that user's summary |
| Backend.InsertUserKeepsInvariant | backend/models/user.js:7 | adding a user with a fresh id and e-mail keeps the store invariant, including e-mail uniqueness |
| Backend.AppendUserKeepsUnique | backend/models/user.js:7 | appending a user whose id, e-mail or username (whichever field is chosen) no stored user shares keeps that field unique; used for ids and e-mails on every insert and for usernames by `POST /api/register` |
| Backend.InsertTweetKeepsInvariant | backend/models/tweet.js:3-46 | adding a schema-valid tweet with consistent counters, a fresh id and an existing author keeps the store invariant |
| Backend.AppendTweetKeepsUnique | backend/models/tweet.js:3-46 | appending a tweet with a fresh id keeps tweet ids unique |
| Backend.UpdateTweetKeepsInvariant | backend/index.js:200-201 | saving a tweet with unchanged id, author and content and consistent counters keeps the store invariant |
| Backend.UniqueIdLookup | backend/routes/tweets.js:27 | with unique user ids, looking up a stored user's id finds that user, so `populate` resolves the new tweet's author to its poster |
| Feed.ListAll | backend/index.js:155-165 | every stored tweet exactly once (same multiset), newest first, each with its author resolved |
| Feed.ListByAuthor | backend/index.js:168-180 | exactly the tweets whose author is the user id, with their multiplicities, newest first, each with its author resolved; empty iff the user has no tweets |
| Feed.Populate | backend/index.js:158 | the author becomes the summary of a user with that id, or null iff no user has it |
| Feed.SortNewestFirst | backend/routes/tweets.js:39-41 | the result is a permutation of the input with non-increasing timestamps |
| Feed.AuthoredBy | backend/index.js:171 | keeps exactly the tweets by that author, with their multiplicities |
| Feed.AuthoredByEmpty | backend/index.js:171 | the selection is empty iff no stored tweet has that author |

## Left out

- Express, CORS, dotenv and `mongoose.connect` wiring, `app.listen`, the root route, the auth router's test route and all console output. They are I/O plumbing. The keyword detection's effect is reported as the `keywordAlert` flag of the 201 result instead of a log line.
- Response message texts. Only the status and the returned document are modelled.
- The 500 branches caused by database or network exceptions. Only the 500 caused by the content validator is modelled.
- Concurrency. Each toggle reads the document, changes it in memory and saves it, so concurrent toggles can lose updates. The model treats each request as one atomic step and cannot express that race.
- ObjectId casting. Ids are plain strings, so the cast errors a malformed id would raise are not modelled.
- JSON values of the wrong type in a request body. Request fields of the register and post handlers are optional strings.
- Backend.Store.ToggleLike, Backend.Store.ToggleRetweet: `userId` is a string that is always present. When the request body has no `userId`, the code's `includes(undefined)` is false and `push(undefined)` lengthens the list and the counter; the model does not capture that path, because what the store then saves for `undefined` depends on its casting rules.
- Unicode case folding. `toLowerCase` is modelled on ASCII letters only. `trim` uses the full ECMAScript white-space set.
- Clock and id generation. Both are parameters.
- `GET /api/users/:id` and `PUT /api/users/:id`. The update merges an arbitrary body with library semantics. The lookup is the same `findById` as `Models.FindUser`.
- Twitter-Clone-project/src/lib/utils.ts. Its class-name helper and browser notification permission helpers wrap foreign libraries and browser APIs.
- The auth router's load failure. backend/routes/auth.js calls `app.get` on an undefined `app`, so the file cannot load. Only the decision logic of its handlers is modelled.
- Feed.ListByAuthor: states the order only by timestamp and not the relative order of tweets with equal timestamps, because the store's sort leaves ties unspecified.
- Feed.ListAll: states the order only by timestamp and not the relative order of tweets with equal timestamps, for the same reason.
