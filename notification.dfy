/**
 * The server-side keyword check run after a tweet is saved by
 * `POST /api/tweet`: it fires when the author has notifications enabled and
 * the lower-cased content mentions one of the two keywords.
 */
module Notification {
  import opened Text
  import opened Models

  const Cricket: string := "cricket"
  const Science: string := "science"

  /**
   * The keyword check on the content as submitted (before the schema trims
   * it). It fires exactly when notifications are on and one of the keywords
   * occurs in the ASCII-lower-cased content.
   */
  function KeywordDetected(author: User, content: string): (fire: bool)
    ensures fire <==>
      && author.notificationsEnabled
      && (Occurs(ToLowerAscii(content), Cricket) || Occurs(ToLowerAscii(content), Science))
  {
    author.notificationsEnabled &&
    (Includes(ToLowerAscii(content), Cricket) || Includes(ToLowerAscii(content), Science))
  }

  /** The check ignores the case of ASCII letters in the content. */
  lemma KeywordDetectionIgnoresCase(author: User, content: string)
    ensures KeywordDetected(author, content) == KeywordDetected(author, ToLowerAscii(content))
  {
    ToLowerIdempotent(content);
  }

  /** With notifications off the check never fires. */
  lemma NoDetectionWhenDisabled(author: User, content: string)
    requires !author.notificationsEnabled
    ensures !KeywordDetected(author, content)
  {
  }

  /** "Great Cricket match today" fires for an author with notifications on and not otherwise. */
  lemma CricketExample(author: User, content: string)
    requires content == "Great Cricket match today"
    ensures KeywordDetected(author, content) == author.notificationsEnabled
  {
    var lowered := ToLowerAscii(content);
    assert content[6..13] == "Cricket";
    forall k | 0 <= k < 7 ensures lowered[6..13][k] == Cricket[k] {
      assert lowered[6 + k] == LowerChar(content[6 + k]);
      assert content[6 + k] == "Cricket"[k];
    }
    assert MatchesAt(lowered, Cricket, 6);
  }

  /** Content that mentions neither keyword, in any letter case, never fires, whatever the author's preference. */
  lemma PlainContentDoesNotFire(author: User, content: string)
    requires !Occurs(ToLowerAscii(content), Cricket) && !Occurs(ToLowerAscii(content), Science)
    ensures !KeywordDetected(author, content)
  {
  }

  /** An example of the above: "hello" never fires. */
  lemma HelloDoesNotFire(author: User)
    ensures !KeywordDetected(author, "hello")
  {
    var lowered := ToLowerAscii("hello");
    assert |lowered| == 5;
  }
}
