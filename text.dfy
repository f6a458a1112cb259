/**
 * The three string operations the handlers rely on: `String.prototype.trim`
 * (applied by the tweet schema's `trim: true`), `toLowerCase` restricted to
 * ASCII letters, and `includes` (substring search).
 */
module Text {

  /**
   * The characters `trim` removes: the ECMAScript WhiteSpace and
   * LineTerminator code points (tab, line feed, vertical tab, form feed,
   * carriage return, space, no-break space, the other Unicode space
   * separators, the line and paragraph separators and the byte order mark).
   */
  predicate IsJsSpace(c: char) {
    var n := c as int;
    (9 <= n <= 13) || n == 0x20 || n == 0xA0 || n == 0x1680 ||
    (0x2000 <= n <= 0x200A) || n == 0x2028 || n == 0x2029 ||
    n == 0x202F || n == 0x205F || n == 0x3000 || n == 0xFEFF
  }

  /** Drops the leading white space of `s`. */
  function TrimStart(s: string): (r: string)
    ensures |r| <= |s| && r == s[|s| - |r|..]
    ensures r == [] || !IsJsSpace(r[0])
    ensures forall i :: 0 <= i < |s| - |r| ==> IsJsSpace(s[i])
  {
    if |s| > 0 && IsJsSpace(s[0]) then TrimStart(s[1..]) else s
  }

  /** Drops the trailing white space of `s`. */
  function TrimEnd(s: string): (r: string)
    ensures |r| <= |s| && r == s[..|r|]
    ensures r == [] || !IsJsSpace(r[|r| - 1])
    ensures forall i :: |r| <= i < |s| ==> IsJsSpace(s[i])
  {
    if |s| > 0 && IsJsSpace(s[|s| - 1]) then TrimEnd(s[..|s| - 1]) else s
  }

  /** `s.trim()`: neither starts nor ends with white space (see TrimRemovesOnlyBlanks). */
  function Trim(s: string): (r: string)
    ensures |r| <= |s|
    ensures r == [] || (!IsJsSpace(r[0]) && !IsJsSpace(r[|r| - 1]))
  {
    TrimEnd(TrimStart(s))
  }

  /** `s.trim()` removes white space, and only white space, from the two ends of `s`. */
  lemma TrimRemovesOnlyBlanks(s: string)
    ensures exists a :: TrimmedAt(s, a, Trim(s))
  {
    var front := TrimStart(s);
    assert TrimmedAt(s, |s| - |front|, Trim(s));
  }

  /** `r` is `s` with `a` blanks removed in front and only blanks removed at the back. */
  predicate TrimmedAt(s: string, a: int, r: string) {
    && 0 <= a && a + |r| <= |s| && r == s[a..a + |r|]
    && (forall i :: 0 <= i < a ==> IsJsSpace(s[i]))
    && (forall i :: a + |r| <= i < |s| ==> IsJsSpace(s[i]))
  }

  /** Trimming an already trimmed string changes nothing. */
  lemma TrimIdempotent(s: string)
    ensures Trim(Trim(s)) == Trim(s)
  {
    var r := Trim(s);
    assert TrimStart(r) == r;
    assert TrimEnd(r) == r;
  }

  /** `s.trim()` is empty exactly when `s` consists of white space only. */
  lemma TrimEmptyIffBlank(s: string)
    ensures Trim(s) == [] <==> forall i :: 0 <= i < |s| ==> IsJsSpace(s[i])
  {
    TrimRemovesOnlyBlanks(s);
  }

  /** `toLowerCase` on one character, restricted to the ASCII letters. */
  function LowerChar(c: char): char {
    if 'A' <= c <= 'Z' then (c as int + 32) as char else c
  }

  /** `s.toLowerCase()` over ASCII: every upper-case ASCII letter is lowered, nothing else changes. */
  function ToLowerAscii(s: string): (r: string)
    ensures |r| == |s|
    ensures forall i :: 0 <= i < |s| ==> r[i] == LowerChar(s[i])
  {
    if s == [] then [] else [LowerChar(s[0])] + ToLowerAscii(s[1..])
  }

  /** Lower-casing is idempotent, so lower-casing first and comparing later is case-insensitive. */
  lemma ToLowerIdempotent(s: string)
    ensures ToLowerAscii(ToLowerAscii(s)) == ToLowerAscii(s)
  {
    var once := ToLowerAscii(s);
    var twice := ToLowerAscii(once);
    forall i | 0 <= i < |s| ensures twice[i] == once[i] {
      assert once[i] == LowerChar(s[i]);
    }
  }

  /** `pat` occurs in `s` at some position (the reference meaning of `includes`). */
  ghost predicate Occurs(s: string, pat: string) {
    exists i :: MatchesAt(s, pat, i)
  }

  /** `pat` occurs in `s` starting at position `i`. */
  predicate MatchesAt(s: string, pat: string, i: int) {
    0 <= i && i + |pat| <= |s| && s[i..i + |pat|] == pat
  }

  /** `s.includes(pat)`: tries each start position from left to right. */
  function Includes(s: string, pat: string): (b: bool)
    ensures b <==> Occurs(s, pat)
  {
    if |s| < |pat| then false
    else if s[..|pat|] == pat then
      assert MatchesAt(s, pat, 0);
      true
    else
      var rest := Includes(s[1..], pat);
      assert rest ==> Occurs(s, pat) by {
        if rest {
          var i :| MatchesAt(s[1..], pat, i);
          assert s[1..][i..i + |pat|] == s[i + 1..i + 1 + |pat|];
          assert MatchesAt(s, pat, i + 1);
        }
      }
      assert Occurs(s, pat) ==> rest by {
        if Occurs(s, pat) {
          var i :| MatchesAt(s, pat, i);
          assert i != 0;
          assert s[1..][i - 1..i - 1 + |pat|] == s[i..i + |pat|];
          assert MatchesAt(s[1..], pat, i - 1);
        }
      }
      rest
  }
}
