/** The .NET string primitives the `.env` parser relies on: `Char.IsWhiteSpace`,
    `String.Trim`, `String.IsNullOrWhiteSpace`, `StartsWith(char)`,
    `EndsWith(char)` and `IndexOf(char)`. A string is a sequence of characters;
    every character these operations look at lies in the Basic Multilingual
    Plane, so indexing by scalar value and by UTF-16 unit agree on them. */
module Text {

  /** `Char.IsWhiteSpace`: the Unicode White_Space characters (tab to carriage
      return, space, next line, no-break space and the space, line and
      paragraph separators). */
  predicate IsWhitespace(c: char)
  {
    || ('\U{0009}' <= c <= '\U{000D}')
    || c == ' '
    || c == '\U{0085}'
    || c == '\U{00A0}'
    || c == '\U{1680}'
    || ('\U{2000}' <= c <= '\U{200A}')
    || c == '\U{2028}'
    || c == '\U{2029}'
    || c == '\U{202F}'
    || c == '\U{205F}'
    || c == '\U{3000}'
  }

  /** `String.IsNullOrWhiteSpace`: every character is white space (vacuously
      true of the empty string). */
  predicate IsBlank(s: string)
  {
    forall i | 0 <= i < |s| :: IsWhitespace(s[i])
  }

  /** Neither end of `s` is white space: what `Trim` leaves behind. */
  predicate Trimmed(s: string)
  {
    |s| == 0 || (!IsWhitespace(s[0]) && !IsWhitespace(s[|s| - 1]))
  }

  /** `StartsWith(char)`. */
  predicate StartsWith(s: string, c: char)
  {
    |s| > 0 && s[0] == c
  }

  /** `EndsWith(char)`. */
  predicate EndsWith(s: string, c: char)
  {
    |s| > 0 && s[|s| - 1] == c
  }

  /** The number of white-space characters at the front of `s`. */
  function Lead(s: string): (n: nat)
    ensures n <= |s| && IsBlank(s[..n])
    ensures n < |s| ==> !IsWhitespace(s[n])
  {
    if |s| > 0 && IsWhitespace(s[0]) then 1 + Lead(s[1..]) else 0
  }

  /** The number of white-space characters at the back of `s`. */
  function Trail(s: string): (n: nat)
    ensures n <= |s| && IsBlank(s[|s| - n..])
    ensures n < |s| ==> !IsWhitespace(s[|s| - 1 - n])
  {
    if |s| > 0 && IsWhitespace(s[|s| - 1]) then 1 + Trail(s[..|s| - 1]) else 0
  }

  /** `Trim()`: the slice of `s` left after removing white space from both
      ends. */
  function Trim(s: string): (r: string)
    ensures Trimmed(r)
    ensures Lead(s) + |r| <= |s| && r == s[Lead(s)..Lead(s) + |r|]
    ensures IsBlank(s[Lead(s) + |r|..])
  {
    var start := Lead(s);
    var end := |s| - Trail(s);
    if start < end then s[start..end] else []
  }

  /** `IndexOf(char)`: the position of the first occurrence of `c`, or -1. */
  function IndexOf(s: string, c: char): (r: int)
    ensures -1 <= r < |s|
    ensures r == -1 <==> c !in s
    ensures r >= 0 ==> s[r] == c && c !in s[..r]
  {
    if |s| == 0 then -1
    else if s[0] == c then 0
    else
      var k := IndexOf(s[1..], c);
      if k == -1 then -1 else k + 1
  }

  /** The leading white space ends at the first character that is not white
      space. */
  lemma LeadAt(s: string, i: int)
    requires 0 <= i < |s| && IsBlank(s[..i]) && !IsWhitespace(s[i])
    ensures Lead(s) == i
  {
  }

  /** The trailing white space starts after the last character that is not
      white space. */
  lemma TrailAt(s: string, j: int)
    requires 0 < j <= |s| && IsBlank(s[j..]) && !IsWhitespace(s[j - 1])
    ensures Trail(s) == |s| - j
  {
  }

  /** Two runs of white space make one. */
  lemma BlankJoin(s: string, i: int)
    requires 0 <= i <= |s| && IsBlank(s[..i]) && IsBlank(s[i..])
    ensures IsBlank(s)
  {
    forall k | i <= k < |s|
      ensures IsWhitespace(s[k])
    {
      assert s[i..][k - i] == s[k];
    }
  }

  /** The trim of `s` is the one slice that is white-space free at both ends
      and has only white space around it. */
  lemma TrimUnique(s: string, i: int, j: int)
    requires 0 <= i <= j <= |s|
    requires IsBlank(s[..i]) && IsBlank(s[j..]) && Trimmed(s[i..j])
    ensures Trim(s) == s[i..j]
  {
    if i < j {
      assert s[i..j][0] == s[i] && s[i..j][j - i - 1] == s[j - 1];
      LeadAt(s, i);
      TrailAt(s, j);
    } else {
      BlankJoin(s, i);
    }
  }

  /** Trimming a trimmed string changes nothing. */
  lemma TrimOfTrimmed(s: string)
    requires Trimmed(s)
    ensures Trim(s) == s
  {
    assert s[..0] == [] && s[|s|..] == [] && s[0..|s|] == s;
    TrimUnique(s, 0, |s|);
  }

  /** `Trim` is idempotent. */
  lemma TrimIdempotent(s: string)
    ensures Trim(Trim(s)) == Trim(s)
  {
    TrimOfTrimmed(Trim(s));
  }

  /** After trimming, `IsNullOrWhiteSpace` holds exactly of the empty string. */
  lemma BlankTrimmedIsEmpty(s: string)
    requires Trimmed(s)
    ensures IsBlank(s) <==> |s| == 0
  {
  }

  /** A string with a character that is not white space keeps a non-empty
      trim. */
  lemma TrimKeepsNonWhitespace(s: string, k: int)
    requires 0 <= k < |s| && !IsWhitespace(s[k])
    ensures |Trim(s)| > 0
  {
  }

  /** `Trim` returns characters of its input only. */
  lemma TrimContents(s: string, c: char)
    requires c in Trim(s)
    ensures c in s
  {
    var r := Trim(s);
    var k :| 0 <= k < |r| && r[k] == c;
    assert s[Lead(s) + k] == c;
  }
}
