/** One line of a `.env` file: quote stripping, key normalisation and the
    parse of a single `KEY=value` line, as `DotEnvConfigurationProvider.Load`
    performs them for each line it reads. */
module DotEnvLine {
  import opened Text
  import opened Wrappers

  /** The pair a line contributes: a normalised configuration key and its
      value. */
  datatype Entry = Entry(key: string, value: string)

  // ---------------------------------------------------------------------------
  // Quotes
  // ---------------------------------------------------------------------------

  /** The two quote characters a value may be wrapped in. */
  predicate IsQuote(c: char)
  {
    c == '"' || c == '\''
  }

  /** At least two characters long, starting and ending with the same quote
      character. */
  predicate IsQuoted(v: string)
  {
    |v| >= 2 && IsQuote(v[0]) && v[|v| - 1] == v[0]
  }

  /** Wraps `v` in one pair of the quote character `q`. */
  function Quote(q: char, v: string): string
  {
    [q] + v + [q]
  }

  /** Removes one surrounding pair of matching `"` or `'` quotes, and nothing
      else. */
  function StripQuotes(v: string): (r: string)
    ensures IsQuoted(v) ==> |r| == |v| - 2 && v == Quote(v[0], r)
    ensures !IsQuoted(v) ==> r == v
  {
    if |v| >= 2
       && ((StartsWith(v, '"') && EndsWith(v, '"'))
           || (StartsWith(v, '\'') && EndsWith(v, '\'')))
    then v[1..|v| - 1]
    else v
  }

  /** Quoting and then stripping gives back exactly the quoted text, whatever
      quotes, `=` or white space it contains: only one level is removed. */
  lemma StripQuotesOfQuote(q: char, v: string)
    requires IsQuote(q)
    ensures StripQuotes(Quote(q, v)) == v
  {
    assert Quote(q, v)[1..|v| + 1] == v;
  }

  /** The cases the source leaves alone: a lone quote, an unterminated quote and
      mismatched quotes. */
  lemma StripQuotesKeepsUnmatched(q: char, v: string)
    requires IsQuote(q)
    ensures StripQuotes([q]) == [q]
    ensures (|v| == 0 || v[|v| - 1] != q) ==> StripQuotes([q] + v) == [q] + v
  {
  }

  // ---------------------------------------------------------------------------
  // Key normalisation
  // ---------------------------------------------------------------------------

  /** No two adjacent underscores. */
  predicate NoDoubleUnderscore(s: string)
  {
    forall i | 0 <= i < |s| - 1 :: !(s[i] == '_' && s[i + 1] == '_')
  }

  /** `key.Replace("__", ":")`: scans left to right and rewrites each
      non-overlapping `__` as the section delimiter `:`, so `___` becomes
      `:_`. */
  function ReplaceDoubleUnderscore(s: string): (r: string)
    ensures |r| <= |s|
    ensures |s| > 0 ==> |r| > 0
    ensures |r| > 0 && r[0] == '_' ==> s[0] == '_'
    ensures NoDoubleUnderscore(r)
  {
    if |s| == 0 then []
    else if |s| >= 2 && s[0] == '_' && s[1] == '_' then [':'] + ReplaceDoubleUnderscore(s[2..])
    else [s[0]] + ReplaceDoubleUnderscore(s[1..])
  }

  /** Normalisation only turns underscores into colons: every other character
      occurs in the result exactly when it occurs in the key. */
  lemma {:induction false} ReplaceKeepsOtherChars(s: string, c: char)
    requires c != '_' && c != ':'
    ensures c in ReplaceDoubleUnderscore(s) <==> c in s
  {
    if |s| >= 2 && s[0] == '_' && s[1] == '_' {
      ReplaceKeepsOtherChars(s[2..], c);
      assert s == "__" + s[2..];
    } else if |s| > 0 {
      ReplaceKeepsOtherChars(s[1..], c);
      assert s == [s[0]] + s[1..];
    }
  }

  /** A character that does not open a `__` is copied. */
  lemma ReplaceCons(c: char, t: string)
    requires c != '_' || |t| == 0 || t[0] != '_'
    ensures ReplaceDoubleUnderscore([c] + t) == [c] + ReplaceDoubleUnderscore(t)
  {
    assert ([c] + t)[1..] == t;
  }

  /** A `__` that follows a segment without `__` and not ending in `_` becomes
      the delimiter between that segment and the rest. */
  lemma {:induction false} ReplaceAfterSegment(a: string, b: string)
    requires NoDoubleUnderscore(a) && (|a| == 0 || a[|a| - 1] != '_')
    ensures ReplaceDoubleUnderscore(a + "__" + b) == a + ":" + ReplaceDoubleUnderscore(b)
  {
    if |a| == 0 {
      assert a + "__" + b == "__" + b;
    } else {
      var rest := a[1..] + "__" + b;
      var done := a[1..] + ":" + ReplaceDoubleUnderscore(b);
      assert a + "__" + b == [a[0]] + rest;
      assert a + ":" + ReplaceDoubleUnderscore(b) == [a[0]] + done;
      assert NoDoubleUnderscore(a[1..]);
      ReplaceAfterSegment(a[1..], b);
      ReplaceCons(a[0], rest);
    }
  }

  /** Writes every `:` as `__`: the flat spelling of a hierarchical key. */
  function ExpandColons(s: string): (r: string)
  {
    if |s| == 0 then []
    else if s[0] == ':' then "__" + ExpandColons(s[1..])
    else [s[0]] + ExpandColons(s[1..])
  }

  /** A key without `__` is left as written. */
  lemma {:induction false} ReplaceWithoutDoubleUnderscore(s: string)
    requires NoDoubleUnderscore(s)
    ensures ReplaceDoubleUnderscore(s) == s
  {
    if |s| > 0 {
      assert NoDoubleUnderscore(s[1..]);
      ReplaceWithoutDoubleUnderscore(s[1..]);
    }
  }

  /** Normalising a normalised key changes nothing. */
  lemma ReplaceIdempotent(s: string)
    ensures ReplaceDoubleUnderscore(ReplaceDoubleUnderscore(s)) == ReplaceDoubleUnderscore(s)
  {
    ReplaceWithoutDoubleUnderscore(ReplaceDoubleUnderscore(s));
  }

  /** For a flat key without `:`, writing each `:` of its normalised form back
      as `__` recovers the key: no character is lost or reordered. */
  lemma {:induction false} ExpandAfterReplace(s: string)
    requires ':' !in s
    ensures ExpandColons(ReplaceDoubleUnderscore(s)) == s
  {
    if |s| >= 2 && s[0] == '_' && s[1] == '_' {
      assert ':' !in s[2..];
      ExpandAfterReplace(s[2..]);
      assert s == "__" + s[2..];
    } else if |s| > 0 {
      assert ':' !in s[1..];
      ExpandAfterReplace(s[1..]);
      assert s == [s[0]] + s[1..];
    }
  }

  // ---------------------------------------------------------------------------
  // One line
  // ---------------------------------------------------------------------------

  /** A key as the parser produces it: not empty, free of `=`, and already in
      normalised form. */
  predicate ValidKey(k: string)
  {
    |k| > 0 && '=' !in k && NoDoubleUnderscore(k)
  }

  /** The body of the loop in `Load` for one raw line: `None` where the loop
      `continue`s, otherwise the entry it stores. A line is skipped exactly
      when, once trimmed, it is empty, is a `#` comment, has no `=`, or starts
      with `=`; every entry it yields has a valid key. */
  function ParseLine(line: string): (r: Option<Entry>)
    ensures var t := Trim(line);
      r.None? <==> (|t| == 0 || t[0] == '#' || '=' !in t || t[0] == '=')
    ensures r.Some? ==> ValidKey(r.value.key)
  {
    var trimmed := Trim(line);
    if IsBlank(trimmed) || StartsWith(trimmed, '#') then None
    else
      var separator := IndexOf(trimmed, '=');
      if separator <= 0 then None
      else
        var key := Trim(trimmed[..separator]);
        var value := StripQuotes(Trim(trimmed[separator + 1..]));
        KeyIsValid(trimmed, separator);
        Some(Entry(ReplaceDoubleUnderscore(key), value))
  }

  /** The key cut out of a trimmed line before its first `=` survives trimming
      and normalisation as a valid key. */
  lemma KeyIsValid(t: string, separator: int)
    requires Trimmed(t) && 0 < separator < |t|
    requires '=' !in t[..separator]
    ensures ValidKey(ReplaceDoubleUnderscore(Trim(t[..separator])))
  {
    var raw := t[..separator];
    TrimKeepsNonWhitespace(raw, 0);
    if '=' in Trim(raw) {
      TrimContents(raw, '=');
    }
    ReplaceKeepsOtherChars(Trim(raw), '=');
  }

  /** Slices of a prefix are slices of the whole. */
  lemma PrefixSlices(v: string, n: int, i: int, j: int)
    requires 0 <= i <= j <= n <= |v|
    ensures v[..n][..i] == v[..i] && v[..n][i..j] == v[i..j]
  {
  }

  /** White space after `j` in a prefix, followed by white space after the
      prefix, is white space after `j` in the whole. */
  lemma BlankBeyondPrefix(v: string, n: int, j: int)
    requires 0 <= j <= n <= |v| && IsBlank(v[..n][j..]) && IsBlank(v[n..])
    ensures IsBlank(v[j..])
  {
    forall k | j <= k < |v|
      ensures IsWhitespace(v[k])
    {
      if k < n {
        assert v[..n][j..][k - j] == v[k];
      } else {
        assert v[n..][k - n] == v[k];
      }
    }
  }

  /** Dropping trailing white space does not change the trim. */
  lemma TrimIgnoresBlankSuffix(v: string, n: int)
    requires 0 <= n <= |v| && IsBlank(v[n..])
    ensures Trim(v[..n]) == Trim(v)
  {
    var u := v[..n];
    var i := Lead(u);
    var j := i + |Trim(u)|;
    PrefixSlices(v, n, i, j);
    BlankBeyondPrefix(v, n, j);
    TrimUnique(v, i, j);
  }

  /** Trimming `k=v` for a key part that starts with a non-white-space
      character removes only trailing white space of `v`. */
  lemma TrimKeyValueLine(k: string, v: string) returns (n: int)
    requires |k| > 0 && !IsWhitespace(k[0])
    ensures 0 <= n <= |v| && IsBlank(v[n..])
    ensures Trim(k + "=" + v) == k + "=" + v[..n]
  {
    var line := k + "=" + v;
    var t := Trim(line);
    assert line[0] == k[0] && line[|k|] == '=';
    n := |t| - |k| - 1;
    assert v[n..] == line[|t|..];
    assert t == line[..|t|];
    assert line[..|t|] == k + "=" + v[..n];
  }

  /** A line whose trimmed form has its first `=` at `separator > 0` is split
      there. */
  lemma ParseAtSeparator(line: string, separator: int)
    requires var t := Trim(line);
      && 0 < separator < |t| && t[0] != '#' && t[separator] == '=' && '=' !in t[..separator]
    ensures var t := Trim(line);
      ParseLine(line) == Some(Entry(ReplaceDoubleUnderscore(Trim(t[..separator])), StripQuotes(Trim(t[separator + 1..]))))
  {
    var t := Trim(line);
    assert IndexOf(t, '=') == separator;
    assert !IsBlank(t) by {
      BlankTrimmedIsEmpty(t);
    }
  }

  /** A line `k=v` whose key part is already trimmed splits at the `=` after
      `k`: the key is `k` normalised, and the value is the trimmed,
      quote-stripped rest of the line, later `=` characters included. */
  lemma ParseKeyValue(k: string, v: string)
    requires |k| > 0 && Trimmed(k) && k[0] != '#' && '=' !in k
    ensures ParseLine(k + "=" + v) == Some(Entry(ReplaceDoubleUnderscore(k), StripQuotes(Trim(v))))
  {
    var n := TrimKeyValueLine(k, v);
    var t := k + "=" + v[..n];
    assert t[|k|] == '=' && t[..|k|] == k && t[|k| + 1..] == v[..n];
    ParseAtSeparator(k + "=" + v, |k|);
    TrimOfTrimmed(k);
    TrimIgnoresBlankSuffix(v, n);
  }

  /** `KEY=` stores the empty value under `KEY`. */
  lemma ParseEmptyValue(k: string)
    requires |k| > 0 && Trimmed(k) && k[0] != '#' && '=' !in k
    ensures ParseLine(k + "=") == Some(Entry(ReplaceDoubleUnderscore(k), ""))
  {
    var line := k + "=";
    assert line == k + "=" + "";
    TrimOfTrimmed("");
    ParseKeyValue(k, "");
  }

  /** The line the file format uses for an entry: the key, `=`, and the value in
      double quotes. */
  function Render(e: Entry): string
  {
    e.key + "=" + Quote('"', e.value)
  }

  /** Rendering an entry and parsing the line gives the entry back, for any
      value and for every key that is trimmed, does not start with `#` and is
      a valid key. */
  lemma ParseRender(e: Entry)
    requires ValidKey(e.key) && Trimmed(e.key) && e.key[0] != '#'
    ensures ParseLine(Render(e)) == Some(e)
  {
    var quoted := Quote('"', e.value);
    TrimOfTrimmed(quoted);
    StripQuotesOfQuote('"', e.value);
    ReplaceWithoutDoubleUnderscore(e.key);
    assert Entry(ReplaceDoubleUnderscore(e.key), StripQuotes(Trim(quoted))) == e;
    ParseKeyValue(e.key, quoted);
  }
}
