/** String helpers shared by the model: Python's whitespace set, `strip`, `split()`/`join`,
    `str.replace(pat, "")`, `str.split(ch)`/`ch.join`, and ASCII case mapping. */
module Text {

  /** The characters for which Python's `str.isspace()` holds; `str.split()`, `str.strip()`
      and the regex class `\s` all use this set. */
  const Whitespace: set<char> := {
    ' ', '\t', '\n', '\r', '\U{0B}', '\U{0C}', '\U{1C}', '\U{1D}', '\U{1E}', '\U{1F}',
    '\U{85}', '\U{A0}', '\U{1680}', '\U{2000}', '\U{2001}', '\U{2002}', '\U{2003}',
    '\U{2004}', '\U{2005}', '\U{2006}', '\U{2007}', '\U{2008}', '\U{2009}', '\U{200A}',
    '\U{2028}', '\U{2029}', '\U{202F}', '\U{205F}', '\U{3000}'
  }

  // ---------------------------------------------------------------------------
  // Prefixes, suffixes, substrings
  // ---------------------------------------------------------------------------

  predicate StartsWith(s: string, p: string) {
    |p| <= |s| && s[..|p|] == p
  }

  predicate EndsWith(s: string, p: string) {
    |p| <= |s| && s[|s| - |p|..] == p
  }

  /** `p in s` for strings. */
  predicate Contains(s: string, p: string)
    decreases |s|
  {
    StartsWith(s, p) || (|s| > 0 && Contains(s[1..], p))
  }

  lemma ContainsAt(s: string, p: string, i: nat)
    requires i + |p| <= |s| && s[i..i + |p|] == p
    ensures Contains(s, p)
    decreases i
  {
    if i > 0 {
      assert s[1..][i - 1..i - 1 + |p|] == s[i..i + |p|];
      ContainsAt(s[1..], p, i - 1);
    } else {
      assert s[..|p|] == p;
    }
  }

  // ---------------------------------------------------------------------------
  // Trimming (`lstrip`, `rstrip`, `strip` with an explicit character set)
  // ---------------------------------------------------------------------------

  /** `s.lstrip(cs)`. */
  function TrimLeft(s: string, cs: set<char>): (r: string)
    ensures |r| <= |s|
    decreases |s|
  {
    if |s| > 0 && s[0] in cs then TrimLeft(s[1..], cs) else s
  }

  /** `s.rstrip(cs)`. */
  function TrimRight(s: string, cs: set<char>): (r: string)
    ensures |r| <= |s|
    decreases |s|
  {
    if |s| > 0 && s[|s| - 1] in cs then TrimRight(s[..|s| - 1], cs) else s
  }

  /** `s.strip(cs)`. */
  function Trim(s: string, cs: set<char>): string {
    TrimRight(TrimLeft(s, cs), cs)
  }

  /** Left trimming removes a prefix made of `cs` characters and stops at the first
      other character. */
  lemma {:induction false} TrimLeftSpec(s: string, cs: set<char>)
    ensures TrimLeft(s, cs) == s[|s| - |TrimLeft(s, cs)|..]
      && (TrimLeft(s, cs) == [] || TrimLeft(s, cs)[0] !in cs)
      && forall i | 0 <= i < |s| - |TrimLeft(s, cs)| :: s[i] in cs
    decreases |s|
  {
    if |s| > 0 && s[0] in cs {
      TrimLeftSpec(s[1..], cs);
    }
  }

  /** Right trimming removes a suffix made of `cs` characters and stops at the last
      other character. */
  lemma {:induction false} TrimRightSpec(s: string, cs: set<char>)
    ensures TrimRight(s, cs) == s[..|TrimRight(s, cs)|]
      && (TrimRight(s, cs) == [] || TrimRight(s, cs)[|TrimRight(s, cs)| - 1] !in cs)
      && forall i | |TrimRight(s, cs)| <= i < |s| :: s[i] in cs
    decreases |s|
  {
    if |s| > 0 && s[|s| - 1] in cs {
      TrimRightSpec(s[..|s| - 1], cs);
    }
  }

  /** Neither end of a trimmed string is in `cs`. */
  lemma TrimSpec(s: string, cs: set<char>)
    ensures Trim(s, cs) == [] || (Trim(s, cs)[0] !in cs && Trim(s, cs)[|Trim(s, cs)| - 1] !in cs)
  {
    var l := TrimLeft(s, cs);
    TrimLeftSpec(s, cs);
    TrimRightSpec(l, cs);
    var r := TrimRight(l, cs);
    if r != [] {
      assert r[0] == l[0];
    }
  }

  /** Trimming keeps the slice of `s` between two runs of `cs` characters. */
  lemma TrimBounds(s: string, cs: set<char>) returns (i: nat, j: nat)
    ensures i <= j <= |s| && Trim(s, cs) == s[i..j]
    ensures forall k | 0 <= k < i :: s[k] in cs
    ensures forall k | j <= k < |s| :: s[k] in cs
  {
    var l := TrimLeft(s, cs);
    TrimLeftSpec(s, cs);
    TrimRightSpec(l, cs);
    i := |s| - |l|;
    j := i + |TrimRight(l, cs)|;
    forall k | j <= k < |s|
      ensures s[k] in cs
    {
      assert s[k] == l[k - i];
    }
  }

  function Strip(s: string): string { Trim(s, Whitespace) }

  function RStrip(s: string): string { TrimRight(s, Whitespace) }

  function LStrip(s: string): string { TrimLeft(s, Whitespace) }

  predicate IsBlank(s: string) { Strip(s) == [] }

  lemma TrimUnchanged(s: string, cs: set<char>)
    requires s == [] || (s[0] !in cs && s[|s| - 1] !in cs)
    ensures Trim(s, cs) == s
  {
  }

  /** A string is blank exactly when every character is whitespace. */
  lemma BlankIffAllSpace(s: string)
    ensures IsBlank(s) <==> forall i | 0 <= i < |s| :: s[i] in Whitespace
  {
    var l := TrimLeft(s, Whitespace);
    TrimLeftSpec(s, Whitespace);
    TrimRightSpec(l, Whitespace);
    if l != [] {
      assert s[|s| - |l|] == l[0];
    }
  }

  // ---------------------------------------------------------------------------
  // ASCII character classes and case mapping
  // ---------------------------------------------------------------------------

  predicate IsAsciiUpper(c: char) { 'A' <= c <= 'Z' }
  predicate IsAsciiLower(c: char) { 'a' <= c <= 'z' }
  predicate IsAsciiDigit(c: char) { '0' <= c <= '9' }
  predicate IsAsciiAlnum(c: char) { IsAsciiUpper(c) || IsAsciiLower(c) || IsAsciiDigit(c) }
  predicate IsAscii(c: char) { c as int < 128 }

  /** Regex `\w` restricted to ASCII: letters, digits and underscore. */
  predicate IsWordChar(c: char) { IsAsciiAlnum(c) || c == '_' }

  function LowerChar(c: char): (r: char)
    ensures !IsAsciiUpper(r)
    ensures IsAsciiUpper(c) ==> IsAsciiLower(r)
    ensures !IsAsciiUpper(c) ==> r == c
  {
    if IsAsciiUpper(c) then (c as int + 32) as char else c
  }

  function Lower(s: string): (r: string)
    ensures |r| == |s|
    ensures forall i | 0 <= i < |s| :: r[i] == LowerChar(s[i])
  {
    seq(|s|, i requires 0 <= i < |s| => LowerChar(s[i]))
  }

  lemma LowerIdempotent(s: string)
    ensures Lower(Lower(s)) == Lower(s)
  {
  }

  lemma LowerConcat(a: string, b: string)
    ensures Lower(a + b) == Lower(a) + Lower(b)
  {
  }

  /** Python's NFKD-then-`encode('ascii', 'ignore')`, with the decomposition step left out:
      every non-ASCII character is dropped. */
  function AsciiFold(s: string): (r: string)
    ensures |r| <= |s|
    ensures forall i | 0 <= i < |r| :: IsAscii(r[i])
    decreases |s|
  {
    if s == [] then []
    else if IsAscii(s[0]) then [s[0]] + AsciiFold(s[1..])
    else AsciiFold(s[1..])
  }

  lemma {:induction false} AsciiFoldKeepsAscii(s: string)
    requires forall i | 0 <= i < |s| :: IsAscii(s[i])
    ensures AsciiFold(s) == s
    decreases |s|
  {
    if s != [] {
      assert forall i | 0 <= i < |s[1..]| :: s[1..][i] == s[i + 1];
      AsciiFoldKeepsAscii(s[1..]);
    }
  }

  /** Lower-casing changes nothing in a string without upper-case letters. */
  lemma LowerKeepsLower(s: string)
    requires forall i | 0 <= i < |s| :: !IsAsciiUpper(s[i])
    ensures Lower(s) == s
  {
  }

  // ---------------------------------------------------------------------------
  // `str.replace(pat, "")`
  // ---------------------------------------------------------------------------

  /** Removes the occurrences of `pat` found scanning left to right without overlap. */
  function RemoveAll(s: string, pat: string): (r: string)
    requires |pat| > 0
    ensures |r| <= |s|
    decreases |s|
  {
    if s == [] then []
    else if StartsWith(s, pat) then RemoveAll(s[|pat|..], pat)
    else [s[0]] + RemoveAll(s[1..], pat)
  }

  lemma {:induction false} RemoveAllAbsent(s: string, pat: string)
    requires |pat| > 0 && !Contains(s, pat)
    ensures RemoveAll(s, pat) == s
    decreases |s|
  {
    if s != [] {
      RemoveAllAbsent(s[1..], pat);
    }
  }

  // ---------------------------------------------------------------------------
  // `str.split()` and `" ".join(...)`
  // ---------------------------------------------------------------------------

  /** A field of `str.split()`: non-empty and free of whitespace. */
  predicate IsWord(w: string) {
    |w| > 0 && forall i | 0 <= i < |w| :: w[i] !in Whitespace
  }

  function WordEnd(s: string, i: nat): (k: nat)
    requires i <= |s|
    ensures i <= k <= |s|
    ensures forall j | i <= j < k :: s[j] !in Whitespace
    ensures k == |s| || s[k] in Whitespace
    decreases |s| - i
  {
    if i == |s| || s[i] in Whitespace then i else WordEnd(s, i + 1)
  }

  /** Python's `s.split()`: the maximal whitespace-free runs of `s`, in order. */
  function Words(s: string): (ws: seq<string>)
    ensures forall i | 0 <= i < |ws| :: IsWord(ws[i])
    decreases |s|
  {
    if s == [] then []
    else if s[0] in Whitespace then Words(s[1..])
    else
      var k := WordEnd(s, 1);
      [s[..k]] + Words(s[k..])
  }

  function JoinWith(sep: string, ws: seq<string>): string
    decreases |ws|
  {
    if |ws| == 0 then []
    else if |ws| == 1 then ws[0]
    else ws[0] + sep + JoinWith(sep, ws[1..])
  }

  /** Whitespace only as single spaces between two non-whitespace characters. */
  predicate Normalized(r: string) {
    forall i | 0 <= i < |r| && r[i] in Whitespace ::
      r[i] == ' ' && 0 < i && i + 1 < |r| && r[i - 1] !in Whitespace && r[i + 1] !in Whitespace
  }

  /** `" ".join(s.split())`. */
  function CollapseSpaces(s: string): string {
    JoinWith(" ", Words(s))
  }

  lemma {:induction false} WordEndOfWord(w: string, t: string, i: nat)
    requires IsWord(w) && 1 <= i <= |w|
    requires t == [] || t[0] in Whitespace
    ensures WordEnd(w + t, i) == |w|
    decreases |w| - i
  {
    if i < |w| {
      WordEndOfWord(w, t, i + 1);
    }
  }

  lemma WordsOfWordThen(w: string, t: string)
    requires IsWord(w)
    requires t == [] || t[0] in Whitespace
    ensures Words(w + t) == [w] + Words(t)
  {
    WordEndOfWord(w, t, 1);
    assert (w + t)[..|w|] == w;
    assert (w + t)[|w|..] == t;
  }

  /** Splitting a space-joined list of words gives the words back. */
  lemma {:induction false} WordsJoinRoundTrip(ws: seq<string>)
    requires forall i | 0 <= i < |ws| :: IsWord(ws[i])
    ensures Words(JoinWith(" ", ws)) == ws
    decreases |ws|
  {
    if |ws| == 1 {
      WordsOfWordThen(ws[0], []);
      assert ws[0] + [] == ws[0];
    } else if |ws| > 1 {
      var rest := JoinWith(" ", ws[1..]);
      assert JoinWith(" ", ws) == ws[0] + (" " + rest);
      WordsOfWordThen(ws[0], " " + rest);
      assert (" " + rest)[1..] == rest;
      WordsJoinRoundTrip(ws[1..]);
    }
  }

  lemma {:induction false} JoinNormalized(ws: seq<string>)
    requires forall i | 0 <= i < |ws| :: IsWord(ws[i])
    ensures Normalized(JoinWith(" ", ws))
    ensures |ws| > 0 ==> |JoinWith(" ", ws)| > 0
    ensures |ws| > 0 ==> JoinWith(" ", ws)[0] !in Whitespace
    decreases |ws|
  {
    if |ws| > 1 {
      JoinNormalized(ws[1..]);
      var w := ws[0];
      var rest := JoinWith(" ", ws[1..]);
      var r := w + " " + rest;
      assert r == JoinWith(" ", ws);
      forall i | 0 <= i < |r| && r[i] in Whitespace
        ensures r[i] == ' ' && 0 < i && i + 1 < |r| && r[i - 1] !in Whitespace && r[i + 1] !in Whitespace
      {
        if i > |w| {
          assert r[i] == rest[i - |w| - 1];
          if i - |w| - 1 > 0 {
            assert r[i - 1] == rest[i - |w| - 2];
          }
        }
      }
    }
  }

  /** The result of collapsing keeps exactly the words of the input. */
  lemma CollapseKeepsWords(s: string)
    ensures Words(CollapseSpaces(s)) == Words(s)
    ensures Normalized(CollapseSpaces(s))
  {
    WordsJoinRoundTrip(Words(s));
    JoinNormalized(Words(s));
  }

  lemma CollapseIdempotent(s: string)
    ensures CollapseSpaces(CollapseSpaces(s)) == CollapseSpaces(s)
  {
    CollapseKeepsWords(s);
  }

  lemma NormalizedStripped(r: string)
    requires Normalized(r)
    ensures Strip(r) == r
  {
    if r != [] {
      assert r[0] !in Whitespace;
      assert r[|r| - 1] !in Whitespace;
    }
    TrimUnchanged(r, Whitespace);
  }

  lemma {:induction false} WordsTrimLeft(s: string)
    ensures Words(TrimLeft(s, Whitespace)) == Words(s)
    decreases |s|
  {
    if |s| > 0 && s[0] in Whitespace {
      WordsTrimLeft(s[1..]);
    }
  }

  lemma {:induction false} WordsAllSpace(w: string)
    requires forall i | 0 <= i < |w| :: w[i] in Whitespace
    ensures Words(w) == []
    decreases |w|
  {
    if w != [] {
      WordsAllSpace(w[1..]);
    }
  }

  lemma {:induction false} WordEndAppendSpace(x: string, w: string, i: nat)
    requires i <= |x|
    requires forall j | 0 <= j < |w| :: w[j] in Whitespace
    ensures WordEnd(x + w, i) == WordEnd(x, i)
    decreases |x| - i
  {
    if i < |x| && x[i] !in Whitespace {
      WordEndAppendSpace(x, w, i + 1);
    }
  }

  /** Trailing whitespace does not change the words of a string. */
  lemma {:induction false} WordsAppendSpace(x: string, w: string)
    requires forall j | 0 <= j < |w| :: w[j] in Whitespace
    ensures Words(x + w) == Words(x)
    decreases |x|
  {
    if x == [] {
      assert x + w == w;
      WordsAllSpace(w);
    } else if x[0] in Whitespace {
      assert (x + w)[1..] == x[1..] + w;
      WordsAppendSpace(x[1..], w);
    } else {
      WordEndAppendSpace(x, w, 1);
      var k := WordEnd(x, 1);
      assert (x + w)[..k] == x[..k];
      assert (x + w)[k..] == x[k..] + w;
      WordsAppendSpace(x[k..], w);
    }
  }

  /** `strip()` does not change the words of a string. */
  lemma WordsStrip(s: string)
    ensures Words(Strip(s)) == Words(s)
  {
    var l := TrimLeft(s, Whitespace);
    WordsTrimLeft(s);
    WordsTrimRight(l);
    assert Strip(s) == TrimRight(l, Whitespace);
  }

  lemma WordsTrimRight(l: string)
    ensures Words(TrimRight(l, Whitespace)) == Words(l)
  {
    var r := TrimRight(l, Whitespace);
    TrimRightSpec(l, Whitespace);
    var k := |r|;
    var w := l[k..];
    assert l[..k] + w == l;
    forall j | 0 <= j < |w|
      ensures w[j] in Whitespace
    {
      assert w[j] == l[k + j];
    }
    WordsAppendSpace(r, w);
  }

  // ---------------------------------------------------------------------------
  // `s.split(d)` and `d.join(parts)` for a one-character separator
  // ---------------------------------------------------------------------------

  /** Python's `s.split(d)`: never empty; `k` separators give `k + 1` parts. */
  function SplitOn(s: string, d: char): (parts: seq<string>)
    ensures |parts| >= 1
    ensures forall i | 0 <= i < |parts| :: d !in parts[i]
    decreases |s|
  {
    if s == [] then [[]]
    else
      var rest := SplitOn(s[1..], d);
      if s[0] == d then [[]] + rest
      else [[s[0]] + rest[0]] + rest[1..]
  }

  function JoinOn(d: char, parts: seq<string>): string
    requires |parts| >= 1
    decreases |parts|
  {
    if |parts| == 1 then parts[0] else parts[0] + [d] + JoinOn(d, parts[1..])
  }

  /** Number of occurrences of `c` in `s`. */
  function CountChar(s: string, c: char): nat
    decreases |s|
  {
    if s == [] then 0 else (if s[0] == c then 1 else 0) + CountChar(s[1..], c)
  }

  lemma CountCharConcat(a: string, b: string, c: char)
    ensures CountChar(a + b, c) == CountChar(a, c) + CountChar(b, c)
    decreases |a|
  {
    if a != [] {
      assert (a + b)[0] == a[0];
      assert (a + b)[1..] == a[1..] + b;
      CountCharConcat(a[1..], b, c);
    } else {
      assert a + b == b;
    }
  }

  lemma CountCharAbsent(s: string, c: char)
    requires c !in s
    ensures CountChar(s, c) == 0
    decreases |s|
  {
    if s != [] {
      CountCharAbsent(s[1..], c);
    }
  }

  /** Joining the parts of a split gives back the original string. */
  lemma {:induction false} JoinSplit(s: string, d: char)
    ensures JoinOn(d, SplitOn(s, d)) == s
    decreases |s|
  {
    if s != [] {
      JoinSplit(s[1..], d);
      var rest := SplitOn(s[1..], d);
      if s[0] == d {
        assert SplitOn(s, d)[1..] == rest;
        assert s == [d] + s[1..];
      } else {
        var p := SplitOn(s, d);
        if |rest| == 1 {
          assert p == [[s[0]] + rest[0]];
          assert s == [s[0]] + s[1..];
        } else {
          assert p[1..] == rest[1..];
          assert JoinOn(d, rest) == rest[0] + [d] + JoinOn(d, rest[1..]);
          assert s == [s[0]] + s[1..];
        }
      }
    }
  }

  lemma {:induction false} SplitPrefixPart(w: string, t: string, d: char)
    requires d !in w
    ensures SplitOn(w + t, d) == [w + SplitOn(t, d)[0]] + SplitOn(t, d)[1..]
    decreases |w|
  {
    if w != [] {
      assert (w + t)[1..] == w[1..] + t;
      SplitPrefixPart(w[1..], t, d);
      assert [w[0]] + (w[1..] + SplitOn(t, d)[0]) == w + SplitOn(t, d)[0];
    } else {
      var p := SplitOn(t, d);
      assert w + t == t;
      assert w + p[0] == p[0];
      assert [p[0]] + p[1..] == p;
    }
  }

  /** Splitting joined separator-free parts gives the parts back. */
  lemma {:induction false} SplitJoin(parts: seq<string>, d: char)
    requires |parts| >= 1
    requires forall i | 0 <= i < |parts| :: d !in parts[i]
    ensures SplitOn(JoinOn(d, parts), d) == parts
    decreases |parts|
  {
    if |parts| == 1 {
      SplitPrefixPart(parts[0], [], d);
      assert parts[0] + [] == parts[0];
    } else {
      SplitJoin(parts[1..], d);
      var t := [d] + JoinOn(d, parts[1..]);
      assert JoinOn(d, parts) == parts[0] + t;
      SplitPrefixPart(parts[0], t, d);
      assert t[1..] == JoinOn(d, parts[1..]);
      assert SplitOn(t, d) == [[]] + parts[1..];
      assert parts[0] + [] == parts[0];
    }
  }

  /** `s.split(d)` has one more part than `s` has separators. */
  lemma {:induction false} SplitCount(s: string, d: char)
    ensures |SplitOn(s, d)| == CountChar(s, d) + 1
    decreases |s|
  {
    if s != [] {
      SplitCount(s[1..], d);
    }
  }
}
