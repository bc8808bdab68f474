/** The markdown clean-up applied before a page is saved: header spacing, tab expansion
    and trailing-space removal, collapsing runs of blank lines, the final strip, and the
    two structural checks on code fences and table rows. Every pass works line by line on
    `content.split('\n')` and joins the lines back with `'\n'`. */
module MarkdownSanitizer {
  import opened Wrappers
  import opened Text
  import opened Seqs

  const Newline: char := '\n'

  /** `content.split('\n')`. */
  function Lines(s: string): (ls: seq<string>)
    ensures |ls| >= 1
  {
    SplitOn(s, Newline)
  }

  /** `'\n'.join(lines)`. */
  function Unlines(ls: seq<string>): string
    requires |ls| >= 1
  {
    JoinOn(Newline, ls)
  }

  /** `'\n'.join(f(line) for line in content.split('\n'))`. */
  function MapLines(s: string, f: string -> string): string {
    Unlines(Map(Lines(s), f))
  }

  /** Splitting at a newline splits the list of lines there. */
  lemma {:induction false} LinesConcat(a: string, b: string)
    ensures Lines(a + [Newline] + b) == Lines(a) + Lines(b)
    decreases |a|
  {
    if a == [] {
      assert a + [Newline] + b == [Newline] + b;
      assert ([Newline] + b)[1..] == b;
    } else {
      assert (a + [Newline] + b)[1..] == a[1..] + [Newline] + b;
      LinesConcat(a[1..], b);
      var x := Lines(a[1..]);
      if a[0] != Newline {
        assert (x + Lines(b))[0] == x[0];
        assert (x + Lines(b))[1..] == x[1..] + Lines(b);
      }
    }
  }

  /** A character absent from a string is absent from each of its lines. */
  lemma {:induction false} LinesAvoid(s: string, c: char)
    requires c !in s
    ensures forall i | 0 <= i < |Lines(s)| :: c !in Lines(s)[i]
    decreases |s|
  {
    if s != [] {
      assert c !in s[1..];
      LinesAvoid(s[1..], c);
      var rest := SplitOn(s[1..], Newline);
      var ls := SplitOn(s, Newline);
      assert rest == Lines(s[1..]) && ls == Lines(s);
      assert c != s[0];
      if s[0] != Newline {
        assert ls == [[s[0]] + rest[0]] + rest[1..];
        assert forall i | 1 <= i < |ls| :: ls[i] == rest[i];
        assert c !in [s[0]] + rest[0];
      } else {
        assert forall i | 1 <= i < |ls| :: ls[i] == rest[i - 1];
      }
    }
  }

  /** A character absent from every line (and not the newline) is absent from the join. */
  lemma {:induction false} UnlinesAvoid(ls: seq<string>, c: char)
    requires |ls| >= 1 && c != Newline
    requires forall i | 0 <= i < |ls| :: c !in ls[i]
    ensures c !in Unlines(ls)
    decreases |ls|
  {
    if |ls| > 1 {
      UnlinesAvoid(ls[1..], c);
    }
  }

  /** When `f` never introduces a newline, the lines of the mapped text are the mapped
      lines: the line count is kept and line `i` of the result is `f` of line `i`. */
  lemma LinesOfMapLines(s: string, f: string -> string)
    requires forall i | 0 <= i < |Lines(s)| :: Newline !in f(Lines(s)[i])
    ensures Lines(MapLines(s, f)) == Map(Lines(s), f)
  {
    SplitJoin(Map(Lines(s), f), Newline);
  }

  // ---------------------------------------------------------------------------
  // Headers: a space after the leading `#` run
  // ---------------------------------------------------------------------------

  /** Length of the run of `#` that starts the string. */
  function HashRun(s: string): (n: nat)
    ensures n <= |s|
    ensures forall j | 0 <= j < n :: s[j] == '#'
    ensures n == |s| || s[n] != '#'
    decreases |s|
  {
    if s != [] && s[0] == '#' then 1 + HashRun(s[1..]) else 0
  }

  lemma {:induction false} HashRunOf(p: string, x: string)
    requires forall j | 0 <= j < |p| :: p[j] == '#'
    requires x == [] || x[0] != '#'
    ensures HashRun(p + x) == |p|
    decreases |p|
  {
    if p == [] {
      assert p + x == x;
    } else {
      assert (p + x)[1..] == p[1..] + x;
      HashRunOf(p[1..], x);
    }
  }

  /** Left trimming skips a prefix made only of trimmed characters. */
  lemma {:induction false} TrimLeftPast(w: string, x: string, cs: set<char>)
    requires forall j | 0 <= j < |w| :: w[j] in cs
    requires x == [] || x[0] !in cs
    ensures TrimLeft(w + x, cs) == x
    decreases |w|
  {
    if w == [] {
      assert w + x == x;
    } else {
      assert (w + x)[1..] == w[1..] + x;
      TrimLeftPast(w[1..], x, cs);
    }
  }

  /** The stripped line starts with `#`. */
  predicate IsHeaderLine(line: string) {
    StartsWith(Strip(line), "#")
  }

  /** After the indentation, the `#` run is followed by a space or by nothing. */
  predicate SpacedHeader(line: string) {
    var a := LStrip(line);
    HashRun(a) == |a| || a[HashRun(a)] == ' '
  }

  /** The stripped line is a prefix of the left-stripped line. */
  lemma StripPrefixOfLStrip(line: string)
    ensures Strip(line) == LStrip(line)[..|Strip(line)|]
  {
    TrimRightSpec(LStrip(line), Whitespace);
  }

  /** One line of the header pass: a line whose stripped form starts with `#` but not with
      `# ` is split into its indentation, its `#` run and the rest; when the rest is
      non-empty and does not start with a space, the line becomes the indentation, the run,
      one space and the rest left-stripped. */
  function FixHeaderLine(line: string): (r: string)
    ensures !IsHeaderLine(line) ==> r == line
    ensures IsHeaderLine(line) ==> SpacedHeader(r)
    ensures IsHeaderLine(line) && !SpacedHeader(line) ==>
      var a := LStrip(line);
      r == line[..|line| - |a|] + a[..HashRun(a)] + " " + LStrip(a[HashRun(a)..])
    ensures Newline !in line ==> Newline !in r
  {
    var body := Strip(line);
    if StartsWith(body, "#") && !StartsWith(body, "# ") then
      var after := LStrip(line);
      var n := |line| - |after|;
      var h := HashRun(after);
      var rest := after[h..];
      HeaderLineFacts(line);
      TrimLeftSpec(line, Whitespace);
      if rest != [] && rest[0] != ' ' then
        var r := line[..n] + after[..h] + " " + LStrip(rest);
        assert forall c | c in rest :: c in line;
        HeaderFixed(line, after, n, h, rest, r);
        r
      else
        line
    else
      HeaderLineFacts(line);
      line
  }

  /** The first characters of the stripped line are those of the left-stripped line. */
  lemma HeaderLineFacts(line: string)
    ensures IsHeaderLine(line) ==> LStrip(line) != [] && LStrip(line)[0] == '#'
    ensures StartsWith(Strip(line), "# ") ==> |LStrip(line)| >= 2 && LStrip(line)[..2] == "# "
  {
    StripPrefixOfLStrip(line);
  }

  lemma HeaderFixed(line: string, after: string, n: nat, h: nat, rest: string, r: string)
    requires after == LStrip(line) && n == |line| - |after| && after == line[n..]
    requires forall i | 0 <= i < n :: line[i] in Whitespace
    requires after != [] && after[0] == '#'
    requires h == HashRun(after) && rest == after[h..] && rest != []
    requires r == line[..n] + after[..h] + " " + LStrip(rest)
    ensures SpacedHeader(r)
    ensures Newline !in line ==> Newline !in r
  {
    var x := after[..h] + (" " + LStrip(rest));
    assert r == line[..n] + x;
    HashRunAfterFix(after[..h], LStrip(rest));
    TrimLeftPast(line[..n], x, Whitespace);
    if Newline !in line {
      FixedChars(line, n, after[..h], rest);
    }
  }

  lemma HashRunAfterFix(hashes: string, text: string)
    requires hashes != [] && forall j | 0 <= j < |hashes| :: hashes[j] == '#'
    ensures HashRun(hashes + (" " + text)) == |hashes|
    ensures (hashes + (" " + text))[|hashes|] == ' '
    ensures (hashes + (" " + text))[0] !in Whitespace
  {
    HashRunOf(hashes, " " + text);
  }

  lemma FixedChars(line: string, n: nat, hashes: string, rest: string)
    requires n <= |line| && Newline !in line
    requires forall j | 0 <= j < |hashes| :: hashes[j] == '#'
    requires forall c | c in rest :: c in line
    ensures Newline !in line[..n] + (hashes + (" " + LStrip(rest)))
  {
    TrimLeftSpec(rest, Whitespace);
    assert forall c | c in LStrip(rest) :: c in rest;
    assert forall c | c in line[..n] :: c in line;
  }

  /** A line whose `#` run is already followed by a space or nothing is left alone. */
  lemma SpacedHeaderUnchanged(line: string)
    requires SpacedHeader(line)
    ensures FixHeaderLine(line) == line
  {
  }

  lemma FixHeaderLineIdempotent(line: string)
    ensures FixHeaderLine(FixHeaderLine(line)) == FixHeaderLine(line)
  {
    if IsHeaderLine(line) {
      SpacedHeaderUnchanged(FixHeaderLine(line));
    }
  }

  /** The header pass over the whole text. */
  function FixHeaderFormatting(content: string): (r: string)
    ensures Lines(r) == Map(Lines(content), FixHeaderLine)
  {
    var r := MapLines(content, FixHeaderLine);
    LinesOfMapLines(content, FixHeaderLine);
    r
  }

  /** Applying the header pass twice is the same as applying it once. */
  lemma FixHeaderFormattingIdempotent(content: string)
    ensures FixHeaderFormatting(FixHeaderFormatting(content)) == FixHeaderFormatting(content)
  {
    var ls := Lines(content);
    var once := FixHeaderFormatting(content);
    forall i | 0 <= i < |ls|
      ensures FixHeaderLine(FixHeaderLine(ls[i])) == FixHeaderLine(ls[i])
    {
      FixHeaderLineIdempotent(ls[i]);
    }
    assert Map(Lines(once), FixHeaderLine) == Lines(once);
    JoinSplit(once, Newline);
  }

  // ---------------------------------------------------------------------------
  // Whitespace: `expandtabs(4)` then `rstrip` on every line
  // ---------------------------------------------------------------------------

  const TabSize: nat := 4

  function Spaces(k: nat): (r: string)
    ensures |r| == k && forall i | 0 <= i < k :: r[i] == ' '
  {
    seq(k, _ => ' ')
  }

  /** `str.expandtabs(4)` from column `col`: a tab becomes the spaces up to the next
      multiple of four, a newline or carriage return resets the column. */
  function ExpandTabsFrom(s: string, col: nat): (r: string)
    ensures '\t' !in r
    ensures CountChar(r, Newline) == CountChar(s, Newline)
    decreases |s|
  {
    if s == [] then []
    else
      var k := TabSize - col % TabSize;
      var c := if s[0] == '\t' then Spaces(k) else [s[0]];
      var next := if s[0] == '\t' then col + k else if s[0] == Newline || s[0] == '\r' then 0 else col + 1;
      var rest := ExpandTabsFrom(s[1..], next);
      CountCharConcat(c, rest, Newline);
      assert s == [s[0]] + s[1..];
      CountCharConcat([s[0]], s[1..], Newline);
      CountCharAbsent(Spaces(k), Newline);
      c + rest
  }

  /** Each tab moves to the next tab stop: the text between two tabs, without tabs or
      line breaks, comes out with the tab widened to a multiple of four. */
  lemma ExpandTabStop(col: nat, rest: string)
    ensures |ExpandTabsFrom(['\t'] + rest, col)| == TabSize - col % TabSize + |ExpandTabsFrom(rest, col + TabSize - col % TabSize)|
    ensures (col + TabSize - col % TabSize) % TabSize == 0
  {
    assert (['\t'] + rest)[1..] == rest;
  }

  /** Text without tabs is unchanged by tab expansion. */
  lemma {:induction false} ExpandTabsNoTab(s: string, col: nat)
    requires '\t' !in s
    ensures ExpandTabsFrom(s, col) == s
    decreases |s|
  {
    if s != [] {
      assert '\t' !in s[1..];
      assert ExpandTabsFrom(s[1..], if s[0] == Newline || s[0] == '\r' then 0 else col + 1) == s[1..] by {
        ExpandTabsNoTab(s[1..], if s[0] == Newline || s[0] == '\r' then 0 else col + 1);
      }
    }
  }

  /** Right-stripping is idempotent and never adds characters. */
  lemma RStripStripped(line: string)
    ensures RStrip(RStrip(line)) == RStrip(line)
    ensures RStrip(line) == line[..|RStrip(line)|]
  {
    TrimRightSpec(line, Whitespace);
  }

  /** Tab expansion, then every line right-stripped. */
  function NormalizeWhitespace(content: string): (r: string)
    ensures '\t' !in r
    ensures |Lines(r)| == |Lines(content)|
    ensures forall i | 0 <= i < |Lines(r)| :: Lines(r)[i] == [] || Lines(r)[i][|Lines(r)[i]| - 1] !in Whitespace
    ensures Lines(r) == Map(Lines(ExpandTabsFrom(content, 0)), RStrip)
  {
    var t := ExpandTabsFrom(content, 0);
    var ls := Lines(t);
    LinesAvoid(t, '\t');
    forall i | 0 <= i < |ls|
      ensures Newline !in RStrip(ls[i]) && '\t' !in RStrip(ls[i])
      ensures RStrip(ls[i]) == [] || RStrip(ls[i])[|RStrip(ls[i])| - 1] !in Whitespace
    {
      TrimRightSpec(ls[i], Whitespace);
      assert forall c | c in RStrip(ls[i]) :: c in ls[i];
    }
    LinesOfMapLines(t, RStrip);
    UnlinesAvoid(Map(ls, RStrip), '\t');
    SplitCount(t, Newline);
    SplitCount(content, Newline);
    MapLines(t, RStrip)
  }

  /** Normalizing twice is the same as normalizing once. */
  lemma NormalizeWhitespaceIdempotent(content: string)
    ensures NormalizeWhitespace(NormalizeWhitespace(content)) == NormalizeWhitespace(content)
  {
    var once := NormalizeWhitespace(content);
    ExpandTabsNoTab(once, 0);
    var t := ExpandTabsFrom(content, 0);
    var ls := Lines(t);
    LinesAvoid(t, '\t');
    forall i | 0 <= i < |ls|
      ensures Newline !in RStrip(ls[i])
    {
      TrimRightSpec(ls[i], Whitespace);
      assert forall c | c in RStrip(ls[i]) :: c in ls[i];
    }
    LinesOfMapLines(t, RStrip);
    assert Lines(once) == Map(ls, RStrip);
    forall i | 0 <= i < |ls|
      ensures RStrip(RStrip(ls[i])) == RStrip(ls[i])
    {
      RStripStripped(ls[i]);
    }
    assert Map(Lines(once), RStrip) == Lines(once);
    JoinSplit(once, Newline);
  }

  // ---------------------------------------------------------------------------
  // Blank lines: every run of three or more newlines becomes two
  // ---------------------------------------------------------------------------

  /** Three newlines in a row start at `i`. */
  predicate TripleAt(s: string, i: int) {
    0 <= i && i + 3 <= |s| && s[i] == Newline && s[i + 1] == Newline && s[i + 2] == Newline
  }

  /** No `\n{3,}` match anywhere. */
  predicate NoTriple(s: string) {
    forall i | 0 <= i < |s| :: !TripleAt(s, i)
  }

  predicate NotNewline(c: char) {
    c != Newline
  }

  function Newlines(n: nat): (r: string)
    ensures |r| == n && forall i | 0 <= i < n :: r[i] == Newline
  {
    seq(n, _ => Newline)
  }

  /** `re.sub(r'\n{3,}', '\n\n', s)` as a scan that remembers how many newlines it has
      just written (`run`, at most two) and drops the newlines beyond the second. */
  function CollapseFrom(s: string, run: nat): string
    decreases |s|
  {
    if s == [] then []
    else if s[0] != Newline then [s[0]] + CollapseFrom(s[1..], 0)
    else if run >= 2 then CollapseFrom(s[1..], run)
    else [Newline] + CollapseFrom(s[1..], run + 1)
  }

  /** A triple cannot straddle a character that is not a newline. */
  lemma NoTripleAround(a: string, c: char, b: string)
    requires c != Newline && NoTriple(a) && NoTriple(b)
    ensures NoTriple(a + [c] + b)
  {
    var s := a + [c] + b;
    forall i | 0 <= i < |s|
      ensures !TripleAt(s, i)
    {
      if i + 3 <= |a| {
        assert s[i] == a[i] && s[i + 1] == a[i + 1] && s[i + 2] == a[i + 2];
        assert !TripleAt(a, i);
      } else if i > |a| && i + 3 <= |s| {
        var j := i - |a| - 1;
        assert s[i] == b[j] && s[i + 1] == b[j + 1] && s[i + 2] == b[j + 2];
        assert !TripleAt(b, j);
      } else {
        assert s[|a|] == c;
      }
    }
  }

  /** A suffix or a slice of a text without a triple has none either. */
  lemma NoTripleSlice(s: string, lo: nat, hi: nat)
    requires lo <= hi <= |s| && NoTriple(s)
    ensures NoTriple(s[lo..hi])
  {
    var t := s[lo..hi];
    forall i | 0 <= i < |t|
      ensures !TripleAt(t, i)
    {
      if i + 3 <= |t| {
        assert t[i] == s[lo + i] && t[i + 1] == s[lo + i + 1] && t[i + 2] == s[lo + i + 2];
        assert !TripleAt(s, lo + i);
      }
    }
  }

  lemma {:induction false} CollapseNoTriple(s: string, run: nat)
    requires run <= 2
    ensures NoTriple(Newlines(run) + CollapseFrom(s, run))
    decreases |s|
  {
    if s == [] {
      assert Newlines(run) + [] == Newlines(run);
      assert forall i :: !TripleAt(Newlines(run), i);
    } else if s[0] != Newline {
      CollapseNoTriple(s[1..], 0);
      assert Newlines(0) + CollapseFrom(s[1..], 0) == CollapseFrom(s[1..], 0);
      assert forall i :: !TripleAt(Newlines(run), i);
      NoTripleAround(Newlines(run), s[0], CollapseFrom(s[1..], 0));
      assert Newlines(run) + CollapseFrom(s, run) == Newlines(run) + [s[0]] + CollapseFrom(s[1..], 0);
    } else if run >= 2 {
      CollapseNoTriple(s[1..], run);
    } else {
      CollapseNoTriple(s[1..], run + 1);
      assert Newlines(run) + CollapseFrom(s, run) == Newlines(run + 1) + CollapseFrom(s[1..], run + 1);
    }
  }

  lemma {:induction false} CollapseKeepsText(s: string, run: nat)
    ensures Filter(CollapseFrom(s, run), NotNewline) == Filter(s, NotNewline)
    decreases |s|
  {
    if s != [] {
      var next := if s[0] != Newline then 0 else if run >= 2 then run else run + 1;
      CollapseKeepsText(s[1..], next);
      var rest := CollapseFrom(s[1..], next);
      if s[0] != Newline || run < 2 {
        assert ([s[0]] + rest)[1..] == rest;
      }
    }
  }

  /** Text without a triple newline is left alone. */
  lemma {:induction false} CollapseFixpoint(s: string, run: nat)
    requires run <= 2 && NoTriple(Newlines(run) + s)
    ensures CollapseFrom(s, run) == s
    decreases |s|
  {
    if s != [] {
      var p := Newlines(run) + s;
      if s[0] != Newline {
        NoTripleSlice(p, run + 1, |p|);
        assert p[run + 1..|p|] == s[1..];
        assert Newlines(0) + s[1..] == s[1..];
        CollapseFixpoint(s[1..], 0);
      } else if run >= 2 {
        assert TripleAt(p, 0);
      } else {
        assert Newlines(run + 1) + s[1..] == p;
        CollapseFixpoint(s[1..], run + 1);
      }
    }
  }

  /** Length of the run of newlines that starts the string. */
  function LeadingNewlines(s: string): (k: nat)
    ensures k <= |s|
    ensures forall i | 0 <= i < k :: s[i] == Newline
    ensures k < |s| ==> s[k] != Newline
    decreases |s|
  {
    if s == [] || s[0] != Newline then 0 else 1 + LeadingNewlines(s[1..])
  }

  /** `re.sub(r'\n{3,}', '\n\n', s)` stated run by run: every maximal run of `k` newlines
      becomes two newlines when `k` is at least three and is kept as it is otherwise; all
      other characters are copied. */
  function CollapseByRuns(s: string): string
    decreases |s|
  {
    if s == [] then []
    else if s[0] != Newline then [s[0]] + CollapseByRuns(s[1..])
    else
      var k := LeadingNewlines(s);
      Newlines(if k >= 3 then 2 else k) + CollapseByRuns(s[k..])
  }

  /** The scan over `k` newlines, having just written `run` of them, writes newlines only
      up to two in all and then carries on with the updated count. */
  lemma {:induction false} CollapseNewlineRun(k: nat, rest: string, run: nat)
    requires run <= 2
    ensures CollapseFrom(Newlines(k) + rest, run)
      == Newlines(if run + k >= 2 then 2 - run else k)
         + CollapseFrom(rest, if run + k >= 2 then 2 else run + k)
    decreases k
  {
    if k == 0 {
      assert Newlines(0) + rest == rest;
    } else {
      var s := Newlines(k) + rest;
      assert s[0] == Newline;
      assert s[1..] == Newlines(k - 1) + rest;
      var c := if run + k >= 2 then 2 else run + k;
      if run >= 2 {
        assert CollapseFrom(s, run) == CollapseFrom(s[1..], run);
        CollapseNewlineRun(k - 1, rest, run);
      } else {
        var m := if run + k >= 2 then 2 - (run + 1) else k - 1;
        assert CollapseFrom(s, run) == [Newline] + CollapseFrom(s[1..], run + 1);
        CollapseNewlineRun(k - 1, rest, run + 1);
        assert CollapseFrom(s[1..], run + 1) == Newlines(m) + CollapseFrom(rest, c);
        assert [Newline] + Newlines(m) == Newlines(m + 1);
        AppendAssoc([Newline], Newlines(m), CollapseFrom(rest, c));
      }
    }
  }

  /** Once a run has ended, the scan no longer depends on how many newlines it wrote. */
  lemma CollapseAfterRun(rest: string, run: nat)
    requires rest == [] || rest[0] != Newline
    ensures CollapseFrom(rest, run) == CollapseFrom(rest, 0)
  {
  }

  /** The scan performs exactly the run-by-run substitution. */
  lemma {:induction false} CollapseMatchesRuns(s: string)
    ensures CollapseFrom(s, 0) == CollapseByRuns(s)
    decreases |s|
  {
    if s != [] {
      if s[0] != Newline {
        CollapseMatchesRuns(s[1..]);
      } else {
        var k := LeadingNewlines(s);
        assert s == Newlines(k) + s[k..];
        CollapseNewlineRun(k, s[k..], 0);
        CollapseAfterRun(s[k..], if k >= 2 then 2 else k);
        CollapseMatchesRuns(s[k..]);
      }
    }
  }

  /** The blank-line pass: every run of three or more newlines becomes exactly two and
      shorter runs are kept; hence afterwards no three newlines are adjacent, every other
      character is kept in order, and a text that had no such run comes back unchanged. */
  function RemoveExcessiveEmptyLines(content: string): (r: string)
    ensures r == CollapseByRuns(content)
    ensures NoTriple(r)
    ensures Filter(r, NotNewline) == Filter(content, NotNewline)
    ensures NoTriple(content) ==> r == content
  {
    CollapseMatchesRuns(content);
    CollapseNoTriple(content, 0);
    CollapseKeepsText(content, 0);
    assert Newlines(0) + CollapseFrom(content, 0) == CollapseFrom(content, 0);
    assert Newlines(0) + content == content;
    CollapseUnchanged(content);
    CollapseFrom(content, 0)
  }

  lemma CollapseUnchanged(content: string)
    ensures NoTriple(content) ==> CollapseFrom(content, 0) == content
  {
    if NoTriple(content) {
      assert Newlines(0) + content == content;
      CollapseFixpoint(content, 0);
    }
  }

  lemma RemoveExcessiveEmptyLinesIdempotent(content: string)
    ensures RemoveExcessiveEmptyLines(RemoveExcessiveEmptyLines(content)) == RemoveExcessiveEmptyLines(content)
  {
  }

  /** A character other than the newline survives the blank-line pass exactly when it was
      there before. */
  lemma RemoveExcessiveEmptyLinesKeeps(content: string, c: char)
    requires c != Newline
    ensures c in RemoveExcessiveEmptyLines(content) <==> c in content
  {
    var r := RemoveExcessiveEmptyLines(content);
    if c in r {
      FilterComplete(r, NotNewline, c);
    }
    if c in content {
      FilterComplete(content, NotNewline, c);
    }
  }

  // ---------------------------------------------------------------------------
  // The whole sanitizer
  // ---------------------------------------------------------------------------

  datatype SanitizeOptions = SanitizeOptions(
    removeEmptyLines: bool,
    fixHeaders: bool,
    cleanTables: bool,
    normalizeWhitespace: bool)

  const DefaultOptions := SanitizeOptions(true, true, true, true)

  /** The stripped text is a slice of the original. */
  lemma StripSlice(s: string) returns (k: nat)
    ensures k + |Strip(s)| <= |s| && Strip(s) == s[k..k + |Strip(s)|]
  {
    TrimLeftSpec(s, Whitespace);
    TrimRightSpec(LStrip(s), Whitespace);
    k := |s| - |LStrip(s)|;
  }

  /** The final strip keeps what the earlier passes established, and is itself stripped. */
  lemma FinalStrip(s: string)
    ensures Strip(Strip(s)) == Strip(s)
    ensures NoTriple(s) ==> NoTriple(Strip(s))
    ensures '\t' !in s ==> '\t' !in Strip(s)
  {
    TrimSpec(s, Whitespace);
    TrimUnchanged(Strip(s), Whitespace);
    var k := StripSlice(s);
    if NoTriple(s) {
      NoTripleSlice(s, k, k + |Strip(s)|);
    }
    assert forall c | c in Strip(s) :: c in s;
  }

  /** The passes inside the `try` block. The regex clean-up patterns (`cleanup`) and the
      table pass (`tables`) are given as functions, since they may raise (`Err`). A
      successful run is stripped, has no tab when whitespace is normalized, and has no
      triple newline when blank lines are removed. */
  function RunPasses(
    content: string, opts: SanitizeOptions,
    cleanup: string -> Result<string, string>, tables: string -> Result<string, string>
  ): (r: Result<string, string>)
    ensures cleanup(content).Err? ==> r.Err?
    ensures r.Ok? ==> Strip(r.value) == r.value
    ensures r.Ok? && opts.normalizeWhitespace ==> '\t' !in r.value
    ensures r.Ok? && opts.removeEmptyLines ==> NoTriple(r.value)
  {
    match cleanup(content)
    case Err(e) => Err(e)
    case Ok(s1) =>
      var s2 := if opts.fixHeaders then FixHeaderFormatting(s1) else s1;
      match (if opts.cleanTables then tables(s2) else Ok(s2))
      case Err(e) => Err(e)
      case Ok(s3) =>
        var s4 := if opts.normalizeWhitespace then NormalizeWhitespace(s3) else s3;
        var s5 := if opts.removeEmptyLines then RemoveExcessiveEmptyLines(s4) else s4;
        RemoveExcessiveEmptyLinesKeeps(s4, '\t');
        FinalStrip(s5);
        Ok(Strip(s5))
  }

  /** Blank input gives the empty string; a failing pass gives the input back. */
  function SanitizeContent(
    content: string, opts: SanitizeOptions,
    cleanup: string -> Result<string, string>, tables: string -> Result<string, string>
  ): (r: string)
    ensures IsBlank(content) ==> r == ""
    ensures !IsBlank(content) && cleanup(content).Err? ==> r == content
    ensures r == content || Strip(r) == r
    ensures r != content && opts.normalizeWhitespace ==> '\t' !in r
    ensures r != content && opts.removeEmptyLines ==> NoTriple(r)
  {
    if IsBlank(content) then ""
    else
      match RunPasses(content, opts, cleanup, tables)
      case Ok(s) => s
      case Err(_) => content
  }

  /** With every option off and clean-up passes that change nothing, sanitizing is
      stripping. */
  lemma SanitizeOnlyStrips(content: string, cleanup: string -> Result<string, string>, tables: string -> Result<string, string>)
    requires cleanup(content) == Ok(content)
    ensures SanitizeContent(content, SanitizeOptions(false, false, false, false), cleanup, tables) == Strip(content)
  {
  }

  // ---------------------------------------------------------------------------
  // Structure checks
  // ---------------------------------------------------------------------------

  /** A line matched by `^```` in multi-line mode. */
  predicate IsFenceLine(line: string) {
    StartsWith(line, "```")
  }

  function FenceCount(content: string): nat {
    |Filter(Lines(content), IsFenceLine)|
  }

  /** Counts the fence lines one line at a time; the code blocks are valid when the count
      is even. */
  method ValidateCodeBlocks(content: string) returns (ok: bool)
    ensures ok <==> FenceCount(content) % 2 == 0
  {
    var ls := Lines(content);
    var count := 0;
    var k := 0;
    while k < |ls|
      invariant 0 <= k <= |ls|
      invariant count == |Filter(ls[..k], IsFenceLine)|
    {
      assert ls[..k + 1] == ls[..k] + [ls[k]];
      FilterSnoc(ls[..k], ls[k], IsFenceLine);
      if IsFenceLine(ls[k]) {
        count := count + 1;
      }
      k := k + 1;
    }
    assert ls[..k] == ls;
    ok := count % 2 == 0;
  }

  /** Two documents joined by a newline are valid exactly when both or neither are. */
  lemma CodeBlocksJoin(a: string, b: string)
    ensures FenceCount(a + [Newline] + b) == FenceCount(a) + FenceCount(b)
    ensures FenceCount(a + [Newline] + b) % 2 == 0 <==> (FenceCount(a) % 2 == 0 <==> FenceCount(b) % 2 == 0)
  {
    LinesConcat(a, b);
    FilterConcat(Lines(a), Lines(b), IsFenceLine);
  }

  /** A line with a `|` must, once stripped, start and end with `|`. */
  predicate TableLineOk(line: string) {
    '|' !in line || Strip(line) == [] || (StartsWith(Strip(line), "|") && EndsWith(Strip(line), "|"))
  }

  predicate TablesClean(content: string) {
    forall i | 0 <= i < |Lines(content)| :: TableLineOk(Lines(content)[i])
  }

  /** Scans the lines and stops at the first bad table row. */
  method ValidateTables(content: string) returns (ok: bool)
    ensures ok <==> TablesClean(content)
  {
    var ls := Lines(content);
    var k := 0;
    while k < |ls|
      invariant 0 <= k <= |ls|
      invariant forall i | 0 <= i < k :: TableLineOk(ls[i])
    {
      if !TableLineOk(ls[k]) {
        return false;
      }
      k := k + 1;
    }
    return true;
  }

  /** Two documents joined by a newline have clean tables exactly when both do. */
  lemma TablesJoin(a: string, b: string)
    ensures TablesClean(a + [Newline] + b) <==> TablesClean(a) && TablesClean(b)
  {
    LinesConcat(a, b);
    var la, lb := Lines(a), Lines(b);
    var l := Lines(a + [Newline] + b);
    assert forall i | 0 <= i < |la| :: l[i] == la[i];
    assert forall i | 0 <= i < |lb| :: l[|la| + i] == lb[i];
    if TablesClean(a) && TablesClean(b) {
      forall i | 0 <= i < |l|
        ensures TableLineOk(l[i])
      {
        if i >= |la| {
          assert l[i] == lb[i - |la|];
        }
      }
    }
  }
}
