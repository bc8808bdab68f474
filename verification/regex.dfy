/** The regular-expression substitutions the slug builders use, written out as
    recursive functions over strings. */
module Regex {
  import opened Text

  /** `re.sub(r'[^\w\s-]', '', s)`: keeps word characters, whitespace and '-'. */
  function KeepWordSpaceDash(s: string): (r: string)
    ensures |r| <= |s|
    decreases |s|
  {
    if s == [] then []
    else if IsWordChar(s[0]) || s[0] in Whitespace || s[0] == '-' then [s[0]] + KeepWordSpaceDash(s[1..])
    else KeepWordSpaceDash(s[1..])
  }

  /** What survives is a word character, whitespace or '-', taken from `s`. */
  lemma {:induction false} KeepWordSpaceDashSpec(s: string)
    ensures forall i | 0 <= i < |KeepWordSpaceDash(s)| ::
      var c := KeepWordSpaceDash(s)[i]; (IsWordChar(c) || c in Whitespace || c == '-') && c in s
    decreases |s|
  {
    if s != [] {
      KeepWordSpaceDashSpec(s[1..]);
      var r := KeepWordSpaceDash(s);
      var rt := KeepWordSpaceDash(s[1..]);
      assert forall x | x in s[1..] :: x in s;
      forall i | 0 <= i < |r|
        ensures (IsWordChar(r[i]) || r[i] in Whitespace || r[i] == '-') && r[i] in s
      {
        if |r| > |rt| {
          assert r == [s[0]] + rt;
          if i > 0 { assert r[i] == rt[i - 1]; }
        } else {
          assert r == rt;
        }
      }
    }
  }

  /** Drops the leading characters of `s` that are in `cs`. */
  function DropWhileIn(s: string, cs: set<char>): (r: string)
    ensures |r| <= |s| && r == s[|s| - |r|..]
    ensures r == [] || r[0] !in cs
    decreases |s|
  {
    if s != [] && s[0] in cs then DropWhileIn(s[1..], cs) else s
  }

  /** Replaces every maximal run of characters from `cs` by the single character `d`
      (`re.sub('[cs]+', d, s)`). */
  function CollapseRuns(s: string, cs: set<char>, d: char): (r: string)
    ensures |r| <= |s|
    decreases |s|
  {
    if s == [] then []
    else if s[0] in cs then
      var rest := DropWhileIn(s[1..], cs);
      [d] + CollapseRuns(rest, cs, d)
    else [s[0]] + CollapseRuns(s[1..], cs, d)
  }

  /** Each run becomes one `d`, every other character comes from `s`, and when `d` is a
      separator itself no two separators end up adjacent. */
  lemma CollapseRunsSpec(s: string, cs: set<char>, d: char)
    ensures (forall i | 0 <= i < |CollapseRuns(s, cs, d)| :: CollapseRuns(s, cs, d)[i] == d || (CollapseRuns(s, cs, d)[i] !in cs && CollapseRuns(s, cs, d)[i] in s))
      && (s != [] ==> CollapseRuns(s, cs, d) != [] && CollapseRuns(s, cs, d)[0] == (if s[0] in cs then d else s[0]))
      && (d in cs ==> forall i | 0 <= i && i + 1 < |CollapseRuns(s, cs, d)| :: !(CollapseRuns(s, cs, d)[i] in cs && CollapseRuns(s, cs, d)[i + 1] in cs))
  {
    CollapseRunsChars(s, cs, d);
    CollapseRunsHead(s, cs, d);
    if d in cs {
      CollapseRunsNoAdjacent(s, cs, d);
    }
  }

  /** The step of `CollapseRuns`: the text after the first character or first run. */
  function CollapseTail(s: string, cs: set<char>): (t: string)
    requires s != []
    ensures |t| < |s|
    ensures forall x | x in t :: x in s
    ensures s[0] in cs ==> t == [] || t[0] !in cs
  {
    if s[0] in cs then DropWhileIn(s[1..], cs) else s[1..]
  }

  lemma CollapseRunsHead(s: string, cs: set<char>, d: char)
    ensures s != [] ==> CollapseRuns(s, cs, d) != [] && CollapseRuns(s, cs, d)[0] == (if s[0] in cs then d else s[0])
    ensures s != [] ==> CollapseRuns(s, cs, d) == [CollapseRuns(s, cs, d)[0]] + CollapseRuns(CollapseTail(s, cs), cs, d)
  {
  }

  lemma {:induction false} CollapseRunsChars(s: string, cs: set<char>, d: char)
    ensures forall i | 0 <= i < |CollapseRuns(s, cs, d)| :: CollapseRuns(s, cs, d)[i] == d || (CollapseRuns(s, cs, d)[i] !in cs && CollapseRuns(s, cs, d)[i] in s)
    decreases |s|
  {
    if s != [] {
      var t := CollapseTail(s, cs);
      CollapseRunsChars(t, cs, d);
      CollapseRunsHead(s, cs, d);
      var r := CollapseRuns(s, cs, d);
      var rt := CollapseRuns(t, cs, d);
      forall i | 0 <= i < |r|
        ensures r[i] == d || (r[i] !in cs && r[i] in s)
      {
        if i > 0 {
          assert r[i] == rt[i - 1];
          assert rt[i - 1] == d || (rt[i - 1] !in cs && rt[i - 1] in t);
        }
      }
    }
  }

  lemma {:induction false} CollapseRunsNoAdjacent(s: string, cs: set<char>, d: char)
    requires d in cs
    ensures forall i | 0 <= i && i + 1 < |CollapseRuns(s, cs, d)| :: !(CollapseRuns(s, cs, d)[i] in cs && CollapseRuns(s, cs, d)[i + 1] in cs)
    decreases |s|
  {
    if s != [] {
      var t := CollapseTail(s, cs);
      CollapseRunsNoAdjacent(t, cs, d);
      CollapseRunsHead(s, cs, d);
      CollapseRunsHead(t, cs, d);
      var r := CollapseRuns(s, cs, d);
      var rt := CollapseRuns(t, cs, d);
      assert forall i | 1 <= i < |r| :: r[i] == rt[i - 1];
      if s[0] in cs && rt != [] {
        assert rt[0] == t[0] && t[0] !in cs;
      }
    }
  }

  lemma {:induction false} KeepWordSpaceDashKeepsAll(s: string)
    requires forall i | 0 <= i < |s| :: IsWordChar(s[i]) || s[i] in Whitespace || s[i] == '-'
    ensures KeepWordSpaceDash(s) == s
    decreases |s|
  {
    if s != [] {
      assert forall i | 0 <= i < |s[1..]| :: s[1..][i] == s[i + 1];
      KeepWordSpaceDashKeepsAll(s[1..]);
    }
  }

  /** Collapsing changes nothing when every separator already is `d` and no two
      separators are adjacent. */
  lemma {:induction false} CollapseRunsKeepsSingles(s: string, cs: set<char>, d: char)
    requires forall i | 0 <= i < |s| :: s[i] in cs ==> s[i] == d
    requires forall i | 0 <= i && i + 1 < |s| :: !(s[i] in cs && s[i + 1] in cs)
    ensures CollapseRuns(s, cs, d) == s
    decreases |s|
  {
    if s != [] {
      var t := s[1..];
      SinglesTail(s, cs, d);
      CollapseRunsKeepsSingles(t, cs, d);
      CollapseSingleStep(s, cs, d);
      assert [s[0]] + t == s;
    }
  }

  lemma SinglesTail(s: string, cs: set<char>, d: char)
    requires s != []
    requires forall i | 0 <= i < |s| :: s[i] in cs ==> s[i] == d
    requires forall i | 0 <= i && i + 1 < |s| :: !(s[i] in cs && s[i + 1] in cs)
    ensures forall i | 0 <= i < |s[1..]| :: s[1..][i] in cs ==> s[1..][i] == d
    ensures forall i | 0 <= i && i + 1 < |s[1..]| :: !(s[1..][i] in cs && s[1..][i + 1] in cs)
  {
    assert forall i | 0 <= i < |s[1..]| :: s[1..][i] == s[i + 1];
  }

  lemma CollapseSingleStep(s: string, cs: set<char>, d: char)
    requires s != [] && (s[0] in cs ==> s[0] == d)
    requires |s| > 1 ==> !(s[0] in cs && s[1] in cs)
    ensures CollapseRuns(s, cs, d) == [s[0]] + CollapseRuns(s[1..], cs, d)
  {
    if s[0] in cs {
      assert DropWhileIn(s[1..], cs) == s[1..];
    }
  }

  lemma TrimKeepsChars(s: string, cs: set<char>)
    ensures forall i | 0 <= i < |Trim(s, cs)| :: Trim(s, cs)[i] == s[|s| - |TrimLeft(s, cs)| + i]
  {
    TrimLeftSpec(s, cs);
    TrimRightSpec(TrimLeft(s, cs), cs);
  }

  lemma TrimKeepsNoDoubles(s: string, cs: set<char>)
    requires forall i | 0 <= i && i + 1 < |s| :: !(s[i] in cs && s[i + 1] in cs)
    ensures forall i | 0 <= i && i + 1 < |Trim(s, cs)| :: !(Trim(s, cs)[i] in cs && Trim(s, cs)[i + 1] in cs)
  {
    var l := TrimLeft(s, cs);
    var b := TrimRight(l, cs);
    TrimLeftSpec(s, cs);
    TrimRightSpec(l, cs);
    forall i | 0 <= i && i + 1 < |b|
      ensures !(b[i] in cs && b[i + 1] in cs)
    {
      assert b[i] == l[i] && b[i + 1] == l[i + 1];
      assert l[i] == s[|s| - |l| + i] && l[i + 1] == s[|s| - |l| + i + 1];
    }
  }

  lemma {:induction false} KeepWordSpaceDashConcat(a: string, b: string)
    ensures KeepWordSpaceDash(a + b) == KeepWordSpaceDash(a) + KeepWordSpaceDash(b)
    decreases |a|
  {
    if a == [] {
      assert a + b == b;
    } else {
      assert (a + b)[1..] == a[1..] + b;
      KeepWordSpaceDashConcat(a[1..], b);
    }
  }

  /** Text without separators passes through the collapse unchanged. */
  lemma {:induction false} CollapsePlain(a: string, b: string, cs: set<char>, d: char)
    requires forall i | 0 <= i < |a| :: a[i] !in cs
    ensures CollapseRuns(a + b, cs, d) == a + CollapseRuns(b, cs, d)
    decreases |a|
  {
    if a == [] {
      assert a + b == b;
    } else {
      var t := a[1..] + b;
      assert a + b == [a[0]] + t;
      CollapseHeadPlain(a[0], t, cs, d);
      CollapsePlain(a[1..], b, cs, d);
      assert a == [a[0]] + a[1..];
    }
  }

  lemma CollapseHeadPlain(x: char, t: string, cs: set<char>, d: char)
    requires x !in cs
    ensures CollapseRuns([x] + t, cs, d) == [x] + CollapseRuns(t, cs, d)
  {
    assert ([x] + t)[1..] == t;
  }

  /** A whole run of separators becomes one `d`. */
  lemma CollapseRunThen(run: string, b: string, cs: set<char>, d: char)
    requires run != [] && forall i | 0 <= i < |run| :: run[i] in cs
    requires b == [] || b[0] !in cs
    ensures CollapseRuns(run + b, cs, d) == [d] + CollapseRuns(b, cs, d)
  {
    assert (run + b)[1..] == run[1..] + b;
    DropRun(run[1..], b, cs);
  }

  lemma {:induction false} DropRun(run: string, b: string, cs: set<char>)
    requires forall i | 0 <= i < |run| :: run[i] in cs
    requires b == [] || b[0] !in cs
    ensures DropWhileIn(run + b, cs) == b
    decreases |run|
  {
    if run == [] {
      assert run + b == b;
    } else {
      assert (run + b)[1..] == run[1..] + b;
      DropRun(run[1..], b, cs);
    }
  }

  /** A run of separators before plain text becomes a single `d`. */
  lemma CollapseRunPlain(run: string, a: string, cs: set<char>, d: char)
    requires run != [] && forall i | 0 <= i < |run| :: run[i] in cs
    requires forall i | 0 <= i < |a| :: a[i] !in cs
    ensures CollapseRuns(run + a, cs, d) == [d] + a
  {
    CollapseRunThen(run, a, cs, d);
    assert a + [] == a;
    CollapsePlain(a, [], cs, d);
  }

  /** Two plain texts around a run of separators are joined by a single `d`. */
  lemma CollapseJoin(a: string, run: string, b: string, cs: set<char>, d: char)
    requires forall i | 0 <= i < |a| :: a[i] !in cs
    requires run != [] && forall i | 0 <= i < |run| :: run[i] in cs
    requires forall i | 0 <= i < |b| :: b[i] !in cs
    ensures CollapseRuns(a + run + b, cs, d) == a + [d] + b
  {
    assert a + run + b == a + (run + b);
    CollapsePlain(a, run + b, cs, d);
    CollapseRunPlain(run, b, cs, d);
  }
}
