/** The slug and output-path helpers of the original scraper package: a slug is never
    empty, and every truthy header and menu becomes a directory. */
module ScraperUtils {
  import opened Wrappers
  import opened Text
  import opened Regex

  /** Characters that `[-\s]+` collapses into one '-'. */
  const DashOrSpace: set<char> := Whitespace + {'-'}

  /** Characters stripped from both ends of a slug. */
  const SlugEnds: set<char> := {'-', '_'}

  /** What a slug may hold: lower-case ASCII letters, digits, '_' and '-'. */
  predicate SlugChar(c: char) {
    IsAsciiLower(c) || IsAsciiDigit(c) || c == '_' || c == '-'
  }

  /** A well-formed slug: the "_" placeholder, or a non-empty run of slug characters
      with single dashes and neither '-' nor '_' at either end. */
  predicate IsSlug(s: string) {
    s == "_"
    || (s != []
        && SingleDashSlugChars(s)
        && s[0] !in SlugEnds && s[|s| - 1] !in SlugEnds)
  }

  /** Only slug characters, and no two '-' side by side. */
  predicate SingleDashSlugChars(s: string) {
    (forall i | 0 <= i < |s| :: SlugChar(s[i]))
    && forall i | 0 <= i && i + 1 < |s| :: !(s[i] == '-' && s[i + 1] == '-')
  }

  /** Only whitespace and slug characters. */
  predicate SpaceOrSlugChars(s: string) {
    forall i | 0 <= i < |s| :: s[i] in Whitespace || SlugChar(s[i])
  }

  /** ASCII-folds, lower-cases, drops everything but word characters, whitespace and
      '-', turns each run of '-' and whitespace into one '-', strips '-' and '_', and
      falls back to "_". */
  function Slugify(value: string): (r: string)
    ensures r != []
  {
    var kept := KeepWordSpaceDash(Lower(AsciiFold(value)));
    var dashed := CollapseRuns(kept, DashOrSpace, '-');
    var stripped := Trim(dashed, SlugEnds);
    if stripped == [] then "_" else stripped
  }

  /** Every slug is well formed. */
  lemma SlugifyWellFormed(value: string)
    ensures IsSlug(Slugify(value))
  {
    var kept := KeepWordSpaceDash(Lower(AsciiFold(value)));
    KeptChars(value);
    DashedChars(kept);
    StrippedWellFormed(CollapseRuns(kept, DashOrSpace, '-'));
  }

  lemma KeptChars(value: string)
    ensures SpaceOrSlugChars(KeepWordSpaceDash(Lower(AsciiFold(value))))
  {
    var folded := AsciiFold(value);
    var lowered := Lower(folded);
    var kept := KeepWordSpaceDash(lowered);
    KeepWordSpaceDashSpec(lowered);
    forall i | 0 <= i < |kept|
      ensures kept[i] in Whitespace || SlugChar(kept[i])
    {
      var j :| 0 <= j < |lowered| && lowered[j] == kept[i];
      assert lowered[j] == LowerChar(folded[j]);
    }
  }

  lemma DashedChars(kept: string)
    requires SpaceOrSlugChars(kept)
    ensures SingleDashSlugChars(CollapseRuns(kept, DashOrSpace, '-'))
  {
    var dashed := CollapseRuns(kept, DashOrSpace, '-');
    CollapseRunsSpec(kept, DashOrSpace, '-');
    forall i | 0 <= i < |dashed|
      ensures SlugChar(dashed[i])
    {
      if dashed[i] != '-' {
        var j :| 0 <= j < |kept| && kept[j] == dashed[i];
      }
    }
    forall i | 0 <= i && i + 1 < |dashed|
      ensures !(dashed[i] == '-' && dashed[i + 1] == '-')
    {
      assert !(dashed[i] in DashOrSpace && dashed[i + 1] in DashOrSpace);
    }
  }

  lemma StrippedWellFormed(dashed: string)
    requires SingleDashSlugChars(dashed)
    ensures Trim(dashed, SlugEnds) == [] || IsSlug(Trim(dashed, SlugEnds))
  {
    var stripped := Trim(dashed, SlugEnds);
    TrimSpec(dashed, SlugEnds);
    TrimKeepsChars(dashed, SlugEnds);
    var off := |dashed| - |TrimLeft(dashed, SlugEnds)|;
    forall i | 0 <= i < |stripped|
      ensures SlugChar(stripped[i])
    {
      assert stripped[i] == dashed[off + i];
    }
    forall i | 0 <= i && i + 1 < |stripped|
      ensures !(stripped[i] == '-' && stripped[i + 1] == '-')
    {
      assert stripped[i] == dashed[off + i] && stripped[i + 1] == dashed[off + i + 1];
    }
  }

  /** A well-formed slug is its own slug, so slugifying twice is slugifying once. */
  lemma SlugFixpoint(s: string)
    requires IsSlug(s)
    ensures Slugify(s) == s
  {
    if s == "_" {
      UnderscoreSlug();
    } else {
      SlugCharsSurvive(s);
      AsciiFoldKeepsAscii(s);
      LowerKeepsLower(s);
      KeepWordSpaceDashKeepsAll(s);
      CollapseRunsKeepsSingles(s, DashOrSpace, '-');
      TrimUnchanged(s, SlugEnds);
      assert Trim(CollapseRuns(KeepWordSpaceDash(Lower(AsciiFold(s))), DashOrSpace, '-'), SlugEnds) == s;
    }
  }

  /** The character facts each stage needs to leave a slug alone. */
  lemma SlugCharsSurvive(s: string)
    requires SingleDashSlugChars(s)
    ensures forall i | 0 <= i < |s| :: IsAscii(s[i]) && !IsAsciiUpper(s[i])
    ensures forall i | 0 <= i < |s| :: IsWordChar(s[i]) || s[i] in Whitespace || s[i] == '-'
    ensures forall i | 0 <= i < |s| :: s[i] in DashOrSpace ==> s[i] == '-'
    ensures forall i | 0 <= i && i + 1 < |s| :: !(s[i] in DashOrSpace && s[i + 1] in DashOrSpace)
  {
  }

  /** "_" is stripped to nothing and comes back as the placeholder. */
  lemma UnderscoreSlug()
    ensures Slugify("_") == "_"
  {
    var s := "_";
    assert |s| == 1 && s[0] == '_';
    AsciiFoldKeepsAscii(s);
    LowerKeepsLower(s);
    KeepWordSpaceDashKeepsAll(s);
    CollapseRunsKeepsSingles(s, DashOrSpace, '-');
    assert TrimLeft(s, SlugEnds) == [] by {
      assert s[1..] == [];
    }
  }

  lemma SlugifyIdempotent(value: string)
    ensures Slugify(Slugify(value)) == Slugify(value)
  {
    SlugifyWellFormed(value);
    SlugFixpoint(Slugify(value));
  }

  /** The output path: the base directory, a directory per truthy header and menu (even
      when both are the same text), and the item's slug with ".md". */
  function OutputFilePath(header: Option<string>, menu: Option<string>, itemText: string, base: seq<string>): (path: seq<string>)
    ensures |path| == |base| + (if Truthy(header) then 1 else 0) + (if Truthy(menu) then 1 else 0) + 1 && path[..|base|] == base
    ensures path[|path| - 1] == Slugify(itemText) + ".md"
    ensures Truthy(header) ==> path[|base|] == Slugify(header.value)
    ensures Truthy(menu) ==> path[|path| - 2] == Slugify(menu.value)
  {
    var dirs := (if Truthy(header) then [Slugify(header.value)] else [])
      + (if Truthy(menu) then [Slugify(menu.value)] else []);
    base + dirs + [Slugify(itemText) + ".md"]
  }

  /** From position `n` on, the components are slugs and the last is a slug followed by
      ".md". */
  predicate SlugComponents(path: seq<string>, n: nat) {
    n < |path|
    && (forall i | n <= i < |path| - 1 :: IsSlug(path[i]))
    && EndsWith(path[|path| - 1], ".md")
    && IsSlug(path[|path| - 1][..|path[|path| - 1]| - 3])
  }

  /** Every component the builder adds is a well-formed slug, the file name followed by
      ".md". */
  lemma PathComponentsAreSlugs(header: Option<string>, menu: Option<string>, itemText: string, base: seq<string>)
    ensures SlugComponents(OutputFilePath(header, menu, itemText, base), |base|)
  {
    var path := OutputFilePath(header, menu, itemText, base);
    var dirs := (if Truthy(header) then [Slugify(header.value)] else [])
      + (if Truthy(menu) then [Slugify(menu.value)] else []);
    var f := Slugify(itemText) + ".md";
    assert path == base + dirs + [f];
    if Truthy(header) {
      SlugifyWellFormed(header.value);
    }
    if Truthy(menu) {
      SlugifyWellFormed(menu.value);
    }
    forall i | |base| <= i < |path| - 1
      ensures IsSlug(path[i])
    {
      assert path[i] == dirs[i - |base|];
    }
    SlugifyWellFormed(itemText);
    assert path[|path| - 1] == f;
    assert f[..|f| - 3] == Slugify(itemText);
    assert f[|f| - 3..] == ".md";
  }

  /** The header and the menu are not deduplicated: the same text gives two equal
      directories. */
  lemma SameHeaderAndMenuBothKept(text: string, itemText: string, base: seq<string>)
    requires text != ""
    ensures |OutputFilePath(Some(text), Some(text), itemText, base)| == |base| + 3
    ensures OutputFilePath(Some(text), Some(text), itemText, base)[|base|] == Slugify(text)
    ensures OutputFilePath(Some(text), Some(text), itemText, base)[|base| + 1] == Slugify(text)
  {
  }

  /** A word of the slug alphabet without separators: lower-case ASCII letters and
      digits. */
  predicate PlainWord(w: string) {
    w != [] && forall i | 0 <= i < |w| :: IsAsciiLower(w[i]) || IsAsciiDigit(w[i])
  }

  /** A separator run: only '-' and ASCII whitespace. */
  predicate SeparatorRun(sep: string) {
    sep != [] && forall i | 0 <= i < |sep| :: sep[i] in DashOrSpace && IsAscii(sep[i])
  }

  lemma PlainWordSurvives(w: string)
    requires PlainWord(w)
    ensures forall i | 0 <= i < |w| :: IsAscii(w[i]) && !IsAsciiUpper(w[i]) && IsWordChar(w[i]) && w[i] !in DashOrSpace
  {
  }

  lemma SeparatorSurvives(sep: string)
    requires SeparatorRun(sep)
    ensures forall i | 0 <= i < |sep| :: IsAscii(sep[i]) && !IsAsciiUpper(sep[i]) && (sep[i] in Whitespace || sep[i] == '-')
  {
  }

  /** Two words around a run of dashes and whitespace are joined by one '-', as in
      "Extra --- Spaces" becoming "extra-spaces". */
  lemma SlugJoinsWords(a: string, sep: string, b: string)
    requires PlainWord(a) && SeparatorRun(sep) && PlainWord(b)
    ensures Slugify(a + sep + b) == a + "-" + b
  {
    JoinStagesKeep(a, sep, b);
    PlainWordSurvives(a);
    PlainWordSurvives(b);
    CollapseJoin(a, sep, b, DashOrSpace, '-');
    var r := a + "-" + b;
    TrimUnchanged(r, SlugEnds);
  }

  /** A leading run of dashes and whitespace disappears, as in "- Leading Dash"
      becoming "leading-dash". */
  lemma SlugDropsLeadingSeparators(sep: string, a: string)
    requires SeparatorRun(sep) && PlainWord(a)
    ensures Slugify(sep + a) == a
  {
    var v := sep + a;
    LeadingStagesKeep(sep, a);
    var c := ['-'] + a;
    PlainWordSurvives(a);
    CollapseRunPlain(sep, a, DashOrSpace, '-');
    assert TrimLeft(c, SlugEnds) == TrimLeft(a, SlugEnds);
    TrimUnchanged(a, SlugEnds);
    assert Trim(c, SlugEnds) == a;
  }

  lemma JoinStagesKeep(a: string, sep: string, b: string)
    requires PlainWord(a) && SeparatorRun(sep) && PlainWord(b)
    ensures KeepWordSpaceDash(Lower(AsciiFold(a + sep + b))) == a + sep + b
  {
    var v := a + sep + b;
    PlainWordSurvives(a);
    PlainWordSurvives(b);
    SeparatorSurvives(sep);
    assert forall i | 0 <= i < |v| :: v[i] == if i < |a| then a[i] else if i < |a| + |sep| then sep[i - |a|] else b[i - |a| - |sep|];
    AsciiFoldKeepsAscii(v);
    LowerKeepsLower(v);
    KeepWordSpaceDashKeepsAll(v);
  }

  lemma LeadingStagesKeep(sep: string, a: string)
    requires SeparatorRun(sep) && PlainWord(a)
    ensures KeepWordSpaceDash(Lower(AsciiFold(sep + a))) == sep + a
  {
    var v := sep + a;
    PlainWordSurvives(a);
    SeparatorSurvives(sep);
    assert forall i | 0 <= i < |v| :: v[i] == if i < |sep| then sep[i] else a[i - |sep|];
    AsciiFoldKeepsAscii(v);
    LowerKeepsLower(v);
    KeepWordSpaceDashKeepsAll(v);
  }

}
