/** Deterministic output paths for scraped items: a bounded, file-system-safe slug per
    path component, directories for the header and the menu, and a ".md" file name. */
module PathBuilder {
  import opened Wrappers
  import opened Text
  import opened Regex
  import opened Seqs

  /** `[-\s_/\\]`: a run of these becomes a single '-'. */
  const Separators: set<char> := Whitespace + {'-', '_', '/', '\\'}

  /** Characters stripped from both ends of a slug. */
  const EdgeChars: set<char> := {'-', '_', '.'}

  const MaxSlugLength := 100

  const MdExtension := ".md"

  const Untitled := "untitled"

  /** `[\w\-\.]`: what the character filter keeps. */
  predicate KeptChar(c: char) {
    IsWordChar(c) || c == '-' || c == '.'
  }

  /** What a slug may hold: lower-case ASCII letters, digits, '-' and '.'. Underscores
      never survive, since they count as separators. */
  predicate PathSlugChar(c: char) {
    IsAsciiLower(c) || IsAsciiDigit(c) || c == '-' || c == '.'
  }

  /** A slug as the builder produces it: at most 100 characters, all of them slug
      characters, and no '-', '_' or '.' at either end. */
  predicate IsPathSlug(s: string) {
    |s| <= MaxSlugLength
    && (forall i | 0 <= i < |s| :: PathSlugChar(s[i]))
    && (s == [] || (s[0] !in EdgeChars && s[|s| - 1] !in EdgeChars))
  }

  // ---------------------------------------------------------------------------
  // Slugs
  // ---------------------------------------------------------------------------

  /** ASCII-folds, turns each separator run into '-', drops everything outside
      `[\w\-\.]`, lower-cases, strips '-', '_' and '.' from the ends, and cuts the
      result to 100 characters, stripping the cut end again. Empty input gives "". */
  function Slug(value: string): (r: string)
    ensures value == [] ==> r == []
    ensures |r| <= MaxSlugLength
  {
    if value == [] then []
    else
      var stripped := Stripped(value);
      if |stripped| > MaxSlugLength then TrimRight(stripped[..MaxSlugLength], EdgeChars) else stripped
  }

  /** The slug before the length limit. */
  function Stripped(value: string): string {
    Trim(Lower(Filter(CollapseRuns(AsciiFold(value), Separators, '-'), KeptChar)), EdgeChars)
  }

  /** Every slug is well formed: lower-case ASCII letters, digits, '-' and '.', at most
      100 of them, with clean ends. */
  lemma SlugWellFormed(value: string)
    ensures IsPathSlug(Slug(value))
  {
    if value != [] {
      var stripped := Stripped(value);
      StrippedWellFormed(value);
      if |stripped| > MaxSlugLength {
        CutWellFormed(stripped);
      }
    }
  }

  /** Slug characters only, and clean ends, with no bound on the length. */
  predicate CleanSlugText(s: string) {
    (forall i | 0 <= i < |s| :: PathSlugChar(s[i]))
    && (s == [] || (s[0] !in EdgeChars && s[|s| - 1] !in EdgeChars))
  }

  lemma StrippedWellFormed(value: string)
    ensures CleanSlugText(Stripped(value))
  {
    var folded := AsciiFold(value);
    var dashed := CollapseRuns(folded, Separators, '-');
    CollapseRunsSpec(folded, Separators, '-');
    DashedNoUnderscore(folded, dashed);
    var kept := Filter(dashed, KeptChar);
    KeptLowersToSlugChars(dashed, kept);
    var lowered := Lower(kept);
    assert forall i | 0 <= i < |lowered| :: PathSlugChar(lowered[i]);
    TrimSpec(lowered, EdgeChars);
    TrimKeepsChars(lowered, EdgeChars);
  }

  /** After the collapse every character is ASCII and no '_' is left. */
  lemma DashedNoUnderscore(folded: string, dashed: string)
    requires forall i | 0 <= i < |folded| :: IsAscii(folded[i])
    requires forall i | 0 <= i < |dashed| :: dashed[i] == '-' || (dashed[i] !in Separators && dashed[i] in folded)
    ensures forall i | 0 <= i < |dashed| :: IsAscii(dashed[i]) && dashed[i] != '_'
  {
    forall i | 0 <= i < |dashed|
      ensures IsAscii(dashed[i]) && dashed[i] != '_'
    {
      if dashed[i] != '-' {
        var j :| 0 <= j < |folded| && folded[j] == dashed[i];
      }
    }
  }

  /** The filter keeps ASCII word characters other than '_', '-' and '.', which lower-case
      to slug characters. */
  lemma KeptLowersToSlugChars(dashed: string, kept: string)
    requires forall i | 0 <= i < |dashed| :: IsAscii(dashed[i]) && dashed[i] != '_'
    requires kept == Filter(dashed, KeptChar)
    ensures forall i | 0 <= i < |kept| :: PathSlugChar(LowerChar(kept[i]))
  {
    forall i | 0 <= i < |kept|
      ensures PathSlugChar(LowerChar(kept[i]))
    {
      var j :| 0 <= j < |dashed| && dashed[j] == kept[i];
    }
  }

  /** Cutting a clean slug text to 100 characters and stripping the cut end keeps it a
      slug, and never empties it. */
  lemma CutWellFormed(s: string)
    requires CleanSlugText(s) && |s| > MaxSlugLength
    ensures IsPathSlug(TrimRight(s[..MaxSlugLength], EdgeChars))
    ensures TrimRight(s[..MaxSlugLength], EdgeChars) != []
  {
    var cut := s[..MaxSlugLength];
    TrimRightSpec(cut, EdgeChars);
    var r := TrimRight(cut, EdgeChars);
    assert cut[0] == s[0] && cut[0] !in EdgeChars;
    assert forall i | 0 <= i < |r| :: r[i] == s[i];
  }

  /** A well-formed slug whose dashes are single is its own slug. */
  lemma SlugFixpoint(s: string)
    requires IsPathSlug(s)
    requires forall i | 0 <= i && i + 1 < |s| :: !(s[i] == '-' && s[i + 1] == '-')
    ensures Slug(s) == s
  {
    if s != [] {
      SlugCharsSurvive(s);
      AsciiFoldKeepsAscii(s);
      CollapseRunsKeepsSingles(s, Separators, '-');
      FilterKeepsAll(s, KeptChar);
      LowerKeepsLower(s);
      TrimUnchanged(s, EdgeChars);
      assert Stripped(s) == s;
    }
  }

  /** The character facts each stage needs to leave a slug alone. */
  lemma SlugCharsSurvive(s: string)
    requires forall i | 0 <= i < |s| :: PathSlugChar(s[i])
    requires forall i | 0 <= i && i + 1 < |s| :: !(s[i] == '-' && s[i + 1] == '-')
    ensures forall i | 0 <= i < |s| :: IsAscii(s[i]) && !IsAsciiUpper(s[i]) && KeptChar(s[i])
    ensures forall i | 0 <= i < |s| :: s[i] in Separators ==> s[i] == '-'
    ensures forall i | 0 <= i && i + 1 < |s| :: !(s[i] in Separators && s[i + 1] in Separators)
  {
  }

  /** Slugging a slug again changes nothing as long as it has no doubled '-'. A doubled
      '-' can arise when the filter removes a character that stood between two
      separators, as in "a-(-b"; the second pass then collapses it. */
  lemma SlugIdempotent(value: string)
    requires forall i | 0 <= i && i + 1 < |Slug(value)| :: !(Slug(value)[i] == '-' && Slug(value)[i + 1] == '-')
    ensures Slug(Slug(value)) == Slug(value)
  {
    SlugWellFormed(value);
    SlugFixpoint(Slug(value));
  }

  // ---------------------------------------------------------------------------
  // Output paths
  // ---------------------------------------------------------------------------

  /** The header directory: present when the header is non-blank and its slug is
      non-empty. */
  function HeaderDir(header: Option<string>): (dir: seq<string>)
    ensures |dir| <= 1
  {
    if Truthy(header) && !IsBlank(header.value) && Slug(header.value) != [] then [Slug(header.value)] else []
  }

  /** The menu directory: present when the menu is non-blank, differs from the header
      and its slug is non-empty. */
  function MenuDir(header: Option<string>, menu: Option<string>): (dir: seq<string>)
    ensures |dir| <= 1
  {
    if Truthy(menu) && !IsBlank(menu.value) && menu != header && Slug(menu.value) != [] then [Slug(menu.value)] else []
  }

  /** The item's slug, "untitled" when that is empty, with ".md" added unless the name
      already ends in it. */
  function FileName(itemText: string): (name: string)
    ensures EndsWith(name, MdExtension)
  {
    var stem := FileStem(itemText);
    if EndsWith(stem, MdExtension) then stem else (assert (stem + MdExtension)[|stem|..] == MdExtension; stem + MdExtension)
  }

  /** The item's slug, or "untitled" when that is empty. */
  function FileStem(itemText: string): string {
    if Slug(itemText) == [] then Untitled else Slug(itemText)
  }

  /** base / [header slug] / [menu slug] / file name. */
  function OutputFilePath(header: Option<string>, menu: Option<string>, itemText: string, base: seq<string>): (path: seq<string>)
    ensures |base| < |path| <= |base| + 3 && path[..|base|] == base
    ensures path[|path| - 1] == FileName(itemText)
  {
    base + HeaderDir(header) + MenuDir(header, menu) + [FileName(itemText)]
  }

  /** The directories the builder adds are exactly the header's and the menu's slugs,
      each present exactly under its condition. */
  lemma PathDirectories(header: Option<string>, menu: Option<string>, itemText: string, base: seq<string>)
    ensures |OutputFilePath(header, menu, itemText, base)| == |base| + 1
      + (if HeaderIncluded(header) then 1 else 0) + (if MenuIncluded(header, menu) then 1 else 0)
    ensures HeaderIncluded(header) ==> OutputFilePath(header, menu, itemText, base)[|base|] == Slug(header.value)
    ensures MenuIncluded(header, menu) ==>
      OutputFilePath(header, menu, itemText, base)[|OutputFilePath(header, menu, itemText, base)| - 2] == Slug(menu.value)
  {
  }

  predicate HeaderIncluded(header: Option<string>) {
    header.Some? && !IsBlank(header.value) && Slug(header.value) != []
  }

  predicate MenuIncluded(header: Option<string>, menu: Option<string>) {
    menu.Some? && !IsBlank(menu.value) && menu != header && Slug(menu.value) != []
  }

  /** A menu with the same text as its header gets no directory of its own. */
  lemma MenuSameAsHeaderOmitted(text: string, itemText: string, base: seq<string>)
    ensures |OutputFilePath(Some(text), Some(text), itemText, base)| <= |base| + 2
  {
  }

  /** Every directory the builder adds is a non-empty slug, so none holds a '/' and none
      can climb out of the base directory. */
  lemma PathDirectoriesSafe(header: Option<string>, menu: Option<string>, itemText: string, base: seq<string>)
    ensures forall i | |base| <= i < |OutputFilePath(header, menu, itemText, base)| - 1 ::
      IsPathSlug(OutputFilePath(header, menu, itemText, base)[i]) && OutputFilePath(header, menu, itemText, base)[i] != []
  {
    if header.Some? { SlugWellFormed(header.value); }
    if menu.Some? { SlugWellFormed(menu.value); }
  }

  /** The stem of a file name is a non-empty slug. */
  lemma FileStemWellFormed(itemText: string)
    ensures FileStem(itemText) != [] && IsPathSlug(FileStem(itemText))
  {
    SlugWellFormed(itemText);
    if Slug(itemText) == [] {
      UntitledIsSlug();
    }
  }

  lemma UntitledIsSlug()
    ensures IsPathSlug(Untitled)
  {
    assert forall i | 0 <= i < |Untitled| :: IsAsciiLower(Untitled[i]);
  }

  /** The file name with one trailing ".md" removed. */
  function FileNameStem(name: string): (stem: string)
    requires EndsWith(name, MdExtension)
    ensures stem + MdExtension == name
  {
    name[..|name| - |MdExtension|]
  }

  /** The file name is its non-empty stem, with ".md" added exactly when the stem does not
      already end in it: removing the extension gives the stem back, and an extension is
      never doubled. */
  lemma FileNameRoundTrip(itemText: string)
    ensures !EndsWith(FileStem(itemText), MdExtension) ==> FileNameStem(FileName(itemText)) == FileStem(itemText)
    ensures EndsWith(FileStem(itemText), MdExtension) ==> FileName(itemText) == FileStem(itemText)
  {
    var stem := FileStem(itemText);
    if !EndsWith(stem, MdExtension) {
      var name := FileName(itemText);
      assert name == stem + MdExtension;
      assert FileNameStem(name) + MdExtension == stem + MdExtension;
      assert FileNameStem(name) == (stem + MdExtension)[..|stem|];
    }
  }

  // ---------------------------------------------------------------------------
  // File names from item ids, debug paths
  // ---------------------------------------------------------------------------

  const MaxSafeTextLength := 50

  /** The text part of an id-based file name: characters for which `isAlnum` holds and
      ' ', '-', '_' are kept, trailing whitespace is removed, spaces become '_', and the
      result is cut to 50 characters. `isAlnum` stands for Python's `str.isalnum`. */
  function SafeText(text: string, isAlnum: char -> bool): (r: string)
    ensures |r| <= MaxSafeTextLength
  {
    var kept := Filter(text, c => isAlnum(c) || c == ' ' || c == '-' || c == '_');
    var spaced := ReplaceChar(RStrip(kept), ' ', '_');
    if |spaced| > MaxSafeTextLength then spaced[..MaxSafeTextLength] else spaced
  }

  function ReplaceChar(s: string, a: char, b: char): (r: string)
    ensures |r| == |s|
    ensures forall i | 0 <= i < |s| :: r[i] == if s[i] == a then b else s[i]
  {
    seq(|s|, i requires 0 <= i < |s| => if s[i] == a then b else s[i])
  }

  /** How Python formats an optional id inside an f-string. */
  function IdText(id: Option<string>): string {
    match id
    case None => "None"
    case Some(s) => s
  }

  /** `{safe text}_{id}.md`. */
  function OutputFilename(text: string, id: Option<string>, isAlnum: char -> bool): (name: string)
    ensures EndsWith(name, "_" + IdText(id) + MdExtension)
    ensures StartsWith(name, SafeText(text, isAlnum))
  {
    var safe := SafeText(text, isAlnum);
    var suffix := "_" + IdText(id) + MdExtension;
    assert (safe + suffix)[..|safe|] == safe;
    assert (safe + suffix)[|safe + suffix| - |suffix|..] == suffix;
    safe + suffix
  }

  /** The safe text holds no space and only alphanumerics, '-' and '_'. */
  lemma SafeTextChars(text: string, isAlnum: char -> bool)
    ensures forall i | 0 <= i < |SafeText(text, isAlnum)| ::
      SafeText(text, isAlnum)[i] != ' ' && (isAlnum(SafeText(text, isAlnum)[i]) || SafeText(text, isAlnum)[i] in {'-', '_'})
  {
    var keep := c => isAlnum(c) || c == ' ' || c == '-' || c == '_';
    var kept := Filter(text, keep);
    var stripped := RStrip(kept);
    TrimRightSpec(kept, Whitespace);
    assert forall i | 0 <= i < |stripped| :: stripped[i] == kept[i];
  }

  /** Text that is already safe and short passes through unchanged. */
  lemma SafeTextKeepsSafe(text: string, isAlnum: char -> bool)
    requires |text| <= MaxSafeTextLength
    requires forall i | 0 <= i < |text| :: isAlnum(text[i]) || text[i] in {'-', '_'}
    requires forall i | 0 <= i < |text| :: text[i] !in Whitespace
    ensures SafeText(text, isAlnum) == text
  {
    var keep := c => isAlnum(c) || c == ' ' || c == '-' || c == '_';
    FilterKeepsAll(text, keep);
    RStripKeepsUnspaced(text);
    NoSpaceUnreplaced(text);
  }

  lemma RStripKeepsUnspaced(text: string)
    requires forall i | 0 <= i < |text| :: text[i] !in Whitespace
    ensures RStrip(text) == text
  {
    if text != [] {
      assert text[|text| - 1] !in Whitespace;
    }
  }

  lemma NoSpaceUnreplaced(text: string)
    requires forall i | 0 <= i < |text| :: text[i] !in Whitespace
    ensures ReplaceChar(text, ' ', '_') == text
  {
    assert ' ' in Whitespace;
  }

  const DebugPrefix := "page_content_"

  /** The debug file `page_content_{slug of the id}.{file type}` directly inside the
      debug directory. */
  function DebugPath(debugDir: seq<string>, itemId: string, fileType: string): (path: seq<string>)
    ensures |path| == |debugDir| + 1 && path[..|debugDir|] == debugDir
    ensures StartsWith(path[|debugDir|], DebugPrefix)
    ensures EndsWith(path[|debugDir|], "." + fileType)
  {
    var name := DebugPrefix + Slug(itemId) + "." + fileType;
    assert name[..|DebugPrefix|] == DebugPrefix;
    assert name[|name| - |"." + fileType|..] == "." + fileType;
    debugDir + [name]
  }

  /** The part of the debug file name between the prefix and the extension is the id's
      slug, so it holds no '/' and stays inside the debug directory. */
  lemma DebugPathNamesSlug(debugDir: seq<string>, itemId: string, fileType: string)
    ensures DebugPath(debugDir, itemId, fileType)[|debugDir|][|DebugPrefix|..|DebugPrefix| + |Slug(itemId)|] == Slug(itemId)
    ensures IsPathSlug(Slug(itemId))
  {
    SlugWellFormed(itemId);
    var name := DebugPrefix + Slug(itemId) + "." + fileType;
    assert name[|DebugPrefix|..|DebugPrefix| + |Slug(itemId)|] == Slug(itemId);
  }
}
