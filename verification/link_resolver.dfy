/** Id handling for parsed items: synthetic ids for endpoints that lack one, id
    normalisation, and the reference map used to find duplicate ids. */
module LinkResolver {
  import opened Wrappers
  import opened Text
  import opened Structure
  import opened Regex
  import opened Seqs

  const SyntheticPrefix := "synthetic-"

  // ---------------------------------------------------------------------------
  // Synthetic ids
  // ---------------------------------------------------------------------------

  /** A character a synthetic id body may hold: no upper case, and a word character
      or '-'. */
  predicate SlugChar(c: char) {
    !IsAsciiUpper(c) && (IsWordChar(c) || c == '-')
  }

  /** The body of a synthetic id: lower-cased, special characters removed, whitespace
      runs turned into '-', '-' runs collapsed and outer '-' removed. */
  function SyntheticBody(text: string): (b: string)
    ensures forall i | 0 <= i < |b| :: SlugChar(b[i])
    ensures b == [] || (b[0] != '-' && b[|b| - 1] != '-')
    ensures forall i | 0 <= i && i + 1 < |b| :: !(b[i] == '-' && b[i + 1] == '-')
  {
    var single := CollapseRuns(CollapseRuns(KeepWordSpaceDash(Lower(text)), Whitespace, '-'), {'-'}, '-');
    SyntheticStages(text, single);
    TrimmedDashes(single);
    Trim(single, {'-'})
  }

  lemma TrimmedDashes(single: string)
    requires forall i | 0 <= i < |single| :: SlugChar(single[i])
    requires forall i | 0 <= i && i + 1 < |single| :: !(single[i] in {'-'} && single[i + 1] in {'-'})
    ensures (forall i | 0 <= i < |Trim(single, {'-'})| :: SlugChar(Trim(single, {'-'})[i]))
      && (Trim(single, {'-'}) == [] || (Trim(single, {'-'})[0] != '-' && Trim(single, {'-'})[|Trim(single, {'-'})| - 1] != '-'))
      && (forall i | 0 <= i && i + 1 < |Trim(single, {'-'})| :: !(Trim(single, {'-'})[i] == '-' && Trim(single, {'-'})[i + 1] == '-'))
  {
    var b := Trim(single, {'-'});
    TrimSpec(single, {'-'});
    TrimKeepsNoDoubles(single, {'-'});
    TrimKeepsChars(single, {'-'});
    forall i | 0 <= i && i + 1 < |b|
      ensures !(b[i] == '-' && b[i + 1] == '-')
    {
      assert !(b[i] in {'-'} && b[i + 1] in {'-'});
    }
  }

  /** After the two collapses only slug characters are left, and no two '-' touch. */
  lemma SyntheticStages(text: string, single: string)
    requires single == CollapseRuns(CollapseRuns(KeepWordSpaceDash(Lower(text)), Whitespace, '-'), {'-'}, '-')
    ensures forall i | 0 <= i < |single| :: SlugChar(single[i])
    ensures forall i | 0 <= i && i + 1 < |single| :: !(single[i] in {'-'} && single[i + 1] in {'-'})
  {
    var lowered := Lower(text);
    var kept := KeepWordSpaceDash(lowered);
    KeepWordSpaceDashSpec(lowered);
    forall i | 0 <= i < |kept|
      ensures kept[i] in Whitespace || SlugChar(kept[i])
    {
      var j :| 0 <= j < |lowered| && lowered[j] == kept[i];
    }
    var dashed := CollapseRuns(kept, Whitespace, '-');
    CollapseRunsSpec(kept, Whitespace, '-');
    forall i | 0 <= i < |dashed|
      ensures SlugChar(dashed[i])
    {
      if dashed[i] != '-' {
        var j :| 0 <= j < |kept| && kept[j] == dashed[i];
      }
    }
    CollapseRunsSpec(dashed, {'-'}, '-');
    forall i | 0 <= i < |single|
      ensures SlugChar(single[i])
    {
      if single[i] != '-' {
        var j :| 0 <= j < |dashed| && dashed[j] == single[i];
      }
    }
  }

  /** `"synthetic-"` followed by the text's slug. */
  function GenerateSyntheticId(text: string): (id: string)
    ensures StartsWith(id, SyntheticPrefix)
    ensures id[|SyntheticPrefix|..] == SyntheticBody(text)
  {
    SyntheticPrefix + SyntheticBody(text)
  }

  /** Upper-case letters do not change the synthetic id. */
  lemma SyntheticIdIgnoresCase(text: string)
    ensures GenerateSyntheticId(Lower(text)) == GenerateSyntheticId(text)
  {
    LowerIdempotent(text);
  }

  // ---------------------------------------------------------------------------
  // Endpoint detection
  // ---------------------------------------------------------------------------

  const ApiPatterns: seq<string> := [
    "(GET)", "(POST)", "(PUT)", "(DELETE)", "(PATCH)",
    "Query", "Add", "Create", "Update", "Delete", "Modify",
    "Get ", "Set ", "List ", "Remove ", "Retrieve"
  ]

  /** True when some pattern occurs in the text, both lower-cased. */
  function LooksLikeApiEndpoint(text: string): (r: bool)
    ensures r <==> exists p | p in ApiPatterns :: Contains(Lower(text), Lower(p))
  {
    AnyPatternIn(Lower(text), ApiPatterns)
  }

  function AnyPatternIn(s: string, patterns: seq<string>): (r: bool)
    ensures r <==> exists p | p in patterns :: Contains(s, Lower(p))
    decreases |patterns|
  {
    if patterns == [] then false
    else if Contains(s, Lower(patterns[0])) then true
    else
      assert forall p | p in patterns :: p == patterns[0] || p in patterns[1..];
      AnyPatternIn(s, patterns[1..])
  }

  /** Whether the text looks like an endpoint does not depend on letter case. */
  lemma EndpointIgnoresCase(text: string)
    ensures LooksLikeApiEndpoint(Lower(text)) == LooksLikeApiEndpoint(text)
  {
    LowerIdempotent(text);
  }

  // ---------------------------------------------------------------------------
  // Id resolution and requirements
  // ---------------------------------------------------------------------------

  /** The element's own id if it has a non-empty one; otherwise a synthetic id when the
      text looks like an endpoint; otherwise the missing id as found. */
  function ResolveItemId(elementId: Option<string>, text: string): (r: Option<string>)
    ensures Truthy(elementId) ==> r == elementId
    ensures !Truthy(elementId) && LooksLikeApiEndpoint(text) ==>
      r == Some(GenerateSyntheticId(text)) && StartsWith(r.value, SyntheticPrefix)
    ensures !Truthy(elementId) && !LooksLikeApiEndpoint(text) ==> !Truthy(r)
    ensures Truthy(r) <==> Truthy(elementId) || LooksLikeApiEndpoint(text)
  {
    if !Truthy(elementId) && LooksLikeApiEndpoint(text) then Some(GenerateSyntheticId(text))
    else elementId
  }

  /** Only an "item" without an id fails the id requirement. */
  function ValidateIdRequirement(id: Option<string>, kind: string, text: string): (ok: bool)
    ensures !ok <==> !Truthy(id) && kind == "item"
  {
    if !Truthy(id) then kind != "item" else true
  }

  // ---------------------------------------------------------------------------
  // Normalisation and references
  // ---------------------------------------------------------------------------

  const IdEdgeChars: set<char> := Whitespace + {'-', '_'}

  /** Strips whitespace, then removes leading and trailing runs of whitespace, '-' and
      '_'; an empty id is returned unchanged. */
  function NormalizeId(id: string): (r: string)
    ensures r == [] || (r[0] !in IdEdgeChars && r[|r| - 1] !in IdEdgeChars)
    ensures exists i, j | 0 <= i <= j <= |id| ::
              r == id[i..j]
              && (forall k | 0 <= k < i :: id[k] in IdEdgeChars)
              && (forall k | j <= k < |id| :: id[k] in IdEdgeChars)
    ensures id == [] ==> r == []
    ensures |r| <= |id|
  {
    if id == [] then
      assert id == id[0..0];
      id
    else
      TrimSpec(Strip(id), IdEdgeChars);
      NormalizeIdSlice(id);
      Trim(Strip(id), IdEdgeChars)
  }

  /** Stripping whitespace and then edge characters cuts one run of edge characters off
      each end. */
  lemma NormalizeIdSlice(id: string)
    ensures exists i, j | 0 <= i <= j <= |id| ::
              Trim(Strip(id), IdEdgeChars) == id[i..j]
              && (forall k | 0 <= k < i :: id[k] in IdEdgeChars)
              && (forall k | j <= k < |id| :: id[k] in IdEdgeChars)
  {
    var i1, j1 := TrimBounds(id, Whitespace);
    var t := id[i1..j1];
    var i2, j2 := TrimBounds(t, IdEdgeChars);
    var i, j := i1 + i2, i1 + j2;
    assert Trim(Strip(id), IdEdgeChars) == id[i..j];
    forall k | 0 <= k < i
      ensures id[k] in IdEdgeChars
    {
      if k >= i1 {
        assert id[k] == t[k - i1];
      }
    }
    forall k | j <= k < |id|
      ensures id[k] in IdEdgeChars
    {
      if k < j1 {
        assert id[k] == t[k - i1];
      }
    }
  }

  lemma NormalizeIdIdempotent(id: string)
    ensures NormalizeId(NormalizeId(id)) == NormalizeId(id)
  {
    var r := NormalizeId(id);
    if r != [] {
      TrimUnchanged(r, Whitespace);
      TrimUnchanged(r, IdEdgeChars);
    }
  }

  /** Ids already free of edge characters are left alone. */
  lemma NormalizeIdKeepsClean(id: string)
    requires id != [] && id[0] !in IdEdgeChars && id[|id| - 1] !in IdEdgeChars
    ensures NormalizeId(id) == id
  {
    TrimUnchanged(id, Whitespace);
    TrimUnchanged(id, IdEdgeChars);
  }

  /** The item has a non-empty id whose key under `key` is `k`. */
  predicate HasKey(item: Item, key: string -> string, k: string) {
    Truthy(item.id) && key(item.id.value) == k
  }

  /** Maps the normalised non-empty ids to the items carrying them; later items
      overwrite earlier ones. */
  function CreateReferenceMap(items: seq<Item>): (m: map<string, Item>)
    ensures forall k | k in m :: m[k] in items && HasKey(m[k], NormalizeId, k)
  {
    ReferenceMapBy(items, NormalizeId)
  }

  function ReferenceMapBy(items: seq<Item>, key: string -> string): (m: map<string, Item>)
    ensures forall k | k in m :: m[k] in items && HasKey(m[k], key, k)
    decreases |items|
  {
    if items == [] then map[]
    else
      var last := items[|items| - 1];
      var m := ReferenceMapBy(items[..|items| - 1], key);
      if Truthy(last.id) then m[key(last.id.value) := last] else m
  }

  /** Reference definition: the position of the last item whose key is `k`. */
  function LastWithKey(items: seq<Item>, key: string -> string, k: string): (r: Option<nat>)
    ensures r.Some? ==> r.value < |items| && HasKey(items[r.value], key, k)
    ensures r.Some? ==> forall l | r.value < l < |items| :: !HasKey(items[l], key, k)
    ensures r.None? ==> forall l | 0 <= l < |items| :: !HasKey(items[l], key, k)
    decreases |items|
  {
    if items == [] then None
    else if HasKey(items[|items| - 1], key, k) then Some(|items| - 1)
    else LastWithKey(items[..|items| - 1], key, k)
  }

  /** A normalised id is in the map exactly when some item has it, and it is bound to the
      last such item. */
  lemma ReferenceMapLastWins(items: seq<Item>, k: string)
    ensures k in CreateReferenceMap(items) <==> LastWithKey(items, NormalizeId, k).Some?
    ensures k in CreateReferenceMap(items) ==>
      CreateReferenceMap(items)[k] == items[LastWithKey(items, NormalizeId, k).value]
  {
    ReferenceMapByLastWins(items, NormalizeId, k);
  }

  lemma {:induction false} ReferenceMapByLastWins(items: seq<Item>, key: string -> string, k: string)
    ensures k in ReferenceMapBy(items, key) <==> LastWithKey(items, key, k).Some?
    ensures k in ReferenceMapBy(items, key) ==>
      ReferenceMapBy(items, key)[k] == items[LastWithKey(items, key, k).value]
    decreases |items|
  {
    if items != [] {
      var pre := items[..|items| - 1];
      ReferenceMapByLastWins(pre, key, k);
      if !HasKey(items[|items| - 1], key, k) {
        match LastWithKey(pre, key, k)
        case None =>
        case Some(j) =>
          assert items[j] == pre[j];
      }
    }
  }

  /** One error per item with an id whose normalised id is bound to a different item, in
      the order of the items. */
  function ValidateReferences(items: seq<Item>): (errors: seq<Item>)
    ensures |errors| <= |items|
    ensures forall e | e in errors :: e in items && Truthy(e.id)
    ensures errors == Filter(items, it => Misbound(CreateReferenceMap(items), NormalizeId, it))
  {
    DuplicateErrorsExact(items, CreateReferenceMap(items), NormalizeId);
    DuplicateErrors(items, CreateReferenceMap(items), NormalizeId)
  }

  /** `it` has an id that `m` does not bind, under `key`, to `it` itself. */
  predicate Misbound(m: map<string, Item>, key: string -> string, it: Item) {
    Truthy(it.id) && (key(it.id.value) !in m || m[key(it.id.value)] != it)
  }

  /** The items of `items` that have an id whose entry in `m` is not that item. */
  function DuplicateErrors(items: seq<Item>, m: map<string, Item>, key: string -> string): (errors: seq<Item>)
    ensures |errors| <= |items|
    ensures forall e | e in errors :: e in items && Truthy(e.id)
    ensures forall e | e in errors :: Truthy(e.id) && (key(e.id.value) !in m || m[key(e.id.value)] != e)
    decreases |items|
  {
    if items == [] then []
    else
      var it := items[0];
      var rest := DuplicateErrors(items[1..], m, key);
      if Misbound(m, key, it) then [it] + rest else rest
  }

  /** The errors are exactly the misbound items, in input order and as often as they occur. */
  lemma {:induction false} DuplicateErrorsExact(items: seq<Item>, m: map<string, Item>, key: string -> string)
    ensures DuplicateErrors(items, m, key) == Filter(items, it => Misbound(m, key, it))
    decreases |items|
  {
    if items != [] {
      DuplicateErrorsExact(items[1..], m, key);
    }
  }

  /** An item with an id is reported exactly when a later item with the same normalised id
      took its place in the reference map. */
  lemma ReportedIffOverwritten(items: seq<Item>, i: nat)
    requires i < |items| && Truthy(items[i].id)
    ensures LastWithKey(items, NormalizeId, NormalizeId(items[i].id.value)).Some?
    ensures items[i] in ValidateReferences(items) <==>
      items[LastWithKey(items, NormalizeId, NormalizeId(items[i].id.value)).value] != items[i]
  {
    var k := NormalizeId(items[i].id.value);
    var m := CreateReferenceMap(items);
    ReferenceMapLastWins(items, k);
    if LastWithKey(items, NormalizeId, k).None? {
      assert HasKey(items[i], NormalizeId, k);
    }
    if Misbound(m, NormalizeId, items[i]) {
      FilterComplete(items, it => Misbound(m, NormalizeId, it), items[i]);
    }
  }

  /** Items whose normalised ids are pairwise different produce no errors. */
  lemma DistinctIdsNoErrors(items: seq<Item>)
    requires forall i, j | 0 <= i < j < |items| && Truthy(items[i].id) && Truthy(items[j].id) ::
      NormalizeId(items[i].id.value) != NormalizeId(items[j].id.value)
    ensures ValidateReferences(items) == []
  {
    var m := CreateReferenceMap(items);
    forall i | 0 <= i < |items| && Truthy(items[i].id)
      ensures NormalizeId(items[i].id.value) in m && m[NormalizeId(items[i].id.value)] == items[i]
    {
      var k := NormalizeId(items[i].id.value);
      ReferenceMapLastWins(items, k);
      var j := LastWithKey(items, NormalizeId, k).value;
      assert j == i;
    }
    NoErrorsWhenMapped(items, m, NormalizeId);
  }

  lemma {:induction false} NoErrorsWhenMapped(items: seq<Item>, m: map<string, Item>, key: string -> string)
    requires forall i | 0 <= i < |items| && Truthy(items[i].id) ::
      key(items[i].id.value) in m && m[key(items[i].id.value)] == items[i]
    ensures DuplicateErrors(items, m, key) == []
    decreases |items|
  {
    if items != [] {
      assert forall i | 0 <= i < |items| - 1 :: items[1..][i] == items[i + 1];
      NoErrorsWhenMapped(items[1..], m, key);
    }
  }

  /** Two unequal items with the same normalised id: the earlier one is reported. */
  lemma DuplicateIsReported(a: Item, b: Item)
    requires Truthy(a.id) && Truthy(b.id) && a != b
    requires NormalizeId(a.id.value) == NormalizeId(b.id.value)
    ensures ValidateReferences([a, b]) == [a]
  {
    DuplicateIsReportedBy(a, b, NormalizeId);
  }

  lemma DuplicateIsReportedBy(a: Item, b: Item, key: string -> string)
    requires Truthy(a.id) && Truthy(b.id) && a != b
    requires key(a.id.value) == key(b.id.value)
    ensures DuplicateErrors([a, b], ReferenceMapBy([a, b], key), key) == [a]
  {
    var items := [a, b];
    var m := ReferenceMapBy(items, key);
    assert items[..1] == [a];
    assert m == ReferenceMapBy([a], key)[key(b.id.value) := b];
    assert items[1..] == [b];
    NoErrorsWhenMapped([b], m, key);
  }
}
