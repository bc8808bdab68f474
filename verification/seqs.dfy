/** List comprehensions over sequences: `[x for x in s if keep(x)]`, the subsequence
    order it keeps, and how a keep/drop pair of comprehensions partitions a list. */
module Seqs {
  import opened Wrappers

  /** `[x for x in s if keep(x)]`. */
  function Filter<T>(s: seq<T>, keep: T -> bool): (r: seq<T>)
    ensures |r| <= |s|
    ensures forall i | 0 <= i < |r| :: keep(r[i]) && r[i] in s
    decreases |s|
  {
    if s == [] then []
    else if keep(s[0]) then [s[0]] + Filter(s[1..], keep)
    else Filter(s[1..], keep)
  }

  /** `[f(x) for x in s]`. */
  function Map<T, U>(s: seq<T>, f: T -> U): (r: seq<U>)
    ensures |r| == |s|
    ensures forall i | 0 <= i < |s| :: r[i] == f(s[i])
  {
    seq(|s|, i requires 0 <= i < |s| => f(s[i]))
  }

  /** The values present in a list of optional values, in order. */
  function Somes<T>(s: seq<Option<T>>): (r: seq<T>)
    ensures |r| <= |s|
    decreases |s|
  {
    if s == [] then []
    else (match s[0] case Some(x) => [x] case None => []) + Somes(s[1..])
  }

  /** The values of `f` at the positions `k` to `n - 1`, in order. */
  function Table<T>(f: nat -> T, k: nat, n: nat): (r: seq<T>)
    requires k <= n
    ensures |r| == n - k
    decreases n - k
  {
    if k == n then [] else [f(k)] + Table(f, k + 1, n)
  }

  lemma {:induction false} TableAt<T>(f: nat -> T, k: nat, n: nat, j: nat)
    requires k <= j < n
    ensures Table(f, k, n)[j - k] == f(j)
    decreases j - k
  {
    if k < j {
      TableAt(f, k + 1, n, j);
    }
  }

  lemma AppendAssoc<T>(a: seq<T>, b: seq<T>, c: seq<T>)
    ensures (a + b) + c == a + (b + c)
  {
  }

  /** The lists `f` gives for the elements of `s`, one after another. */
  function Concat<T, U>(s: seq<T>, f: T -> seq<U>): seq<U>
    decreases |s|
  {
    if s == [] then [] else f(s[0]) + Concat(s[1..], f)
  }

  /** Concatenating over a list is concatenating over any split of it. */
  lemma {:induction false} ConcatSplit<T, U>(s: seq<T>, f: T -> seq<U>, j: nat)
    requires j <= |s|
    ensures Concat(s, f) == Concat(s[..j], f) + Concat(s[j..], f)
    decreases j
  {
    if j == 0 {
      assert s[j..] == s;
    } else {
      ConcatSplit(s[1..], f, j - 1);
      assert s[..j][1..] == s[1..][..j - 1];
      assert s[1..][j - 1..] == s[j..];
      AppendAssoc(f(s[0]), Concat(s[1..][..j - 1], f), Concat(s[j..], f));
    }
  }

  /** Mapping a suffix: the first element's image, then the rest. */
  lemma MapFrom<T, U>(s: seq<T>, c: nat, f: T -> U)
    requires c < |s|
    ensures Map(s[c..], f) == [f(s[c])] + Map(s[c + 1..], f)
  {
    assert s[c..][1..] == s[c + 1..];
  }

  /** A value is kept exactly when it is present somewhere in the list. */
  lemma {:induction false} SomesMembers<T>(s: seq<Option<T>>, x: T)
    ensures x in Somes(s) <==> Some(x) in s
    decreases |s|
  {
    if s != [] {
      SomesMembers(s[1..], x);
      assert s == [s[0]] + s[1..];
    }
  }

  /** `a` is `b` with some elements left out, the rest in their order. */
  predicate IsSubsequence<T(==)>(a: seq<T>, b: seq<T>)
    decreases |b|
  {
    a == [] || (b != [] && (if a[0] == b[0] then IsSubsequence(a[1..], b[1..]) else IsSubsequence(a, b[1..])))
  }

  /** A filter that keeps every element changes nothing. */
  lemma {:induction false} FilterKeepsAll<T>(s: seq<T>, keep: T -> bool)
    requires forall i | 0 <= i < |s| :: keep(s[i])
    ensures Filter(s, keep) == s
    decreases |s|
  {
    if s != [] {
      assert forall i | 0 <= i < |s[1..]| :: s[1..][i] == s[i + 1];
      FilterKeepsAll(s[1..], keep);
    }
  }

  /** A filter that keeps nothing leaves nothing. */
  lemma {:induction false} FilterKeepsNone<T>(s: seq<T>, keep: T -> bool)
    requires forall i | 0 <= i < |s| :: !keep(s[i])
    ensures Filter(s, keep) == []
    decreases |s|
  {
    if s != [] {
      assert forall i | 0 <= i < |s[1..]| :: s[1..][i] == s[i + 1];
      FilterKeepsNone(s[1..], keep);
    }
  }

  /** Every kept element of `s` is in the result: with the ensures of `Filter`, the result
      holds exactly the elements of `s` that `keep` accepts. */
  lemma {:induction false} FilterComplete<T>(s: seq<T>, keep: T -> bool, x: T)
    requires x in s && keep(x)
    ensures x in Filter(s, keep)
    decreases |s|
  {
    if s[0] != x {
      assert x in s[1..];
      FilterComplete(s[1..], keep, x);
    }
  }

  /** The filter keeps the order of what it keeps. */
  lemma {:induction false} FilterIsSubsequence<T>(s: seq<T>, keep: T -> bool)
    ensures IsSubsequence(Filter(s, keep), s)
    decreases |s|
  {
    if s != [] {
      FilterIsSubsequence(s[1..], keep);
      var r := Filter(s, keep);
      if keep(s[0]) {
        assert r[1..] == Filter(s[1..], keep);
      } else {
        SubsequenceSkip(r, s);
      }
    }
  }

  lemma SubsequenceSkip<T>(a: seq<T>, b: seq<T>)
    requires b != [] && IsSubsequence(a, b[1..])
    ensures IsSubsequence(a, b)
    decreases |b|, 0
  {
    if a != [] && a[0] == b[0] {
      SubsequenceTail(a, b[1..]);
    }
  }

  /** Dropping the first element of a subsequence leaves a subsequence. */
  lemma {:induction false} SubsequenceTail<T>(a: seq<T>, b: seq<T>)
    requires a != [] && IsSubsequence(a, b)
    ensures IsSubsequence(a[1..], b)
    decreases |b|, 1
  {
    if a[0] == b[0] {
      if a[1..] != [] {
        SubsequenceSkip(a[1..], b);
      }
    } else {
      SubsequenceTail(a, b[1..]);
      if a[1..] != [] {
        SubsequenceSkip(a[1..], b);
      }
    }
  }

  /** A prefix is a subsequence. */
  lemma {:induction false} PrefixIsSubsequence<T>(s: seq<T>, n: nat)
    requires n <= |s|
    ensures IsSubsequence(s[..n], s)
    decreases n
  {
    if n > 0 {
      assert s[..n][1..] == s[1..][..n - 1];
      PrefixIsSubsequence(s[1..], n - 1);
    }
  }

  /** Subsequence is transitive. */
  lemma {:induction false} SubsequenceTrans<T>(a: seq<T>, b: seq<T>, c: seq<T>)
    requires IsSubsequence(a, b) && IsSubsequence(b, c)
    ensures IsSubsequence(a, c)
    decreases |c|
  {
    if a != [] {
      if b[0] == c[0] {
        if a[0] == b[0] {
          SubsequenceTrans(a[1..], b[1..], c[1..]);
        } else {
          SubsequenceTrans(a, b[1..], c[1..]);
          SubsequenceSkip(a, c);
        }
      } else {
        SubsequenceTrans(a, b, c[1..]);
        SubsequenceSkip(a, c);
      }
    }
  }

  /** Keeping what `keep` accepts and keeping what `drop`, its negation on `s`, accepts
      splits the list: together the two results hold every element exactly as often as
      the list does. */
  lemma {:induction false} FilterPartition<T>(s: seq<T>, keep: T -> bool, drop: T -> bool)
    requires forall i | 0 <= i < |s| :: drop(s[i]) == !keep(s[i])
    ensures multiset(Filter(s, keep)) + multiset(Filter(s, drop)) == multiset(s)
    ensures |Filter(s, keep)| + |Filter(s, drop)| == |s|
    decreases |s|
  {
    if s != [] {
      assert forall i | 0 <= i < |s[1..]| :: s[1..][i] == s[i + 1];
      FilterPartition(s[1..], keep, drop);
      assert s == [s[0]] + s[1..];
    }
  }

  /** Filtering distributes over concatenation. */
  lemma {:induction false} FilterConcat<T>(a: seq<T>, b: seq<T>, keep: T -> bool)
    ensures Filter(a + b, keep) == Filter(a, keep) + Filter(b, keep)
    decreases |a|
  {
    if a == [] {
      assert a + b == b;
    } else {
      assert (a + b)[1..] == a[1..] + b;
      FilterConcat(a[1..], b, keep);
    }
  }

  /** Filtering a list extended by one element. */
  lemma FilterSnoc<T>(s: seq<T>, x: T, keep: T -> bool)
    ensures |Filter(s + [x], keep)| == |Filter(s, keep)| + if keep(x) then 1 else 0
  {
    FilterConcat(s, [x], keep);
    assert [x][1..] == [];
  }

  /** One pass over `s` that sends each element to `yes` when `keep` accepts it and to
      `no` otherwise. */
  method Partition<T>(s: seq<T>, keep: T -> bool) returns (yes: seq<T>, no: seq<T>)
    ensures forall i | 0 <= i < |yes| :: yes[i] in s && keep(yes[i])
    ensures forall i | 0 <= i < |no| :: no[i] in s && !keep(no[i])
    ensures multiset(yes) + multiset(no) == multiset(s)
    ensures IsSubsequence(yes, s) && IsSubsequence(no, s)
  {
    var drop := x => !keep(x);
    yes, no := [], [];
    var k := 0;
    while k < |s|
      invariant 0 <= k <= |s|
      invariant yes == Filter(s[..k], keep)
      invariant no == Filter(s[..k], drop)
    {
      assert s[..k + 1] == s[..k] + [s[k]];
      FilterConcat(s[..k], [s[k]], keep);
      FilterConcat(s[..k], [s[k]], drop);
      if keep(s[k]) {
        yes := yes + [s[k]];
      } else {
        no := no + [s[k]];
      }
      k := k + 1;
    }
    assert s[..k] == s;
    FilterPartition(s, keep, drop);
    FilterIsSubsequence(s, keep);
    FilterIsSubsequence(s, drop);
  }
}
