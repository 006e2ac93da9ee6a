/**
  What follows from the promise of `LibFeatures::to_vec` (the tagged union of
  `stable` and `unstable`, sorted by name) about any list it may return.
 */
module LibFeaturesProps {
  import opened StrOrder
  import opened LibFeatures

  /** One entry per stable key: tagging is injective because the key is kept. */
  lemma {:induction false} StableEntriesOfSize(stable: map<string, string>, keys: set<string>)
    requires keys <= stable.Keys
    ensures |StableEntriesOf(stable, keys)| == |keys|
  {
    if keys != {} {
      var f :| f in keys;
      var rest := keys - {f};
      var e := (f, Some(stable[f]));
      assert StableEntriesOf(stable, keys) == StableEntriesOf(stable, rest) + {e};
      assert e !in StableEntriesOf(stable, rest);
      StableEntriesOfSize(stable, rest);
    }
  }

  /** One entry per unstable name. */
  lemma {:induction false} UnstableEntriesSize(unstable: set<string>)
    ensures |UnstableEntries(unstable)| == |unstable|
  {
    if unstable != {} {
      var f :| f in unstable;
      var rest := unstable - {f};
      var e: Feature := (f, None);
      assert UnstableEntries(unstable) == UnstableEntries(rest) + {e};
      assert e !in UnstableEntries(rest);
      UnstableEntriesSize(rest);
    }
  }

  /** The result has exactly one element per stable pair plus one per unstable name. */
  lemma ToVecLength(lf: LibFeatures, r: seq<Feature>)
    requires IsToVecResult(lf, r)
    ensures |r| == |lf.stable| + |lf.unstable|
  {
    StableEntriesOfSize(lf.stable, lf.stable.Keys);
    UnstableEntriesSize(lf.unstable);
    assert StableEntries(lf.stable) !! UnstableEntries(lf.unstable);
    assert |multiset(r)| == |multiset(TaggedUnion(lf))|;
  }

  /**
    The result holds `(f, Some(v))` exactly when `stable` maps `f` to `v`, and
    `(f, None)` exactly when `f` is unstable; nothing else appears.
   */
  lemma ToVecContents(lf: LibFeatures, r: seq<Feature>)
    requires IsToVecResult(lf, r)
    ensures forall f, v :: (f, Some(v)) in r <==> f in lf.stable && lf.stable[f] == v
    ensures forall f :: (f, None) in r <==> f in lf.unstable
  {
    forall e: Feature
      ensures e in r <==> e in TaggedUnion(lf)
    {
      assert e in r <==> e in multiset(r);
    }
  }

  /** Each entry of the result appears in it once. */
  lemma ToVecNoDuplicates(lf: LibFeatures, r: seq<Feature>)
    requires IsToVecResult(lf, r)
    ensures forall i, j :: 0 <= i < j < |r| ==> r[i] != r[j]
  {
    forall i, j | 0 <= i < j < |r|
      ensures r[i] != r[j]
    {
      // r[j] occurs once in all of r, and already once in r[j..]
      assert r == r[..j] + r[j..];
      assert multiset(r)[r[j]] == multiset(r[..j])[r[j]] + multiset(r[j..])[r[j]];
      assert r[j] in multiset(r[j..]);
      assert multiset(TaggedUnion(lf))[r[j]] <= 1;
      assert r[j] !in r[..j];
      assert r[i] in r[..j];
    }
  }

  /**
    In a result, an entry named `f` is `(f, Some(stable[f]))` or `(f, None)`,
    and each of those sits at one position only.
   */
  lemma EntriesNamed(lf: LibFeatures, r: seq<Feature>, f: string, i: nat, j: nat)
    requires IsToVecResult(lf, r)
    requires i < |r| && j < |r|
    requires f in lf.stable && r[i] == (f, Some(lf.stable[f]))
    requires r[j] == (f, None)
    ensures forall k :: 0 <= k < |r| && r[k].0 == f ==> k == i || k == j
  {
    ToVecContents(lf, r);
    ToVecNoDuplicates(lf, r);
    forall k | 0 <= k < |r| && r[k].0 == f
      ensures k == i || k == j
    {
      assert r[k] in r;
      if r[k].1.Some? {
        assert (f, Some(r[k].1.value)) in r;
        assert r[k] == r[i];
      } else {
        assert r[k] == r[j];
      }
    }
  }

  /**
    A name that is both stable and unstable yields two entries, `(f, Some(v))`
    and `(f, None)`, and the sort leaves them next to each other, in either order.
   */
  lemma ToVecBothAdjacent(lf: LibFeatures, r: seq<Feature>, f: string)
    requires IsToVecResult(lf, r)
    requires f in lf.stable && f in lf.unstable
    ensures exists i :: 0 <= i && i + 1 < |r| && {r[i], r[i + 1]} == {(f, Some(lf.stable[f])), (f, None)}
  {
    ToVecContents(lf, r);
    var s: Feature := (f, Some(lf.stable[f]));
    var n: Feature := (f, None);
    assert s in r && n in r;
    var i :| 0 <= i < |r| && r[i] == s;
    var j :| 0 <= j < |r| && r[j] == n;
    EntriesNamed(lf, r, f, i, j);
    var lo, hi := if i < j then i else j, if i < j then j else i;
    // the entry just after r[lo], if it comes before r[hi], is named `f` too
    var k := lo + 1;
    if k < hi {
      assert StrLe(r[lo].0, r[k].0) && StrLe(r[k].0, r[hi].0);
      StrLeAntisymmetric(r[k].0, f);
    }
    assert {r[lo], r[lo + 1]} == {s, n};
  }

  /**
    With no name both stable and unstable, the entry of a result is fixed by its
    name: `(f, Some(stable[f]))` for a stable name, `(f, None)` otherwise.
   */
  lemma EntryFixedByName(lf: LibFeatures, r: seq<Feature>, k: nat)
    requires IsToVecResult(lf, r)
    requires lf.stable.Keys !! lf.unstable
    requires k < |r|
    ensures r[k] == (var f := r[k].0; if f in lf.stable then (f, Some(lf.stable[f])) else (f, None))
  {
    ToVecContents(lf, r);
    var f := r[k].0;
    assert r[k] in r;
    match r[k].1
    case Some(v) =>
      assert r[k] == (f, Some(v));
    case None =>
      assert r[k] == (f, None);
      assert f in lf.unstable;
  }

  lemma {:induction false} NamesAt(s: seq<Feature>)
    ensures forall i :: 0 <= i < |s| ==> Names(s)[i] == s[i].0
  {
    if s != [] {
      NamesAt(s[1..]);
    }
  }

  lemma {:induction false} NamesAppend(a: seq<Feature>, b: seq<Feature>)
    ensures Names(a + b) == Names(a) + Names(b)
  {
    if a != [] {
      assert (a + b)[1..] == a[1..] + b;
      NamesAppend(a[1..], b);
    } else {
      assert a + b == b;
    }
  }

  /** Taking the entry at `k` out of `r` takes its name out of the names of `r`. */
  lemma {:induction false} NamesRemove(r: seq<Feature>, k: nat)
    requires k < |r|
    ensures multiset(Names(r)) == multiset(Names(r[..k] + r[k + 1..])) + multiset{r[k].0}
  {
    var a, x, b := r[..k], r[k], r[k + 1..];
    assert r == a + ([x] + b);
    assert ([x] + b)[1..] == b;
    assert Names([x] + b) == [x.0] + Names(b);
    NamesAppend(a, [x] + b);
    NamesAppend(a, b);
    assert Names(r) == Names(a) + ([x.0] + Names(b));
  }

  /** Sequences with the same elements have the same names with the same multiplicities. */
  lemma {:induction false} NamesPermutation(r1: seq<Feature>, r2: seq<Feature>)
    requires multiset(r1) == multiset(r2)
    ensures multiset(Names(r1)) == multiset(Names(r2))
  {
    if |r1| == 0 {
      assert |multiset(r2)| == 0;
    } else {
      var e := r1[0];
      assert e in multiset(r2);
      var k :| 0 <= k < |r2| && r2[k] == e;
      var rest1, rest2 := r1[1..], r2[..k] + r2[k + 1..];
      assert r1[..0] + r1[1..] == rest1;
      assert multiset(rest1) == multiset(rest2) by {
        RemoveAtMultiset(r1, 0);
        RemoveAtMultiset(r2, k);
      }
      NamesPermutation(rest1, rest2);
      assert multiset(Names(r1)) == multiset(Names(rest1)) + multiset{e.0} by {
        NamesRemove(r1, 0);
      }
      assert multiset(Names(r2)) == multiset(Names(rest2)) + multiset{e.0} by {
        NamesRemove(r2, k);
      }
    }
  }

  /** Taking the element at `k` out of `r` takes one copy of it out of the multiset. */
  lemma RemoveAtMultiset<T>(r: seq<T>, k: nat)
    requires k < |r|
    ensures multiset(r[..k] + r[k + 1..]) == multiset(r) - multiset{r[k]}
  {
    assert r == r[..k] + [r[k]] + r[k + 1..];
  }

  /** A list is sorted by name exactly when its list of names is sorted. */
  lemma SortedByNameIffSortedNames(r: seq<Feature>)
    ensures SortedByName(r) <==> SortedStrings(Names(r))
  {
    NamesAt(r);
  }

  /**
    Although the sort is unstable, the sequence of feature names in the result
    is determined: any two results list the same names in the same order.
   */
  lemma ToVecNamesDetermined(lf: LibFeatures, r1: seq<Feature>, r2: seq<Feature>)
    requires IsToVecResult(lf, r1) && IsToVecResult(lf, r2)
    ensures Names(r1) == Names(r2)
  {
    NamesPermutation(r1, r2);
    SortedByNameIffSortedNames(r1);
    SortedByNameIffSortedNames(r2);
    SortedStringsUnique(Names(r1), Names(r2));
  }

  /**
    When no name is both stable and unstable, no two entries share a name and
    the result is completely determined.
   */
  lemma ToVecDeterminedWhenDisjoint(lf: LibFeatures, r1: seq<Feature>, r2: seq<Feature>)
    requires IsToVecResult(lf, r1) && IsToVecResult(lf, r2)
    requires lf.stable.Keys !! lf.unstable
    ensures r1 == r2
  {
    ToVecNamesDetermined(lf, r1, r2);
    NamesAt(r1);
    NamesAt(r2);
    forall i | 0 <= i < |r1|
      ensures r1[i] == r2[i]
    {
      assert Names(r1)[i] == Names(r2)[i];
      EntryFixedByName(lf, r1, i);
      EntryFixedByName(lf, r2, i);
    }
  }

  /**
    For every name that is both stable and unstable, swapping its two adjacent
    entries in a result gives another, different result: the sort does not fix
    which of the two comes first.
   */
  lemma ToVecSwapBothListed(lf: LibFeatures, r: seq<Feature>, f: string, i: nat)
    requires IsToVecResult(lf, r)
    requires f in lf.stable && f in lf.unstable
    requires i + 1 < |r| && {r[i], r[i + 1]} == {(f, Some(lf.stable[f])), (f, None)}
    ensures var r' := r[i := r[i + 1]][i + 1 := r[i]];
            IsToVecResult(lf, r') && r' != r
  {
    var s: Feature := (f, Some(lf.stable[f]));
    var n: Feature := (f, None);
    assert r[i] in {s, n} && r[i + 1] in {s, n};
    // the two entries differ, since each of `s` and `n` is one of them
    assert s in {r[i], r[i + 1]} && n in {r[i], r[i + 1]} && s != n;
    assert r[i] != r[i + 1];
    var r' := r[i := r[i + 1]][i + 1 := r[i]];
    // both swapped entries carry the name `f`, so every position keeps its name
    SameNamesKeepSorted(r, r');
    SwapAdjacentKeepsMultiset(r, i);
    assert r'[i] == r[i + 1];
  }

  /** Two lists with the same name at every position are sorted alike. */
  lemma SameNamesKeepSorted(r: seq<Feature>, r': seq<Feature>)
    requires |r'| == |r| && forall k :: 0 <= k < |r| ==> r'[k].0 == r[k].0
    requires SortedByName(r)
    ensures SortedByName(r')
  {
    forall p, q | 0 <= p < q < |r'|
      ensures StrLe(r'[p].0, r'[q].0)
    {
      assert StrLe(r[p].0, r[q].0);
    }
  }

  /** Swapping two neighbours keeps the same entries. */
  lemma SwapAdjacentKeepsMultiset(r: seq<Feature>, i: nat)
    requires i + 1 < |r|
    ensures multiset(r[i := r[i + 1]][i + 1 := r[i]]) == multiset(r)
  {
    assert r == r[..i] + [r[i], r[i + 1]] + r[i + 2..];
    assert r[i := r[i + 1]][i + 1 := r[i]] == r[..i] + [r[i + 1], r[i]] + r[i + 2..];
  }

  /**
    A feature both stable (since "1.0.0") and unstable: both orders of its two
    entries are valid results, so nothing fixes which one `to_vec` returns.
   */
  lemma ToVecOrderOfDuplicatesUnspecified()
    ensures var lf := LibFeatures(map["f" := "1.0.0"], {"f"});
            var r1: seq<Feature> := [("f", Some("1.0.0")), ("f", None)];
            var r2: seq<Feature> := [("f", None), ("f", Some("1.0.0"))];
            IsToVecResult(lf, r1) && IsToVecResult(lf, r2) && r1 != r2
  {
    var lf := LibFeatures(map["f" := "1.0.0"], {"f"});
    var s: Feature := ("f", Some("1.0.0"));
    var n: Feature := ("f", None);
    assert lf.stable.Keys == {"f"};
    assert StableEntries(lf.stable) == {s} by {
      assert s in StableEntries(lf.stable);
    }
    assert UnstableEntries(lf.unstable) == {n} by {
      assert n in UnstableEntries(lf.unstable);
    }
    assert TaggedUnion(lf) == {s, n};
    StrLeReflexive("f");
  }
}
