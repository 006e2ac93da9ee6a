/**
  `middle::lib_features`: the library features a crate declares, split into
  the stable ones (each with the version in which it was stabilised) and the
  unstable ones, and `to_vec`, which lists them all sorted by feature name.

  A `Symbol` is an interned string. The interner issues exactly one symbol
  per string, so hashing and comparing symbols by their interned index agrees
  with comparing their text; a symbol is modelled as its `string`.
 */
module LibFeatures {
  import opened StrOrder

  datatype Option<T> = None | Some(value: T)

  /** A feature name paired with its stabilisation version, `None` when unstable. */
  type Feature = (string, Option<string>)

  /**
    The struct `LibFeatures`: `stable` maps a feature to the version it was
    stabilised in, `unstable` is the set of unstable feature names. A name may
    appear in both.
   */
  datatype LibFeatures = LibFeatures(stable: map<string, string>, unstable: set<string>)

  /** The entries `(f, Some(stable[f]))` for the keys `f` in `keys`. */
  ghost function StableEntriesOf(stable: map<string, string>, keys: set<string>): set<Feature>
    requires keys <= stable.Keys
  {
    set f | f in keys :: (f, Some(stable[f]))
  }

  /** The entries `(f, Some(v))`, one per pair of `stable`. */
  ghost function StableEntries(stable: map<string, string>): set<Feature>
  {
    StableEntriesOf(stable, stable.Keys)
  }

  /** The entries `(f, None)`, one per name of `unstable`. */
  ghost function UnstableEntries(unstable: set<string>): set<Feature>
  {
    set f | f in unstable :: (f, None)
  }

  /** Everything `to_vec` lists: both collections tagged and put together. */
  ghost function TaggedUnion(lf: LibFeatures): set<Feature>
  {
    StableEntries(lf.stable) + UnstableEntries(lf.unstable)
  }

  /** Non-decreasing by feature name; entries with equal names may come in either order. */
  predicate SortedByName(s: seq<Feature>)
  {
    forall i, j :: 0 <= i < j < |s| ==> StrLe(s[i].0, s[j].0)
  }

  /** What `to_vec` promises of its result `r`: the tagged union, each entry once, sorted by name. */
  ghost predicate IsToVecResult(lf: LibFeatures, r: seq<Feature>)
  {
    SortedByName(r) && multiset(r) == multiset(TaggedUnion(lf))
  }

  /** The feature names of a list of entries, in order. */
  function Names(s: seq<Feature>): (names: seq<string>)
    ensures |names| == |s|
  {
    if s == [] then [] else [s[0].0] + Names(s[1..])
  }

  lemma MultisetOfSetAdd<T>(s: set<T>, e: T)
    requires e !in s
    ensures multiset(s + {e}) == multiset(s) + multiset{e}
  {
  }

  lemma MultisetOfDisjointUnion<T>(s: set<T>, t: set<T>)
    requires s !! t
    ensures multiset(s + t) == multiset(s) + multiset(t)
  {
  }

  /** Collecting one more key adds exactly its entry to the stable entries collected so far. */
  lemma StableEntriesGrow(stable: map<string, string>, done: set<string>, f: string)
    requires done <= stable.Keys && f in stable && f !in done
    ensures multiset(StableEntriesOf(stable, done + {f}))
         == multiset(StableEntriesOf(stable, done)) + multiset{(f, Some(stable[f]))}
  {
    var e := (f, Some(stable[f]));
    assert StableEntriesOf(stable, done + {f}) == StableEntriesOf(stable, done) + {e};
    MultisetOfSetAdd(StableEntriesOf(stable, done), e);
  }

  /** Collecting one more name adds exactly its entry to the unstable entries collected so far. */
  lemma UnstableEntriesGrow(done: set<string>, f: string)
    requires f !in done
    ensures multiset(UnstableEntries(done + {f})) == multiset(UnstableEntries(done)) + multiset{(f, None)}
  {
    var e: Feature := (f, None);
    assert UnstableEntries(done + {f}) == UnstableEntries(done) + {e};
    MultisetOfSetAdd(UnstableEntries(done), e);
  }

  /**
    `stable.iter().map(|(f, s)| (*f, Some(*s)))`: every pair of the map, tagged
    `Some`. A hash map is walked in no particular order, so each next key is
    picked arbitrarily.
   */
  method TagStable(stable: map<string, string>) returns (tagged: seq<Feature>)
    ensures multiset(tagged) == multiset(StableEntries(stable))
    ensures |tagged| == |stable|
    ensures forall i :: 0 <= i < |tagged| ==> tagged[i].1.Some?
  {
    tagged := [];
    var todo, done := stable.Keys, {};
    while todo != {}
      invariant done !! todo && done + todo == stable.Keys
      invariant multiset(tagged) == multiset(StableEntriesOf(stable, done))
      invariant |tagged| == |done|
      invariant forall i :: 0 <= i < |tagged| ==> tagged[i].1.Some?
      decreases |todo|
    {
      var f :| f in todo;
      StableEntriesGrow(stable, done, f);
      tagged := tagged + [(f, Some(stable[f]))];
      todo, done := todo - {f}, done + {f};
    }
    assert done == stable.Keys;
  }

  /**
    `unstable.iter().map(|f| (*f, None))`: every name of the set, tagged `None`,
    in no particular order.
   */
  method TagUnstable(unstable: set<string>) returns (tagged: seq<Feature>)
    ensures multiset(tagged) == multiset(UnstableEntries(unstable))
    ensures forall i :: 0 <= i < |tagged| ==> tagged[i].1.None?
  {
    tagged := [];
    var rest, seen := unstable, {};
    while rest != {}
      invariant seen !! rest && seen + rest == unstable
      invariant multiset(tagged) == multiset(UnstableEntries(seen))
      invariant forall i :: 0 <= i < |tagged| ==> tagged[i].1.None?
      decreases |rest|
    {
      var f :| f in rest;
      UnstableEntriesGrow(seen, f);
      tagged := tagged + [(f, None)];
      rest, seen := rest - {f}, seen + {f};
    }
    assert seen == unstable;
  }

  /**
    The collection step of `to_vec`: the stable entries chained with the
    unstable ones, collected into one list.
   */
  method Collect(lf: LibFeatures) returns (all: seq<Feature>)
    ensures multiset(all) == multiset(TaggedUnion(lf))
    ensures forall i :: 0 <= i < |all| ==> (all[i].1.Some? <==> i < |lf.stable|)
  {
    var stableTagged := TagStable(lf.stable);
    var unstableTagged := TagUnstable(lf.unstable);
    all := stableTagged + unstableTagged;
    MultisetOfDisjointUnion(StableEntries(lf.stable), UnstableEntries(lf.unstable));
  }

  /**
    `sort_unstable_by_key(|f| f.0.as_str())`, in place: afterwards the array is
    sorted by name and holds the same entries. Which of two entries with equal
    names comes first is not promised.
   */
  method SortByName(a: array<Feature>)
    modifies a
    ensures SortedByName(a[..])
    ensures multiset(a[..]) == multiset(old(a[..]))
  {
    var i := 0;
    while i < a.Length
      invariant 0 <= i <= a.Length
      invariant forall p, q :: 0 <= p < q < i ==> StrLe(a[p].0, a[q].0)
      invariant multiset(a[..]) == multiset(old(a[..]))
    {
      // insert a[i] into the sorted prefix a[..i] by swapping it leftwards
      var j := i;
      while j > 0 && !StrLe(a[j - 1].0, a[j].0)
        invariant 0 <= j <= i
        invariant forall p, q :: 0 <= p < q <= i && q != j ==> StrLe(a[p].0, a[q].0)
        invariant forall q :: j < q <= i ==> StrLe(a[j].0, a[q].0)
        invariant multiset(a[..]) == multiset(old(a[..]))
      {
        StrLeTotal(a[j - 1].0, a[j].0);
        a[j - 1], a[j] := a[j], a[j - 1];
        j := j - 1;
      }
      forall p | 0 <= p < j - 1
        ensures StrLe(a[p].0, a[j].0)
      {
        StrLeTransitive(a[p].0, a[j - 1].0, a[j].0);
      }
      i := i + 1;
    }
  }

  /** `LibFeatures::to_vec`: all features, tagged, sorted by name. */
  method ToVec(lf: LibFeatures) returns (r: seq<Feature>)
    ensures SortedByName(r)
    ensures multiset(r) == multiset(TaggedUnion(lf))
  {
    var all := Collect(lf);
    var a := new Feature[|all|](i requires 0 <= i < |all| => all[i]);
    assert a[..] == all;
    SortByName(a);
    r := a[..];
  }
}
