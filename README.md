# lib_features: the library-feature listing of `librustc`

`src/librustc/lib.rs` is the crate root of the Rust compiler's main crate. Almost
all of it is feature gates, `extern crate` items and module declarations. The one
piece of behaviour it defines itself is the inline module `middle::lib_features`:

- `LibFeatures` is a struct with two collections. `stable` maps a feature name
  to the version in which it was stabilised. `unstable` is a set of feature names.
- `LibFeatures::to_vec` lists every feature as a `(name, Option<version>)` pair.
  A stable entry carries `Some(version)` and an unstable entry carries `None`.
  The list is sorted by the name's string with `sort_unstable_by_key`.

This project models that struct and method in Dafny:

- `str_order.dfy` (module `StrOrder`): the order Rust's `str` comparison puts on
  names. Rust compares the UTF-8 bytes lexicographically, which is the same as
  comparing code points lexicographically. `StrLe` does the latter on Dafny
  `char`s. It is proved to be a total order. Two sorted name lists with the same
  multiset of names are proved equal.
- `lib_features.dfy` (module `LibFeatures`): the struct of
  `src/librustc/lib.rs:109-114` as the datatype `LibFeatures`
  (`map<string, string>` and `set<string>`), with `to_vec` as the method `ToVec`.
  `ToVec` first collects the tagged entries. `TagStable` and `TagUnstable` walk
  the map and the set, picking each next element arbitrarily, because hash-map
  iteration order is unspecified. `Collect` chains the two. `ToVec` then copies
  the entries into an array, and `SortByName` sorts that array in place. The
  promise of `to_vec` is `IsToVecResult`: the result is sorted by name, and its
  multiset equals the tagged union of `stable` and `unstable`. Sorted-by-name
  plus permutation is all `sort_unstable_by_key` promises.
- `lib_features_props.dfy` (module `LibFeaturesProps`): what follows for every
  list that meets `IsToVecResult`:
  - its length;
  - exactly which entries it holds;
  - no entry appears twice;
  - a name that is both stable and unstable gives two adjacent entries, in
    either order;
  - the sequence of names is determined, even though the sort is unstable;
  - the whole list is determined when no name is both stable and unstable.

`to_vec` takes `&self`. Here `LibFeatures` is an immutable datatype value passed
to `ToVec`, so `stable` and `unstable` cannot change.

## Model

| member | source | states |
|---|---|---|
| StrOrder.StrLeIsLexicographic | src/librustc/lib.rs:124 | `StrLe`, the key comparison of the sort (`f.0.as_str()` under `Ord for str`), holds exactly when `a` is a prefix of `b` or, at the first position where they differ, `a` has the smaller character: lexicographic order on code points, which equals byte-wise order on UTF-8 |
| StrOrder.StrLeReflexive | src/librustc/lib.rs:124 | every name is ordered no later than itself |
| StrOrder.StrLeAntisymmetric | src/librustc/lib.rs:124 | two names each ordered no later than the other are the same string |
| StrOrder.StrLeTransitive | src/librustc/lib.rs:124 | the order on names is transitive |
| StrOrder.StrLeTotal | src/librustc/lib.rs:124 | any two names are comparable, so sorting by them is well defined |
| StrOrder.SortedStringsUnique | src/librustc/lib.rs:124 | two sorted lists with the same multiset of names are equal, so a sort fixes the order of its keys |
| LibFeatures.TagStable | src/librustc/lib.rs:118-121 | the mapped `stable` iterator yields each `(f, Some(v))` with `stable[f] == v` once, as many entries as `stable` has keys, all tagged `Some` |
| LibFeatures.TagUnstable | src/librustc/lib.rs:122 | the mapped `unstable` iterator yields each `(f, None)` with `f` unstable once, all tagged `None` |
| LibFeatures.Collect | src/librustc/lib.rs:118-123 | the collected chain holds the tagged union of both collections, each entry once; the first `stable.len()` entries are the `Some` ones, the rest are `None` |
| LibFeatures.SortByName | src/librustc/lib.rs:124 | after the in-place sort the array is non-decreasing by name and holds the same entries as before |
| LibFeatures.ToVec | src/librustc/lib.rs:117-126 | the result is sorted by name and is a permutation of the tagged union of `stable` and `unstable` |
| LibFeaturesProps.StableEntriesOfSize | src/librustc/lib.rs:119-121 | tagging the stable keys gives one distinct entry per key |
| LibFeaturesProps.UnstableEntriesSize | src/librustc/lib.rs:122 | tagging the unstable names gives one distinct entry per name |
| LibFeaturesProps.ToVecLength | src/librustc/lib.rs:118-123 | the result has exactly `stable.len() + unstable.len()` elements |
| LibFeaturesProps.ToVecContents | src/librustc/lib.rs:118-123 | `(f, Some(v))` is in the result iff `stable` maps `f` to `v`; `(f, None)` is in it iff `f` is unstable; nothing else appears |
| LibFeaturesProps.ToVecNoDuplicates | src/librustc/lib.rs:118-123 | no entry occurs at two positions of the result |
| LibFeaturesProps.EntriesNamed | src/librustc/lib.rs:118-123 | for a name both stable and unstable, only the positions of its `Some` entry and its `None` entry carry that name |
| LibFeaturesProps.ToVecBothAdjacent | src/librustc/lib.rs:122-124 | a name both stable and unstable yields its `Some` and `None` entries at adjacent positions, in either order |
| LibFeaturesProps.NamesPermutation | src/librustc/lib.rs:124 | entry lists with the same multiset have name lists (the sort keys) with the same multiset |
| LibFeaturesProps.SortedByNameIffSortedNames | src/librustc/lib.rs:124 | a list is sorted by its key exactly when its list of names is sorted |
| LibFeaturesProps.ToVecNamesDetermined | src/librustc/lib.rs:118-124 | any two results of `to_vec` on the same struct list the same names in the same order |
| LibFeaturesProps.EntryFixedByName | src/librustc/lib.rs:118-123 | if no name is both stable and unstable, each entry is fixed by its name: `(f, Some(stable[f]))` if `f` is stable, else `(f, None)` |
| LibFeaturesProps.ToVecDeterminedWhenDisjoint | src/librustc/lib.rs:118-124 | if no name is both stable and unstable, `to_vec` has exactly one possible result |
| LibFeaturesProps.ToVecSwapBothListed | src/librustc/lib.rs:122-124 | for every struct, every result and every name both stable and unstable, swapping that name's two adjacent entries gives another, different valid result, so the unstable sort leaves their order open |
| LibFeaturesProps.ToVecOrderOfDuplicatesUnspecified | src/librustc/lib.rs:122-124 | an example: for the struct with `f` stable since "1.0.0" and also unstable, both orders of the two entries are valid results |

## Left out

- The crate-level `#![feature]` attributes, the `extern crate` items and the module declarations of `src/librustc/lib.rs`: they are build configuration with no behaviour.
- The type context, trait resolution, type inference, query system, arenas, MIR and HIR. `lib.rs` only declares these modules; their source is not part of this model.
- The symbol interner: `FxHashMap` and `FxHashSet` hash and compare a `Symbol` by its interned index. The interner issues exactly one symbol per string, so comparing symbols is the same as comparing their strings. A `Symbol` is therefore modelled as the string `as_str` returns.
- `#[derive(HashStable)]` on `LibFeatures`: it is macro-generated incremental-compilation hashing.
- The iteration order of `FxHashMap` and `FxHashSet`. It is unspecified, so the tagging loops pick each next element arbitrarily, and no property depends on the order.
- The sorting algorithm: the standard library's `sort_unstable_by_key` uses pattern-defeating quicksort, which is not part of this model. `SortByName` is an insertion sort with the same promise: sorted by key, and a permutation of the input.
