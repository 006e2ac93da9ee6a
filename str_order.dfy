/**
  The order Rust's `str` comparison puts on feature names.

  `str` compares the UTF-8 bytes of the two strings lexicographically; since
  UTF-8 encoding preserves the order of code points, that is the same as
  comparing the strings character by character, a proper prefix coming first.
  A Dafny `char` is a Unicode scalar value, so `StrLe` compares code points.
 */
module StrOrder {

  /**
    `a <= b` in lexicographic order on characters: `a` is a prefix of `b`, or
    at the first position where they differ, `a` has the smaller character.
   */
  predicate StrLe(a: string, b: string)
  {
    if |a| == 0 then true
    else if |b| == 0 then false
    else if a[0] != b[0] then a[0] < b[0]
    else StrLe(a[1..], b[1..])
  }

  /**
    `a` comes no later than `b` by the textbook definition of lexicographic order:
    a prefix, or smaller at the first difference.
   */
  ghost predicate PrefixOrFirstDifference(a: string, b: string)
  {
    a <= b || exists k :: 0 <= k < |a| && k < |b| && a[..k] == b[..k] && a[k] < b[k]
  }

  /** Dropping an equal first character does not change the textbook comparison. */
  lemma PrefixOrFirstDifferenceStep(a: string, b: string)
    requires |a| > 0 && |b| > 0 && a[0] == b[0]
    ensures PrefixOrFirstDifference(a, b) <==> PrefixOrFirstDifference(a[1..], b[1..])
  {
    var a', b' := a[1..], b[1..];
    assert a == [a[0]] + a' && b == [b[0]] + b';
    if k :| 0 <= k < |a| && k < |b| && a[..k] == b[..k] && a[k] < b[k] {
      assert k > 0;
      assert a'[..k - 1] == b'[..k - 1] && a'[k - 1] < b'[k - 1];
    }
    if k :| 0 <= k < |a'| && k < |b'| && a'[..k] == b'[..k] && a'[k] < b'[k] {
      assert a[..k + 1] == [a[0]] + a'[..k] && b[..k + 1] == [b[0]] + b'[..k];
      assert a[..k + 1] == b[..k + 1] && a[k + 1] < b[k + 1];
    }
  }

  /** `StrLe` is exactly the textbook lexicographic order. */
  lemma {:induction false} StrLeIsLexicographic(a: string, b: string)
    ensures StrLe(a, b) <==> PrefixOrFirstDifference(a, b)
  {
    if |a| > 0 && |b| > 0 {
      if a[0] == b[0] {
        PrefixOrFirstDifferenceStep(a, b);
        StrLeIsLexicographic(a[1..], b[1..]);
      } else {
        assert a[..0] == b[..0];
        if a[0] > b[0] {
          // a is no prefix of b, and any first difference is at position 0
          assert a[0] != b[0];
          assert !(a <= b);
        }
      }
    } else if |a| > 0 {
      assert !(a <= b);
    }
  }

  lemma {:induction false} StrLeReflexive(a: string)
    ensures StrLe(a, a)
  {
    if |a| > 0 {
      StrLeReflexive(a[1..]);
    }
  }

  lemma {:induction false} StrLeAntisymmetric(a: string, b: string)
    requires StrLe(a, b) && StrLe(b, a)
    ensures a == b
  {
    if |a| > 0 && |b| > 0 {
      StrLeAntisymmetric(a[1..], b[1..]);
      assert a == [a[0]] + a[1..];
      assert b == [b[0]] + b[1..];
    }
  }

  lemma {:induction false} StrLeTransitive(a: string, b: string, c: string)
    requires StrLe(a, b) && StrLe(b, c)
    ensures StrLe(a, c)
  {
    if |a| > 0 && |b| > 0 && |c| > 0 && a[0] == b[0] == c[0] {
      StrLeTransitive(a[1..], b[1..], c[1..]);
    }
  }

  lemma {:induction false} StrLeTotal(a: string, b: string)
    ensures StrLe(a, b) || StrLe(b, a)
  {
    if |a| > 0 && |b| > 0 && a[0] == b[0] {
      StrLeTotal(a[1..], b[1..]);
    }
  }

  /** The names are in non-decreasing `StrLe` order. */
  predicate SortedStrings(s: seq<string>)
  {
    forall i, j :: 0 <= i < j < |s| ==> StrLe(s[i], s[j])
  }

  /**
    Two sorted lists of names holding the same names, with the same multiplicities,
    are the same list: however an unstable sort permutes equal keys, the sequence
    of keys it produces is determined.
   */
  lemma {:induction false} SortedStringsUnique(s: seq<string>, t: seq<string>)
    requires SortedStrings(s) && SortedStrings(t)
    requires multiset(s) == multiset(t)
    ensures s == t
  {
    if |s| == 0 {
      assert |multiset(t)| == 0;
    } else {
      assert |t| > 0 by {
        assert s[0] in multiset(s);
      }
      assert s[0] in multiset(t);
      var k :| 0 <= k < |t| && t[k] == s[0];
      assert t[0] in multiset(s);
      var m :| 0 <= m < |s| && s[m] == t[0];
      if k > 0 { assert StrLe(t[0], t[k]); } else { StrLeReflexive(t[0]); }
      if m > 0 { assert StrLe(s[0], s[m]); } else { StrLeReflexive(s[0]); }
      StrLeAntisymmetric(s[0], t[0]);
      assert s == [s[0]] + s[1..];
      assert t == [t[0]] + t[1..];
      assert multiset(s[1..]) == multiset(s) - multiset{s[0]};
      assert multiset(t[1..]) == multiset(t) - multiset{t[0]};
      SortedStringsUnique(s[1..], t[1..]);
    }
  }
}
