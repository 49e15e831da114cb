/** Version identifiers and their comparison, standing in for the
    `version_compare` crate used by `check_updates` (src-tauri/src/helpers.rs).
    A version is its sequence of numeric components; comparison is
    lexicographic with missing trailing components read as zero, so "1.2" and
    "1.2.0" compare equal and "10" is greater than "2". */
module Versions {

  type Version = seq<nat>

  /** `version_compare::Cmp` restricted to the three answers `compare` gives. */
  datatype Cmp = Lt | Eq | Gt

  function Head(v: Version): nat {
    if v == [] then 0 else v[0]
  }

  function Tail(v: Version): Version {
    if v == [] then [] else v[1..]
  }

  /** `a.compare(b)`. */
  function Compare(a: Version, b: Version): (r: Cmp)
    ensures a == b ==> r == Eq
    decreases |a| + |b|
  {
    if a == [] && b == [] then Eq
    else if Head(a) < Head(b) then Lt
    else if Head(a) > Head(b) then Gt
    else Compare(Tail(a), Tail(b))
  }

  /** `a <= b` in the version order. */
  predicate Le(a: Version, b: Version) {
    Compare(a, b) != Gt
  }

  /** Swapping the arguments swaps `Lt` and `Gt` and keeps `Eq`. */
  lemma {:induction false} CompareFlip(a: Version, b: Version)
    ensures Compare(a, b) == Lt <==> Compare(b, a) == Gt
    ensures Compare(a, b) == Eq <==> Compare(b, a) == Eq
    decreases |a| + |b|
  {
    if !(a == [] && b == []) && Head(a) == Head(b) {
      CompareFlip(Tail(a), Tail(b));
    }
  }

  /** The version order is transitive, strictly so when either step is strict. */
  lemma {:induction false} CompareTransitive(a: Version, b: Version, c: Version)
    requires Le(a, b) && Le(b, c)
    ensures Le(a, c)
    ensures Compare(a, b) == Lt || Compare(b, c) == Lt ==> Compare(a, c) == Lt
    decreases |a| + |b| + |c|
  {
    if a == [] && b == [] && c == [] {
    } else if Head(a) == Head(b) == Head(c) {
      CompareTransitive(Tail(a), Tail(b), Tail(c));
    }
  }

  /** On versions with the same number of components the order is exactly
      lexicographic: equal compares exactly when the sequences are equal. */
  lemma {:induction false} CompareEqSameLength(a: Version, b: Version)
    requires |a| == |b|
    ensures Compare(a, b) == Eq <==> a == b
    decreases |a|
  {
    if a != [] && Head(a) == Head(b) {
      CompareEqSameLength(Tail(a), Tail(b));
      assert a == [a[0]] + a[1..];
      assert b == [b[0]] + b[1..];
    }
  }

  /** Trailing zero components do not change a version. */
  lemma {:induction false} TrailingZero(a: Version)
    ensures Compare(a, a + [0]) == Eq
    decreases |a|
  {
    if a != [] {
      assert Tail(a + [0]) == Tail(a) + [0];
      TrailingZero(Tail(a));
    }
  }

  /** Components compare by magnitude, not as text: two versions that differ
      only in their last component compare as those numbers do, so "1.10" is
      newer than "1.9". */
  lemma {:induction false} NumericComponents(p: Version, a: nat, b: nat)
    ensures Compare(p + [a], p + [b]) == Lt <==> a < b
    ensures Compare(p + [a], p + [b]) == Eq <==> a == b
    ensures Compare(p + [a], p + [b]) == Gt <==> a > b
    decreases |p|
  {
    if p == [] {
      assert Tail([a]) == [] && Tail([b]) == [];
    } else {
      assert Tail(p + [a]) == Tail(p) + [a] && Tail(p + [b]) == Tail(p) + [b];
      NumericComponents(Tail(p), a, b);
    }
  }
}
