/**
 * The user callbacks consumed by the operators, and the ordering properties
 * some of their guarantees depend on. Every comparer and equality callback of
 * the library is handed both values and both source positions.
 */
module Callbacks {

  /** comparer(lhsValue, rhsValue, lhsIndex, rhsIndex): negative, zero or positive. */
  type Comparer<!T> = (T, T, nat, nat) -> int

  /** equals(lhsValue, rhsValue, lhsIndex, rhsIndex). */
  type Equals<!T> = (T, T, nat, nat) -> bool

  /** predicate(value, index). */
  type Predicate<!T> = (T, nat) -> bool

  /** transform(value, index). */
  type Transform<!T, U> = (T, nat) -> U

  /** combine(current, value, index): the next accumulated value. */
  type Combine<!U, !T> = (U, T, nat) -> U

  /** -1, 0 or 1 according to the sign of x. */
  function Sign(x: int): int {
    if x < 0 then -1 else if x > 0 then 1 else 0
  }

  /** The default comparer on numbers: (lhs < rhs) ? -1 : Number(lhs > rhs). */
  function NaturalOrder(a: int, b: int, i: nat, j: nat): int {
    if a < b then -1 else if a > b then 1 else 0
  }

  /** The default equality (Object.is), on values that have no NaN or signed zero. */
  function SameValue<T(==)>(a: T, b: T, i: nat, j: nat): bool {
    a == b
  }

  /** The comparer ignores the two positions it is handed. */
  ghost predicate IndexFree<T(!new)>(cmp: Comparer<T>) {
    forall a, b, i, j :: cmp(a, b, i, j) == cmp(a, b, 0, 0)
  }

  /** b sits between a and c: the premise of transitivity. */
  ghost predicate Between<T>(cmp: Comparer<T>, a: T, b: T, c: T) {
    cmp(a, b, 0, 0) <= 0 && cmp(b, c, 0, 0) <= 0
  }

  /**
   * The comparer orders all values consistently, ties allowed between
   * distinct values. Transitivity is triggered only by an explicit Between
   * term (see Transitive), so that it does not fire on every pair of
   * comparisons in a proof.
   */
  ghost predicate TotalPreorder<T(!new)>(cmp: Comparer<T>) {
    && IndexFree(cmp)
    && (forall a, b :: cmp(a, b, 0, 0) < 0 <==> cmp(b, a, 0, 0) > 0)
    && (forall a, b, c {:trigger Between(cmp, a, b, c)} :: Between(cmp, a, b, c) ==> cmp(a, c, 0, 0) <= 0)
  }

  /** A total preorder in which only identical values tie. */
  ghost predicate TotalOrder<T(!new)>(cmp: Comparer<T>) {
    TotalPreorder(cmp) && forall a, b :: cmp(a, b, 0, 0) == 0 ==> a == b
  }

  lemma Transitive<T(!new)>(cmp: Comparer<T>, a: T, b: T, c: T)
    requires TotalPreorder(cmp)
    requires cmp(a, b, 0, 0) <= 0 && cmp(b, c, 0, 0) <= 0
    ensures cmp(a, c, 0, 0) <= 0
  {
    assert Between(cmp, a, b, c);
  }

  /** Strict "less than" is transitive through a "less than or equal" step, on either side. */
  lemma LessTransitive<T(!new)>(cmp: Comparer<T>, a: T, b: T, c: T)
    requires TotalPreorder(cmp)
    requires cmp(a, b, 0, 0) <= 0 && cmp(b, c, 0, 0) <= 0
    requires cmp(a, b, 0, 0) < 0 || cmp(b, c, 0, 0) < 0
    ensures cmp(a, c, 0, 0) < 0
  {
    Transitive(cmp, a, b, c);
    if cmp(a, c, 0, 0) == 0 {
      if cmp(a, b, 0, 0) < 0 {
        Transitive(cmp, b, c, a);
      } else {
        Transitive(cmp, c, a, b);
      }
    }
  }

  lemma NaturalOrderIsTotalOrder()
    ensures TotalOrder(NaturalOrder)
  {
  }

  /** Sorted in the sense merge requires: no later item compares below an earlier one. */
  ghost predicate Sorted<T>(s: seq<T>, cmp: Comparer<T>) {
    forall a, b :: 0 <= a < b < |s| ==> cmp(s[a], s[b], 0, 0) <= 0
  }

  /** Sorted with no duplicates, as the set operations require. */
  ghost predicate StrictlySorted<T>(s: seq<T>, cmp: Comparer<T>) {
    forall a, b :: 0 <= a < b < |s| ==> cmp(s[a], s[b], 0, 0) < 0
  }

  /** Every item of s compares at or above x. */
  ghost predicate AllAtLeast<T>(x: T, s: seq<T>, cmp: Comparer<T>) {
    forall k :: 0 <= k < |s| ==> cmp(x, s[k], 0, 0) <= 0
  }

  /** Every item of s compares strictly above x. */
  ghost predicate AllAbove<T>(x: T, s: seq<T>, cmp: Comparer<T>) {
    forall k :: 0 <= k < |s| ==> cmp(x, s[k], 0, 0) < 0
  }
}
