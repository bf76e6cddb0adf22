/** Facts about lists shared by the route and service checks. */
module Lists {

  /** The position of the first occurrence of `x` (Java's `List.indexOf`). */
  function IndexOf<T(==)>(xs: seq<T>, x: T): (k: nat)
    requires x in xs
    ensures k < |xs| && xs[k] == x
  {
    if xs[0] == x then 0 else 1 + IndexOf(xs[1..], x)
  }

  /** IndexOf finds the first occurrence: no earlier element equals `x`. */
  lemma {:induction false} IndexOfFirst<T>(xs: seq<T>, x: T)
    requires x in xs
    ensures forall j :: 0 <= j < IndexOf(xs, x) ==> xs[j] != x
  {
    if xs[0] != x {
      IndexOfFirst(xs[1..], x);
      forall j | 1 <= j < IndexOf(xs, x)
        ensures xs[j] != x
      {
        assert xs[j] == xs[1..][j - 1];
      }
    }
  }

  /** No element occurs twice: each element's first occurrence is its own position. */
  predicate NoDuplicates<T(==)>(xs: seq<T>)
  {
    forall i {:trigger IndexOf(xs, xs[i])} :: 0 <= i < |xs| ==> IndexOf(xs, xs[i]) == i
  }

  /** No duplicates means: elements at two different positions differ. */
  lemma NoDuplicatesMeaning<T>(xs: seq<T>)
    ensures NoDuplicates(xs) <==> forall i, j :: 0 <= i < j < |xs| ==> xs[i] != xs[j]
  {
    if NoDuplicates(xs) {
      forall i, j | 0 <= i < j < |xs|
        ensures xs[i] != xs[j]
      {
        assert IndexOf(xs, xs[i]) == i && IndexOf(xs, xs[j]) == j;
      }
    }
    if forall i, j :: 0 <= i < j < |xs| ==> xs[i] != xs[j] {
      forall i | 0 <= i < |xs|
        ensures IndexOf(xs, xs[i]) == i
      {
        IndexOfFirst(xs, xs[i]);
      }
    }
  }

  /** In a list without duplicates every position is the first occurrence of its element. */
  lemma IndexOfDistinct<T>(xs: seq<T>, k: nat)
    requires NoDuplicates(xs) && k < |xs|
    ensures IndexOf(xs, xs[k]) == k
  {
  }

  /**
   * Walks the list once, remembering what it has seen in a set, and reports
   * a duplicate as soon as an element is already in the set (the source's
   * `HashSet.add` returning false).
   */
  method CheckDuplicateElements<T(==)>(xs: seq<T>) returns (dup: bool)
    ensures dup <==> !NoDuplicates(xs)
  {
    NoDuplicatesMeaning(xs);
    var seen: set<T> := {};
    for i := 0 to |xs|
      invariant seen == set k | 0 <= k < i :: xs[k]
      invariant forall a, b :: 0 <= a < b < i ==> xs[a] != xs[b]
    {
      if xs[i] in seen {
        var k :| 0 <= k < i && xs[k] == xs[i];
        return true;
      }
      seen := seen + {xs[i]};
    }
    return false;
  }
}
