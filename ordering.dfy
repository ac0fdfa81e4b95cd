/**
 * Orders and canonical lists. Rust's `sort()` followed by `dedup()` turns a
 * list into the strictly increasing list of its distinct elements; this is
 * modelled here for any strict total order, and the lexicographic order on
 * sequences gives the orders used for module IDs (strings) and paths
 * (sequences of components).
 */
module Ordering {

  ghost predicate StrictTotalOrder<T(!new)>(lt: (T, T) -> bool) {
    && (forall x :: !lt(x, x))
    && (forall x, y, z :: lt(x, y) && lt(y, z) ==> lt(x, z))
    && (forall x, y :: x != y ==> lt(x, y) || lt(y, x))
  }

  /** Strictly increasing: sorted and free of duplicates. */
  ghost predicate Increasing<T>(s: seq<T>, lt: (T, T) -> bool) {
    forall i, j :: 0 <= i < j < |s| ==> lt(s[i], s[j])
  }

  /** Inserts `x` into a strictly increasing list, unless it is there already. */
  function Insert<T(==, !new)>(x: T, s: seq<T>, lt: (T, T) -> bool): (r: seq<T>)
    requires StrictTotalOrder(lt)
    requires Increasing(s, lt)
    ensures Increasing(r, lt)
    ensures forall y :: y in r <==> y in s || y == x
  {
    if s == [] then [x]
    else if x == s[0] then s
    else if lt(x, s[0]) then [x] + s
    else
      var rest := Insert(x, s[1..], lt);
      assert forall y :: y in rest ==> lt(s[0], y) by {
        forall y | y in rest ensures lt(s[0], y) {
          if y != x {
            var j :| 1 <= j < |s| && s[j] == y;
          }
        }
      }
      [s[0]] + rest
  }

  /** `v.sort(); v.dedup();`: the distinct elements of `s`, strictly increasing. */
  function Canonical<T(==, !new)>(s: seq<T>, lt: (T, T) -> bool): (r: seq<T>)
    requires StrictTotalOrder(lt)
    ensures Increasing(r, lt)
    ensures forall x :: x in r <==> x in s
  {
    if s == [] then [] else Insert(s[|s| - 1], Canonical(s[..|s| - 1], lt), lt)
  }

  /** A strictly increasing list has no element twice. */
  lemma IncreasingIsDistinct<T(!new)>(s: seq<T>, lt: (T, T) -> bool)
    requires StrictTotalOrder(lt)
    requires Increasing(s, lt)
    ensures forall i, j :: 0 <= i < j < |s| ==> s[i] != s[j]
  {
  }

  /** Two strictly increasing lists with the same elements are the same list. */
  lemma {:induction false} IncreasingUnique<T(!new)>(a: seq<T>, b: seq<T>, lt: (T, T) -> bool)
    requires StrictTotalOrder(lt)
    requires Increasing(a, lt) && Increasing(b, lt)
    requires forall x :: x in a <==> x in b
    ensures a == b
  {
    if a != [] {
      assert a[0] in b;
    }
    if b != [] {
      assert b[0] in a;
    }
    if a != [] && b != [] {
      assert a[0] == b[0];
      forall x ensures x in a[1..] <==> x in b[1..] {
        if x in a[1..] {
          var i :| 1 <= i < |a| && a[i] == x;
          assert lt(a[0], x) && x in b;
          var j :| 0 <= j < |b| && b[j] == x;
          assert j != 0;
          assert x == b[1..][j - 1];
        }
        if x in b[1..] {
          var i :| 1 <= i < |b| && b[i] == x;
          assert lt(b[0], x) && x in a;
          var j :| 0 <= j < |a| && a[j] == x;
          assert j != 0;
          assert x == a[1..][j - 1];
        }
      }
      IncreasingUnique(a[1..], b[1..], lt);
      assert a == [a[0]] + a[1..] && b == [b[0]] + b[1..];
    }
  }

  /** The canonical list depends only on which elements occur, not on their order or repetition. */
  lemma CanonicalOfSameElements<T(!new)>(s: seq<T>, t: seq<T>, lt: (T, T) -> bool)
    requires StrictTotalOrder(lt)
    requires forall x :: x in s <==> x in t
    ensures Canonical(s, lt) == Canonical(t, lt)
  {
    IncreasingUnique(Canonical(s, lt), Canonical(t, lt), lt);
  }

  /** Canonicalising twice changes nothing. */
  lemma CanonicalIdempotent<T(!new)>(s: seq<T>, lt: (T, T) -> bool)
    requires StrictTotalOrder(lt)
    ensures Canonical(Canonical(s, lt), lt) == Canonical(s, lt)
  {
    IncreasingUnique(Canonical(Canonical(s, lt), lt), Canonical(s, lt), lt);
  }

  /** Lexicographic order on sequences: a proper prefix comes first. */
  predicate LexLess<T(==)>(a: seq<T>, b: seq<T>, lt: (T, T) -> bool) {
    if a == [] then b != []
    else if b == [] then false
    else if a[0] == b[0] then LexLess(a[1..], b[1..], lt)
    else lt(a[0], b[0])
  }

  lemma {:induction false} LexIrreflexive<T(!new)>(a: seq<T>, lt: (T, T) -> bool)
    ensures !LexLess(a, a, lt)
  {
    if a != [] {
      LexIrreflexive(a[1..], lt);
    }
  }

  lemma {:induction false} LexTransitive<T(!new)>(a: seq<T>, b: seq<T>, c: seq<T>, lt: (T, T) -> bool)
    requires StrictTotalOrder(lt)
    requires LexLess(a, b, lt) && LexLess(b, c, lt)
    ensures LexLess(a, c, lt)
  {
    if a != [] && b != [] && c != [] && a[0] == b[0] && b[0] == c[0] {
      LexTransitive(a[1..], b[1..], c[1..], lt);
    }
  }

  lemma {:induction false} LexTotal<T(!new)>(a: seq<T>, b: seq<T>, lt: (T, T) -> bool)
    requires StrictTotalOrder(lt)
    requires a != b
    ensures LexLess(a, b, lt) || LexLess(b, a, lt)
  {
    if a != [] && b != [] && a[0] == b[0] {
      assert a == [a[0]] + a[1..] && b == [b[0]] + b[1..];
      LexTotal(a[1..], b[1..], lt);
    }
  }

  predicate CharLess(x: char, y: char) {
    x < y
  }

  /** The order on module IDs: lexicographic on characters. */
  predicate StringLess(a: string, b: string) {
    LexLess(a, b, CharLess)
  }

  /** The order on paths: lexicographic on components. */
  predicate PathLess(p: seq<string>, q: seq<string>) {
    LexLess(p, q, StringLess)
  }

  lemma StringLessIsStrictTotal()
    ensures StrictTotalOrder(StringLess)
  {
    assert StrictTotalOrder(CharLess);
    forall a ensures !StringLess(a, a) {
      LexIrreflexive(a, CharLess);
    }
    forall a, b, c | StringLess(a, b) && StringLess(b, c) ensures StringLess(a, c) {
      LexTransitive(a, b, c, CharLess);
    }
    forall a, b | a != b ensures StringLess(a, b) || StringLess(b, a) {
      LexTotal(a, b, CharLess);
    }
  }

  lemma PathLessIsStrictTotal()
    ensures StrictTotalOrder(PathLess)
  {
    StringLessIsStrictTotal();
    forall p ensures !PathLess(p, p) {
      LexIrreflexive(p, StringLess);
    }
    forall p, q, r | PathLess(p, q) && PathLess(q, r) ensures PathLess(p, r) {
      LexTransitive(p, q, r, StringLess);
    }
    forall p, q | p != q ensures PathLess(p, q) || PathLess(q, p) {
      LexTotal(p, q, StringLess);
    }
  }
}
