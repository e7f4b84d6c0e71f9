/**
 * Python's `sorted(xs, key=k, reverse=r)` and `list.sort`, as far as their results are
 * concerned: a stable sort. An order is given as `le(a, b)`, "a may come before b",
 * which must be a total preorder; elements that are equivalent under it keep their
 * input order. `reverse=True` with a key is the total preorder with the key compared the
 * other way round: Python's reverse keeps equal elements in their original order.
 */
module Sorting {

  ghost predicate TotalPreorder<T(!new)>(le: (T, T) -> bool) {
    (forall a, b :: le(a, b) || le(b, a)) &&
    (forall a, b, c :: le(a, b) && le(b, c) ==> le(a, c))
  }

  predicate Sorted<T>(xs: seq<T>, le: (T, T) -> bool) {
    forall i, j :: 0 <= i < j < |xs| ==> le(xs[i], xs[j])
  }

  /** The elements equivalent to `p`, in order. */
  function EquivalentTo<T>(xs: seq<T>, p: T, le: (T, T) -> bool): seq<T>
    decreases |xs|
  {
    if |xs| == 0 then []
    else (if le(xs[0], p) && le(p, xs[0]) then [xs[0]] else []) + EquivalentTo(xs[1..], p, le)
  }

  /** `x` placed before the first element it may precede. */
  function Insert<T>(x: T, ys: seq<T>, le: (T, T) -> bool): seq<T>
    decreases |ys|
  {
    if |ys| == 0 then [x]
    else if le(x, ys[0]) then [x] + ys
    else [ys[0]] + Insert(x, ys[1..], le)
  }

  /** A stable sort: insertion of each element, last first, into the sorted rest. */
  function SortBy<T>(xs: seq<T>, le: (T, T) -> bool): seq<T>
    decreases |xs|
  {
    if |xs| == 0 then [] else Insert(xs[0], SortBy(xs[1..], le), le)
  }

  lemma {:induction false} InsertPermutes<T>(x: T, ys: seq<T>, le: (T, T) -> bool)
    ensures multiset(Insert(x, ys, le)) == multiset([x]) + multiset(ys)
    decreases |ys|
  {
    if |ys| > 0 && !le(x, ys[0]) {
      InsertPermutes(x, ys[1..], le);
      assert ys == [ys[0]] + ys[1..];
    }
  }

  lemma {:induction false} InsertSorted<T(!new)>(x: T, ys: seq<T>, le: (T, T) -> bool)
    requires TotalPreorder(le) && Sorted(ys, le)
    ensures Sorted(Insert(x, ys, le), le)
    decreases |ys|
  {
    if |ys| > 0 && !le(x, ys[0]) {
      InsertSorted(x, ys[1..], le);
      InsertAfterHead(x, ys, le);
      var rest := Insert(x, ys[1..], le);
      var r := [ys[0]] + rest;
      forall i, j | 0 <= i < j < |r| ensures le(r[i], r[j]) {
        if i == 0 {
          assert r[j] == rest[j - 1];
        } else {
          assert r[i] == rest[i - 1] && r[j] == rest[j - 1];
        }
      }
    }
  }

  /** When `x` goes after the head, everything it is inserted among may follow the head. */
  lemma InsertAfterHead<T(!new)>(x: T, ys: seq<T>, le: (T, T) -> bool)
    requires TotalPreorder(le) && Sorted(ys, le)
    requires |ys| > 0 && !le(x, ys[0])
    ensures forall i :: 0 <= i < |Insert(x, ys[1..], le)| ==> le(ys[0], Insert(x, ys[1..], le)[i])
  {
    var rest := Insert(x, ys[1..], le);
    InsertPermutes(x, ys[1..], le);
    forall i | 0 <= i < |rest| ensures le(ys[0], rest[i]) {
      assert rest[i] in multiset(rest);
      if rest[i] != x {
        assert rest[i] in multiset(ys[1..]);
        var k :| 0 <= k < |ys[1..]| && ys[1..][k] == rest[i];
        assert ys[k + 1] == rest[i];
      }
    }
  }

  lemma {:induction false} InsertKeepsEquivalents<T(!new)>(x: T, ys: seq<T>, p: T, le: (T, T) -> bool)
    requires TotalPreorder(le)
    ensures EquivalentTo(Insert(x, ys, le), p, le) ==
      (if le(x, p) && le(p, x) then [x] else []) + EquivalentTo(ys, p, le)
    decreases |ys|
  {
    if |ys| == 0 {
      EquivalentToCons(x, [], p, le);
      assert [x] + [] == [x];
    } else if le(x, ys[0]) {
      EquivalentToCons(x, ys, p, le);
    } else {
      var rest := Insert(x, ys[1..], le);
      InsertKeepsEquivalents(x, ys[1..], p, le);
      EquivalentToCons(ys[0], rest, p, le);
      EquivalentToCons(ys[0], ys[1..], p, le);
      assert ys == [ys[0]] + ys[1..];
      var hx := if le(x, p) && le(p, x) then [x] else [];
      var h0 := if le(ys[0], p) && le(p, ys[0]) then [ys[0]] else [];
      var tail := EquivalentTo(ys[1..], p, le);
      assert EquivalentTo(Insert(x, ys, le), p, le) == h0 + (hx + tail);
      assert EquivalentTo(ys, p, le) == h0 + tail;
      if le(x, p) && le(p, x) {
        assert h0 == [];
      }
    }
  }

  lemma EquivalentToCons<T>(y: T, ys: seq<T>, p: T, le: (T, T) -> bool)
    ensures EquivalentTo([y] + ys, p, le) == (if le(y, p) && le(p, y) then [y] else []) + EquivalentTo(ys, p, le)
  {
    assert ([y] + ys)[1..] == ys;
  }

  /** The sort is sorted, a permutation of its input, and stable: the elements of each
      equivalence class keep their input order. */
  lemma {:induction false} SortByCorrect<T(!new)>(xs: seq<T>, le: (T, T) -> bool)
    requires TotalPreorder(le)
    ensures Sorted(SortBy(xs, le), le)
    ensures multiset(SortBy(xs, le)) == multiset(xs)
    ensures forall p :: EquivalentTo(SortBy(xs, le), p, le) == EquivalentTo(xs, p, le)
    decreases |xs|
  {
    if |xs| > 0 {
      SortByCorrect(xs[1..], le);
      InsertSorted(xs[0], SortBy(xs[1..], le), le);
      InsertPermutes(xs[0], SortBy(xs[1..], le), le);
      assert xs == [xs[0]] + xs[1..];
      forall p ensures EquivalentTo(SortBy(xs, le), p, le) == EquivalentTo(xs, p, le) {
        InsertKeepsEquivalents(xs[0], SortBy(xs[1..], le), p, le);
      }
    }
  }

  lemma SortByLength<T(!new)>(xs: seq<T>, le: (T, T) -> bool)
    requires TotalPreorder(le)
    ensures |SortBy(xs, le)| == |xs|
  {
    SortByCorrect(xs, le);
    assert |multiset(SortBy(xs, le))| == |multiset(xs)|;
  }
}
