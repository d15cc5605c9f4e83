/**
 * The layout-order sort of missing-block lists (index.js:126, 223, 246):
 * `xs.sort((a, b) => layoutOrder.indexOf(a) - layoutOrder.indexOf(b))`.
 *
 * `Array.prototype.sort` is stable, so sorting by this comparator is the stable sort by the key
 * `indexOf(order, x)`; the model computes it by insertion from the end. As written, `layoutOrder`
 * is out of scope at those lines and the comparator throws a ReferenceError as soon as it is
 * called, which the engine does only for arrays of two or more elements.
 */
module Ordering {
  import opened Wrappers

  /** `order.indexOf(x)`: the first position of `x`, or -1 when absent. */
  function IndexOf(order: seq<string>, x: string): (i: int)
    ensures -1 <= i < |order|
  {
    if |order| == 0 then -1
    else if order[0] == x then 0
    else
      var j := IndexOf(order[1..], x);
      if j == -1 then -1 else j + 1
  }

  /** `indexOf` is -1 exactly when `x` is absent, and otherwise the position of its first occurrence. */
  lemma {:induction false} IndexOfMeaning(order: seq<string>, x: string)
    ensures IndexOf(order, x) == -1 <==> x !in order
    ensures IndexOf(order, x) >= 0 ==> order[IndexOf(order, x)] == x && x !in order[..IndexOf(order, x)]
  {
    if |order| > 0 && order[0] != x {
      var j := IndexOf(order[1..], x);
      IndexOfMeaning(order[1..], x);
      assert order == [order[0]] + order[1..];
      assert order[1..][..j + 1] == order[1..j + 2];
    }
  }

  /** Appending keeps the position of everything already there and puts a new element last. */
  lemma {:induction false} IndexOfSnoc(xs: seq<string>, b: string, x: string)
    ensures x in xs ==> IndexOf(xs + [b], x) == IndexOf(xs, x)
    ensures x !in xs ==> IndexOf(xs + [b], x) == (if x == b then |xs| else -1)
  {
    if |xs| > 0 {
      assert (xs + [b])[0] == xs[0] && (xs + [b])[1..] == xs[1..] + [b];
      IndexOfSnoc(xs[1..], b, x);
      assert xs == [xs[0]] + xs[1..];
    }
  }

  /** Ordered by the comparator: keys never decrease along the sequence. */
  predicate SortedBy(xs: seq<string>, order: seq<string>) {
    forall i, j :: 0 <= i < j < |xs| ==> IndexOf(order, xs[i]) <= IndexOf(order, xs[j])
  }

  /** Inserts `x` after every element of `ys` whose key does not exceed its own. */
  function Insert(ys: seq<string>, x: string, order: seq<string>): (r: seq<string>)
    ensures |r| == |ys| + 1
  {
    if |ys| == 0 then [x]
    else if IndexOf(order, ys[|ys| - 1]) <= IndexOf(order, x) then ys + [x]
    else Insert(ys[..|ys| - 1], x, order) + [ys[|ys| - 1]]
  }

  /** The stable sort by layout position. */
  function SortByOrder(xs: seq<string>, order: seq<string>): (r: seq<string>)
    ensures |r| == |xs|
  {
    if |xs| == 0 then []
    else Insert(SortByOrder(xs[..|xs| - 1], order), xs[|xs| - 1], order)
  }

  /** The elements of `xs` whose key is `k`, in their order. */
  function WithKey(xs: seq<string>, order: seq<string>, k: int): seq<string> {
    if |xs| == 0 then []
    else WithKey(xs[..|xs| - 1], order, k) + (if IndexOf(order, xs[|xs| - 1]) == k then [xs[|xs| - 1]] else [])
  }

  lemma {:induction false} InsertPermutation(ys: seq<string>, x: string, order: seq<string>)
    ensures multiset(Insert(ys, x, order)) == multiset(ys) + multiset{x}
    decreases |ys|
  {
    if |ys| > 0 && IndexOf(order, ys[|ys| - 1]) > IndexOf(order, x) {
      InsertPermutation(ys[..|ys| - 1], x, order);
      assert ys == ys[..|ys| - 1] + [ys[|ys| - 1]];
    }
  }

  lemma {:induction false} InsertBelow(ys: seq<string>, x: string, order: seq<string>, bound: int)
    requires forall i :: 0 <= i < |ys| ==> IndexOf(order, ys[i]) <= bound
    requires IndexOf(order, x) <= bound
    ensures forall i :: 0 <= i < |Insert(ys, x, order)| ==> IndexOf(order, Insert(ys, x, order)[i]) <= bound
    decreases |ys|
  {
    if |ys| > 0 && IndexOf(order, ys[|ys| - 1]) > IndexOf(order, x) {
      InsertBelow(ys[..|ys| - 1], x, order, bound);
    }
  }

  lemma {:induction false} InsertSorted(ys: seq<string>, x: string, order: seq<string>)
    requires SortedBy(ys, order)
    ensures SortedBy(Insert(ys, x, order), order)
    decreases |ys|
  {
    if |ys| > 0 && IndexOf(order, ys[|ys| - 1]) > IndexOf(order, x) {
      var init := ys[..|ys| - 1];
      var last := ys[|ys| - 1];
      InsertSorted(init, x, order);
      InsertBelow(init, x, order, IndexOf(order, last));
    }
  }

  /** The sort orders by layout position. */
  lemma {:induction false} SortByOrderSorted(xs: seq<string>, order: seq<string>)
    ensures SortedBy(SortByOrder(xs, order), order)
  {
    if |xs| > 0 {
      var init := xs[..|xs| - 1];
      SortByOrderSorted(init, order);
      InsertSorted(SortByOrder(init, order), xs[|xs| - 1], order);
    }
  }

  /** Dropping the last element of a sequence drops one occurrence of it from its multiset. */
  lemma MultisetSnoc(xs: seq<string>)
    requires |xs| > 0
    ensures multiset(xs) == multiset(xs[..|xs| - 1]) + multiset{xs[|xs| - 1]}
  {
    assert xs == xs[..|xs| - 1] + [xs[|xs| - 1]];
  }

  /** One step of the sort adds the last element to the multiset of the sorted prefix. */
  lemma SortByOrderStep(xs: seq<string>, order: seq<string>)
    requires |xs| > 0
    ensures multiset(SortByOrder(xs, order)) ==
            multiset(SortByOrder(xs[..|xs| - 1], order)) + multiset{xs[|xs| - 1]}
  {
    InsertPermutation(SortByOrder(xs[..|xs| - 1], order), xs[|xs| - 1], order);
  }

  /** The sort keeps every element with its multiplicity. */
  lemma {:induction false} SortByOrderPermutation(xs: seq<string>, order: seq<string>)
    ensures multiset(SortByOrder(xs, order)) == multiset(xs)
  {
    if |xs| > 0 {
      SortByOrderPermutation(xs[..|xs| - 1], order);
      SortByOrderStep(xs, order);
      MultisetSnoc(xs);
    }
  }

  /** The sort orders by layout position and keeps every element with its multiplicity. */
  lemma SortByOrderSortedPermutation(xs: seq<string>, order: seq<string>)
    ensures SortedBy(SortByOrder(xs, order), order)
    ensures multiset(SortByOrder(xs, order)) == multiset(xs)
  {
    SortByOrderSorted(xs, order);
    SortByOrderPermutation(xs, order);
  }

  /** Appending one element appends it to the elements of its key. */
  lemma WithKeySnoc(ys: seq<string>, x: string, order: seq<string>, k: int)
    ensures WithKey(ys + [x], order, k) == WithKey(ys, order, k) + (if IndexOf(order, x) == k then [x] else [])
  {
    assert (ys + [x])[..|ys|] == ys;
  }

  /** Appending two lists one of which is empty does not depend on their order. */
  lemma SwapEmpty(a: seq<string>, b: seq<string>, c: seq<string>)
    requires b == [] || c == []
    ensures a + b + c == a + c + b
  {
    if b == [] {
      assert a + b == a;
    } else {
      assert a + c == a;
    }
  }

  lemma {:induction false} InsertWithKey(ys: seq<string>, x: string, order: seq<string>, k: int)
    ensures WithKey(Insert(ys, x, order), order, k) ==
            WithKey(ys, order, k) + (if IndexOf(order, x) == k then [x] else [])
    decreases |ys|
  {
    var xk := if IndexOf(order, x) == k then [x] else [];
    if |ys| == 0 {
      assert [x][..0] == [];
    } else {
      var init := ys[..|ys| - 1];
      var last := ys[|ys| - 1];
      if IndexOf(order, last) <= IndexOf(order, x) {
        assert Insert(ys, x, order) == ys + [x];
        WithKeySnoc(ys, x, order, k);
      } else {
        var r := Insert(init, x, order);
        var lk := if IndexOf(order, last) == k then [last] else [];
        assert Insert(ys, x, order) == r + [last];
        InsertWithKey(init, x, order, k);
        WithKeySnoc(r, last, order, k);
        assert WithKey(ys, order, k) == WithKey(init, order, k) + lk;
        SwapEmpty(WithKey(init, order, k), xk, lk);
      }
    }
  }

  /** Stability: the elements that share a layout position keep their relative order. */
  lemma {:induction false} SortByOrderStable(xs: seq<string>, order: seq<string>, k: int)
    ensures WithKey(SortByOrder(xs, order), order, k) == WithKey(xs, order, k)
  {
    if |xs| > 0 {
      SortByOrderStable(xs[..|xs| - 1], order, k);
      InsertWithKey(SortByOrder(xs[..|xs| - 1], order), xs[|xs| - 1], order, k);
    }
  }

  /** A sequence already ordered by layout position is left as it is. */
  lemma {:induction false} SortByOrderOfSorted(xs: seq<string>, order: seq<string>)
    requires SortedBy(xs, order)
    ensures SortByOrder(xs, order) == xs
  {
    if |xs| > 0 {
      var init := xs[..|xs| - 1];
      assert SortedBy(init, order);
      SortByOrderOfSorted(init, order);
      assert xs == init + [xs[|xs| - 1]];
    }
  }

  /**
   * Sorting a list none of whose elements is in the order changes nothing: every key is -1 and
   * the sort is stable. Missing blocks are by definition absent from the layout, so sorting them
   * by `Object.keys(layout)` leaves their first-seen order.
   */
  lemma SortAbsentIsIdentity(xs: seq<string>, order: seq<string>)
    requires forall i :: 0 <= i < |xs| ==> xs[i] !in order
    ensures SortByOrder(xs, order) == xs
  {
    forall i | 0 <= i < |xs| {
      IndexOfMeaning(order, xs[i]);
    }
    SortByOrderOfSorted(xs, order);
  }

  /** The order a sort at index.js:126, 223 or 246 compares by. */
  datatype SortMode =
    | OrderNotInScope              // as written: `layoutOrder` is not declared at the call
    | LayoutOrder(order: seq<string>)  // as intended: `Object.keys(layout)`

  /** The message of the ReferenceError thrown by the comparator as written. */
  const UndefinedOrder: string := "layoutOrder is not defined"

  /**
   * The sort as the program runs it: out of scope, the comparator throws on its first call,
   * which happens only when there are at least two elements to compare.
   */
  function SortMissing(xs: seq<string>, mode: SortMode): (r: Result<seq<string>, string>)
    ensures mode.OrderNotInScope? ==> (r.Err? <==> |xs| >= 2)
    ensures r.Err? ==> r.error == UndefinedOrder
    ensures r.Ok? ==> multiset(r.value) == multiset(xs)
    ensures r.Ok? && mode.LayoutOrder? ==> SortedBy(r.value, mode.order)
  {
    match mode
    case OrderNotInScope => if |xs| < 2 then Ok(xs) else Err(UndefinedOrder)
    case LayoutOrder(order) =>
      SortByOrderSortedPermutation(xs, order);
      Ok(SortByOrder(xs, order))
  }

  /** With the intended order, a list of blocks absent from it comes back unchanged. */
  lemma SortMissingAbsent(xs: seq<string>, order: seq<string>)
    requires forall i :: 0 <= i < |xs| ==> xs[i] !in order
    ensures SortMissing(xs, LayoutOrder(order)) == Ok(xs)
  {
    SortAbsentIsIdentity(xs, order);
  }

  /**
   * As written, two missing blocks are enough to make the sort throw; as intended, the order of a
   * layout with only C100 leaves them in first-seen order.
   */
  lemma AsWrittenTwoBlocksThrow()
    ensures SortMissing(["C200", "C300"], OrderNotInScope) == Err(UndefinedOrder)
    ensures SortMissing(["C200", "C300"], LayoutOrder(["C100"])) == Ok(["C200", "C300"])
  {
    var xs := ["C200", "C300"];
    assert forall i :: 0 <= i < |xs| ==> xs[i] !in ["C100"];
    SortMissingAbsent(xs, ["C100"]);
  }
}
