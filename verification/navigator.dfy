/**
  The circular previous/next navigator of the dish detail page
  (`setPrevNext` in src/app/dishdetail/dishdetail.component.ts).

  Given the ordered list of dish ids and the id of the dish on screen, the
  component looks the id up with `indexOf` and picks the neighbours with
  `ids[(n + index - 1) % n]` and `ids[(n + index + 1) % n]`.  The lookup is not
  guarded: an absent id gives index -1 and the arithmetic still selects ids.
 */
module Navigator {
  import opened Wrappers

  /** No id occurs twice. */
  predicate Distinct<T(==)>(s: seq<T>) {
    forall i, j :: 0 <= i < j < |s| ==> s[i] != s[j]
  }

  /** `Array.prototype.indexOf`: the first position holding `x`, or -1. */
  function IndexOf<T(==)>(s: seq<T>, x: T): (i: int)
    ensures -1 <= i < |s|
    ensures 0 <= i ==> s[i] == x && forall j :: 0 <= j < i ==> s[j] != x
    ensures i == -1 <==> x !in s
  {
    if |s| == 0 then -1
    else if s[0] == x then 0
    else
      var k := IndexOf(s[1..], x);
      if k == -1 then -1 else k + 1
  }

  /**
    JavaScript's `%` on integers: the remainder of division truncated toward
    zero, whose sign follows the dividend (Dafny's `%` is Euclidean instead).
   */
  function JsRemainder(a: int, n: int): (r: int)
    requires n > 0
    ensures -n < r < n
    ensures 0 <= a ==> 0 <= r && r == a % n
    ensures a <= 0 ==> r <= 0 && -r == (-a) % n
  {
    if a >= 0 then
      var m := a % n;
      assert 0 <= m < n;
      m
    else
      var m := (-a) % n;
      assert 0 <= m < n;
      -m
  }

  /** Position before `i` on a ring of `n` positions. */
  function RingPred(i: int, n: int): (k: int)
    requires 0 <= i < n
    ensures 0 <= k < n
  {
    if i == 0 then n - 1 else i - 1
  }

  /** Position after `i` on a ring of `n` positions. */
  function RingSucc(i: int, n: int): (k: int)
    requires 0 <= i < n
    ensures 0 <= k < n
  {
    if i == n - 1 then 0 else i + 1
  }

  /**
    The index the component reads `prev` from, for a list of length `n` and
    an `indexOf` result `i`.
   */
  function PrevIndex(n: int, i: int): (k: int)
    requires n >= 1 && -1 <= i < n
    ensures 0 <= k < n
    ensures 0 <= i ==> k == RingPred(i, n)
    ensures i == -1 ==> k == (if n == 1 then 0 else n - 2)
  {
    var a := n + i - 1;
    if a < 0 then JsRemainder(a, n)
    else if a < n then ModBelow(a, n); JsRemainder(a, n)
    else ModAbove(a, n); JsRemainder(a, n)
  }

  /**
    The index the component reads `next` from, for a list of length `n` and
    an `indexOf` result `i`.
   */
  function NextIndex(n: int, i: int): (k: int)
    requires n >= 1 && -1 <= i < n
    ensures 0 <= k < n
    ensures 0 <= i ==> k == RingSucc(i, n)
    ensures i == -1 ==> k == 0
  {
    var a := n + i + 1;
    if a < 2 * n then ModAbove(a, n); JsRemainder(a, n)
    else ModDouble(n); JsRemainder(a, n)
  }

  /** The ids shown on the "previous" and "next" links. */
  datatype Neighbours = Neighbours(prev: string, next: string)

  /**
    `setPrevNext`.  With no ids the computed index is NaN and both links are
    `undefined`, which is `None` here.  Otherwise both links are ids of the list,
    whether or not `dishId` is in it.
   */
  function SetPrevNext(ids: seq<string>, dishId: string): (r: Option<Neighbours>)
    ensures r.None? <==> |ids| == 0
    ensures r.Some? ==> r.value.prev in ids && r.value.next in ids
  {
    if |ids| == 0 then None
    else
      var i := IndexOf(ids, dishId);
      Some(Neighbours(ids[PrevIndex(|ids|, i)], ids[NextIndex(|ids|, i)]))
  }

  /** The first occurrence of an id is what `indexOf` finds. */
  lemma IndexOfFirst<T>(s: seq<T>, i: int)
    requires 0 <= i < |s|
    requires forall j :: 0 <= j < i ==> s[j] != s[i]
    ensures IndexOf(s, s[i]) == i
  {
  }

  /** In a list without repetitions every id is found at its own position. */
  lemma IndexOfDistinct<T>(s: seq<T>, i: int)
    requires Distinct(s)
    requires 0 <= i < |s|
    ensures IndexOf(s, s[i]) == i
  {
    IndexOfFirst(s, i);
  }

  /**
    The navigator's contract for a present id: the neighbours of the id at its
    first position `i` are `ids[(i-1+n) % n]` and `ids[(i+1) % n]`.
   */
  lemma PresentNeighbours(ids: seq<string>, i: int)
    requires 0 <= i < |ids|
    requires forall j :: 0 <= j < i ==> ids[j] != ids[i]
    ensures SetPrevNext(ids, ids[i])
         == Some(Neighbours(ids[(i - 1 + |ids|) % |ids|], ids[(i + 1) % |ids|]))
  {
    var n := |ids|;
    IndexOfFirst(ids, i);
    if i == 0 {
      ModBelow(n - 1, n);
    } else {
      ModAbove(i - 1 + n, n);
    }
    if i == n - 1 {
      ModAbove(n, n);
    } else {
      ModBelow(i + 1, n);
    }
  }

  /** Euclidean remainder of a dividend already in `[0, n)`. */
  lemma ModBelow(a: int, n: int)
    requires 0 <= a < n
    ensures a % n == a
  {
  }

  /** Euclidean remainder of `2n`. */
  lemma ModDouble(n: int)
    requires n > 0
    ensures (2 * n) % n == 0
  {
  }

  /** Euclidean remainder of a dividend in `[n, 2n)`. */
  lemma ModAbove(a: int, n: int)
    requires n <= a < 2 * n
    ensures a % n == a - n
  {
  }

  /**
    An id that is not in the list still gets neighbours: `prev` is the
    second-to-last id (the only id of a one-element list) and `next` the first.
   */
  lemma AbsentNeighbours(ids: seq<string>, dishId: string)
    requires |ids| >= 1
    requires dishId !in ids
    ensures SetPrevNext(ids, dishId)
         == Some(Neighbours(ids[if |ids| == 1 then 0 else |ids| - 2], ids[0]))
  {
  }

  /** The "previous" of the first id wraps around to the last id. */
  lemma WrapsBeforeFirst(ids: seq<string>)
    requires |ids| >= 1
    ensures SetPrevNext(ids, ids[0]).Some?
    ensures SetPrevNext(ids, ids[0]).value.prev == ids[|ids| - 1]
  {
    IndexOfFirst(ids, 0);
  }

  /** The "next" of the last id wraps around to the first id. */
  lemma WrapsAfterLast(ids: seq<string>)
    requires |ids| >= 1
    requires ids[|ids| - 1] !in ids[..|ids| - 1]
    ensures SetPrevNext(ids, ids[|ids| - 1]).Some?
    ensures SetPrevNext(ids, ids[|ids| - 1]).value.next == ids[0]
  {
    var n := |ids|;
    forall j | 0 <= j < n - 1
      ensures ids[j] != ids[n - 1]
    {
      assert ids[j] == ids[..n - 1][j];
    }
    IndexOfFirst(ids, n - 1);
  }

  /** In a one-element list both links show that element, whatever the id. */
  lemma SingletonNeighbours(x: string, dishId: string)
    ensures SetPrevNext([x], dishId) == Some(Neighbours(x, x))
  {
  }

  /**
    Navigation is reversible: with distinct ids, stepping to `prev` and then
    taking its `next` returns to the current id, and symmetrically.
   */
  lemma NeighboursInverse(ids: seq<string>, dishId: string)
    requires Distinct(ids)
    requires dishId in ids
    ensures SetPrevNext(ids, dishId).Some?
    ensures var r := SetPrevNext(ids, dishId).value;
            SetPrevNext(ids, r.prev).value.next == dishId
            && SetPrevNext(ids, r.next).value.prev == dishId
  {
    var n := |ids|;
    var i := IndexOf(ids, dishId);
    var p := RingPred(i, n);
    var q := RingSucc(i, n);
    IndexOfDistinct(ids, p);
    IndexOfDistinct(ids, q);
    assert RingSucc(p, n) == i;
    assert RingPred(q, n) == i;
  }

  /**
    With at least two distinct ids neither link points back at the current
    dish, and with at least three the two links differ.
   */
  lemma NeighboursAreOthers(ids: seq<string>, dishId: string)
    requires Distinct(ids)
    requires dishId in ids
    requires |ids| >= 2
    ensures SetPrevNext(ids, dishId).Some?
    ensures SetPrevNext(ids, dishId).value.prev != dishId
    ensures SetPrevNext(ids, dishId).value.next != dishId
    ensures |ids| >= 3 ==> SetPrevNext(ids, dishId).value.prev != SetPrevNext(ids, dishId).value.next
  {
    var n := |ids|;
    var i := IndexOf(ids, dishId);
    var p := RingPred(i, n);
    var q := RingSucc(i, n);
    assert p != i && q != i;
    assert n >= 3 ==> p != q;
  }

  /**
    For every index `indexOf` can return, the truncated remainder the source
    computes equals Dafny's Euclidean remainder: the only negative dividend,
    `n + i - 1 == -1`, needs `n == 1` and both operators then give 0.
   */
  lemma RemaindersAgree(n: int, i: int)
    requires n >= 1 && -1 <= i < n
    ensures JsRemainder(n + i - 1, n) == (n + i - 1) % n
    ensures JsRemainder(n + i + 1, n) == (n + i + 1) % n
  {
  }
}
