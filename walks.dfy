/**
 * The outer loop of `reserve_interval` for an arbitrary inner scan: walk
 * `n` windows, each one stride before the last, and keep what the scan
 * reports for each.  What the loop guarantees does not depend on how the
 * scan decides; it depends only on each reported hit having a key inside
 * the window it was found in.  Those guarantees are proved here once, and
 * `RetentionFacts` instantiates them with `ScanWindow` and the names'
 * timestamps.
 */
module Walks {
  import opened Results
  import opened Retention

  /** One window's scan: an error, no hit, or the name it reserves. */
  type Scan = Window -> Result<Option<string>>

  /** The loop `for i in range(1, num + 1)` over `n` windows, with the scan as a parameter. */
  function Walk(scan: Scan, w: Window, stride: int, n: nat): Result<seq<string>>
    decreases n
  {
    if n == 0 then Ok([])
    else
      var hit :- scan(w);
      var next :- StepBack(w, stride);
      var rest :- Walk(scan, next, stride, n - 1);
      Ok(OptionToSeq(hit) + rest)
  }

  /** A walk that reserves `res` is the first window's hit followed by what the later windows reserve. */
  lemma WalkUnfold(scan: Scan, w: Window, stride: int, n: nat, res: seq<string>)
    returns (hit: Option<string>, next: Window, rest: seq<string>)
    requires n > 0 && Walk(scan, w, stride, n) == Ok(res)
    ensures scan(w) == Ok(hit) && next == Window(w.start - stride, w.end - stride)
    ensures Walk(scan, next, stride, n - 1) == Ok(rest)
    ensures res == OptionToSeq(hit) + rest
  {
    hit := scan(w).value;
    next := StepBack(w, stride).value;
    rest := Walk(scan, next, stride, n - 1).value;
  }

  /** Past the first window's hit, the reservation continues with the later windows'. */
  lemma TailIndex(hit: Option<string>, rest: seq<string>, res: seq<string>, m: nat)
    requires res == OptionToSeq(hit) + rest && |OptionToSeq(hit)| <= m < |res|
    ensures m - |OptionToSeq(hit)| < |rest| && res[m] == rest[m - |OptionToSeq(hit)|]
  {
  }

  // ---------------------------------------------------------------------
  // The windows

  /** The `k`-th window after `w` is the `k + 1`-th window of the schedule. */
  lemma NthWindowShift(w: Window, stride: int, k: nat)
    ensures NthWindow(Window(w.start - stride, w.end - stride), stride, k) == NthWindow(w, stride, k + 1)
  {
  }

  /** Later windows lie entirely before earlier ones, with the same width. */
  lemma {:induction false} NthWindowBefore(w: Window, stride: int, k: nat)
    requires stride > 0 && w.end - w.start == stride && k > 0
    ensures NthWindow(w, stride, k).end <= w.start
    ensures NthWindow(w, stride, k).end - NthWindow(w, stride, k).start == stride
    decreases k
  {
    if k > 1 {
      NthWindowBefore(Window(w.start - stride, w.end - stride), stride, k - 1);
    }
  }

  // ---------------------------------------------------------------------
  // What is reserved: exactly the windows' hits

  /** The scan of `v` succeeds, and its hit, if any, is in `res`. */
  predicate Lands(scan: Scan, v: Window, res: seq<string>) {
    scan(v).Ok? && (scan(v).value.Some? ==> scan(v).value.value in res)
  }

  /** Every one of the `n` windows is scanned without error, and its hit is reserved. */
  lemma {:induction false} WalkScans(scan: Scan, w: Window, stride: int, n: nat, res: seq<string>, k: nat)
    requires Walk(scan, w, stride, n) == Ok(res) && k < n
    ensures Lands(scan, NthWindow(w, stride, k), res)
    decreases n
  {
    var hit, next, rest := WalkUnfold(scan, w, stride, n, res);
    if k == 0 {
      assert NthWindow(w, stride, 0) == w;
      assert Lands(scan, w, res);
    } else {
      NthWindowShift(w, stride, k - 1);
      WalkScans(scan, next, stride, n - 1, rest, k - 1);
      assert forall x :: x in rest ==> x in res;
      assert Lands(scan, NthWindow(next, stride, k - 1), res);
    }
  }

  /** Every reserved name is the hit of one of the `n` windows. */
  lemma {:induction false} WalkSource(scan: Scan, w: Window, stride: int, n: nat, res: seq<string>, i: nat)
    returns (k: nat)
    requires Walk(scan, w, stride, n) == Ok(res) && i < |res|
    ensures k < n && scan(NthWindow(w, stride, k)) == Ok(Some(res[i]))
    decreases n
  {
    var hit, next, rest := WalkUnfold(scan, w, stride, n, res);
    if i < |OptionToSeq(hit)| {
      assert NthWindow(w, stride, 0) == w;
      k := 0;
      assert scan(NthWindow(w, stride, k)) == Ok(Some(res[i]));
    } else {
      TailIndex(hit, rest, res, i);
      var k' := WalkSource(scan, next, stride, n - 1, rest, i - |OptionToSeq(hit)|);
      NthWindowShift(w, stride, k');
      k := k' + 1;
      assert scan(NthWindow(next, stride, k')) == Ok(Some(res[i]));
    }
  }

  /** `x` is the hit of one of the `n` windows. */
  ghost predicate IsHit(scan: Scan, w: Window, stride: int, n: nat, x: string) {
    exists k: nat :: k < n && scan(NthWindow(w, stride, k)) == Ok(Some(x))
  }

  /**
   * The reserved names are exactly the windows' hits: every window is
   * scanned without error and its hit reserved, and nothing else is.
   */
  lemma WalkHits(scan: Scan, w: Window, stride: int, n: nat, res: seq<string>)
    requires Walk(scan, w, stride, n) == Ok(res)
    ensures forall k :: 0 <= k < n ==> Lands(scan, NthWindow(w, stride, k), res)
    ensures forall x :: x in res ==> IsHit(scan, w, stride, n, x)
  {
    forall k | 0 <= k < n
      ensures Lands(scan, NthWindow(w, stride, k), res)
    {
      WalkScans(scan, w, stride, n, res, k);
    }
    forall x | x in res
      ensures IsHit(scan, w, stride, n, x)
    {
      var i :| 0 <= i < |res| && res[i] == x;
      var k := WalkSource(scan, w, stride, n, res, i);
    }
  }

  // ---------------------------------------------------------------------
  // Order: one hit per window, newest window first

  /** Every hit the scan reports has its key inside the window it was found in. */
  ghost predicate KeyedInside(scan: Scan, key: string -> int) {
    forall v :: scan(v).Ok? && scan(v).value.Some? ==> v.start < key(scan(v).value.value) <= v.end
  }

  /** The keys of `res` are at most `top` and strictly decrease. */
  ghost predicate Descending(res: seq<string>, key: string -> int, top: int) {
    && (forall i :: 0 <= i < |res| ==> key(res[i]) <= top)
    && (forall i, j :: 0 <= i < j < |res| ==> key(res[j]) < key(res[i]))
  }

  /** Putting a name with a larger key than all others in front keeps the keys descending. */
  lemma KeyedCons(x: string, rest: seq<string>, key: string -> int, bound: int, top: int)
    requires Descending(rest, key, bound) && bound < key(x) <= top
    ensures Descending([x] + rest, key, top)
  {
    var res := [x] + rest;
    forall i | 0 <= i < |res|
      ensures key(res[i]) <= top
    {
      if i > 0 {
        assert res[i] == rest[i - 1];
      }
    }
    forall i, j | 0 <= i < j < |res|
      ensures key(res[j]) < key(res[i])
    {
      assert res[j] == rest[j - 1];
      if i > 0 {
        assert res[i] == rest[i - 1];
      }
    }
  }

  /** A bound on the keys can always be loosened. */
  lemma DescendingWeaken(res: seq<string>, key: string -> int, bound: int, top: int)
    requires Descending(res, key, bound) && bound <= top
    ensures Descending(res, key, top)
  {
  }

  /**
   * The reserved names' keys lie no later than the first window's end and
   * strictly decrease: each window's hit is newer than every later one's.
   */
  lemma {:induction false} WalkOrder(scan: Scan, key: string -> int, w: Window, stride: int, n: nat, res: seq<string>)
    requires stride > 0 && w.end - w.start == stride
    requires KeyedInside(scan, key) && Walk(scan, w, stride, n) == Ok(res)
    ensures Descending(res, key, w.end)
    decreases n
  {
    if n > 0 {
      var hit, next, rest := WalkUnfold(scan, w, stride, n, res);
      WalkOrder(scan, key, next, stride, n - 1, rest);
      if hit.Some? {
        assert res == [hit.value] + rest;
        KeyedCons(hit.value, rest, key, w.start, w.end);
      } else {
        assert res == rest;
        DescendingWeaken(rest, key, w.start, w.end);
      }
    }
  }

  /** Both `a` and `b` have their keys inside the window `v`. */
  predicate Shares(v: Window, key: string -> int, a: string, b: string) {
    v.start < key(a) <= v.end && v.start < key(b) <= v.end
  }

  /** The first window holds at most the first window's hit: every later name is keyed at or before its start. */
  lemma LaterOutsideFirst(key: string -> int, w: Window, hit: Option<string>, rest: seq<string>, res: seq<string>,
                          i: nat, j: nat)
    requires res == OptionToSeq(hit) + rest && Descending(rest, key, w.start) && i < j < |res|
    ensures !Shares(w, key, res[i], res[j])
  {
    TailIndex(hit, rest, res, j);
    assert key(res[j]) <= w.start;
  }

  /** The first window's hit is keyed after the start of the first window, so after every later window. */
  lemma HitOutsideLater(scan: Scan, key: string -> int, w: Window, stride: int, k: nat,
                        hit: Option<string>, rest: seq<string>, res: seq<string>, i: nat, j: nat)
    requires stride > 0 && w.end - w.start == stride && k > 0
    requires KeyedInside(scan, key) && scan(w) == Ok(hit)
    requires res == OptionToSeq(hit) + rest && i < |OptionToSeq(hit)| && j < |res|
    ensures !Shares(NthWindow(w, stride, k), key, res[i], res[j])
  {
    NthWindowBefore(w, stride, k);
    assert res[i] == hit.value;
    assert NthWindow(w, stride, k).end <= w.start < key(res[i]);
  }

  /** No window holds the keys of two reserved names: one backup per interval. */
  lemma {:induction false} WalkOnePerWindow(scan: Scan, key: string -> int, w: Window, stride: int, n: nat,
                                            res: seq<string>, i: nat, j: nat, k: nat)
    requires stride > 0 && w.end - w.start == stride
    requires KeyedInside(scan, key) && Walk(scan, w, stride, n) == Ok(res)
    requires i < j < |res|
    ensures !Shares(NthWindow(w, stride, k), key, res[i], res[j])
    decreases n
  {
    var hit, next, rest := WalkUnfold(scan, w, stride, n, res);
    var v := NthWindow(w, stride, k);
    if k == 0 {
      WalkOrder(scan, key, next, stride, n - 1, rest);
      LaterOutsideFirst(key, w, hit, rest, res, i, j);
    } else if i < |OptionToSeq(hit)| {
      HitOutsideLater(scan, key, w, stride, k, hit, rest, res, i, j);
    } else {
      var h := |OptionToSeq(hit)|;
      TailIndex(hit, rest, res, i);
      TailIndex(hit, rest, res, j);
      var i', j' := i - h, j - h;
      assert i' < j' < |rest| && res[i] == rest[i'] && res[j] == rest[j'];
      assert next.end - next.start == stride;
      WalkOnePerWindow(scan, key, next, stride, n - 1, rest, i', j', k - 1);
      NthWindowShift(w, stride, k - 1);
      assert NthWindow(next, stride, k - 1) == v;
      assert !Shares(v, key, rest[i'], rest[j']);
    }
  }
}
