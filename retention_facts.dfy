/**
 * What `reserve_interval` and `decide_remove` guarantee: the scan of one
 * window stops at the first backup inside it (or at the first name it cannot
 * date), each window contributes at most one backup, every window holding a
 * backup contributes one, and deleting what `decide_remove` chose leaves
 * nothing more to delete.
 */
module RetentionFacts {
  import opened Results
  import opened Civil
  import opened Naming
  import opened Retention
  import opened Walks

  /** Being inside a window is having a parseable timestamp between its edges. */
  lemma InWindowStamp(name: string, w: Window)
    ensures InWindow(name, w) <==> Dated(name) && w.start < Stamp(name) <= w.end
  {
  }

  /**
   * On date-times, `between_interval` is Python's `start < d <= end`:
   * the window excludes its start and includes its end.
   */
  lemma BetweenIntervalCompares(name: string, start: DateTime, end: DateTime)
    requires Valid(start) && Valid(end)
    ensures var r := BetweenInterval(name, Window(Seconds(start), Seconds(end)));
            && (r.Ok? <==> Dated(name))
            && (r.Ok? ==> r.value == (Before(start, GetDate(name).value) && !Before(end, GetDate(name).value)))
  {
    if Dated(name) {
      SecondsOrder(start, GetDate(name).value);
      SecondsOrder(end, GetDate(name).value);
    }
  }

  // ---------------------------------------------------------------------
  // One window: the inner loop

  /** Passing over a non-empty prefix is passing over its head and then over the rest. */
  lemma PassedOverTail(backups: seq<string>, w: Window, j: int)
    requires 0 < j <= |backups|
    ensures PassedOver(backups, w, j) <==>
              BetweenInterval(backups[0], w) == Ok(false) && PassedOver(backups[1..], w, j - 1)
  {
    var tail := backups[1..];
    assert forall i :: 0 <= i < j - 1 ==> tail[i] == backups[i + 1];
    if BetweenInterval(backups[0], w) == Ok(false) && PassedOver(tail, w, j - 1) {
      forall i | 0 < i < j
        ensures BetweenInterval(backups[i], w) == Ok(false)
      {
        assert backups[i] == tail[i - 1];
      }
    }
  }

  /** The scan finds nothing exactly when every name is dated and outside the window. */
  lemma {:induction false} ScanWindowMiss(backups: seq<string>, w: Window)
    ensures ScanWindow(backups, w) == Ok(None) <==> PassedOver(backups, w, |backups|)
    decreases |backups|
  {
    if backups != [] {
      ScanWindowMiss(backups[1..], w);
      PassedOverTail(backups, w, |backups|);
    }
  }

  /**
   * The scan stops at the first name that is not a dated miss: it reserves
   * that name when it lies inside the window, and raises its error otherwise.
   */
  lemma {:induction false} ScanWindowStop(backups: seq<string>, w: Window, j: int)
    requires 0 <= j < |backups| && PassedOver(backups, w, j)
    requires BetweenInterval(backups[j], w) != Ok(false)
    ensures BetweenInterval(backups[j], w).Ok? ==> ScanWindow(backups, w) == Ok(Some(backups[j]))
    ensures BetweenInterval(backups[j], w).Err? ==> ScanWindow(backups, w) == Err(BetweenInterval(backups[j], w).error)
    decreases j
  {
    if j > 0 {
      PassedOverTail(backups, w, j);
      ScanWindowStop(backups[1..], w, j - 1);
    }
  }

  /** A reserved name comes from the list and lies inside the window. */
  lemma {:induction false} ScanWindowHit(backups: seq<string>, w: Window)
    ensures ScanWindow(backups, w).Ok? && ScanWindow(backups, w).value.Some? ==>
              ScanWindow(backups, w).value.value in backups && InWindow(ScanWindow(backups, w).value.value, w)
    decreases |backups|
  {
    if backups != [] && BetweenInterval(backups[0], w) == Ok(false) {
      ScanWindowHit(backups[1..], w);
    }
  }

  /** A window holding some listed backup always yields a hit, unless the scan raises first. */
  lemma ScanWindowFinds(backups: seq<string>, w: Window, b: string)
    requires b in backups && InWindow(b, w)
    ensures ScanWindow(backups, w) != Ok(None)
  {
    ScanWindowMiss(backups, w);
    var j :| 0 <= j < |backups| && backups[j] == b;
  }

  /** The position at which the scan stopped: every name before it was a dated miss. */
  lemma {:induction false} ScanWindowIndex(backups: seq<string>, w: Window) returns (j: nat)
    requires ScanWindow(backups, w).Ok? && ScanWindow(backups, w).value.Some?
    ensures j < |backups| && PassedOver(backups, w, j)
    ensures backups[j] == ScanWindow(backups, w).value.value && InWindow(backups[j], w)
    decreases |backups|
  {
    if BetweenInterval(backups[0], w) == Ok(true) {
      j := 0;
    } else {
      var k := ScanWindowIndex(backups[1..], w);
      j := k + 1;
      PassedOverTail(backups, w, j);
    }
  }

  /** Every dated name is no later than the dated names after it. */
  predicate Chronological(backups: seq<string>) {
    forall i, j :: 0 <= i < j < |backups| && Dated(backups[i]) && Dated(backups[j]) ==>
      Stamp(backups[i]) <= Stamp(backups[j])
  }

  /**
   * On a chronologically sorted list the name a window reserves is the
   * earliest backup inside that window.
   */
  lemma ScanEarliest(backups: seq<string>, w: Window, hit: string, b: string)
    requires Chronological(backups)
    requires ScanWindow(backups, w) == Ok(Some(hit))
    requires b in backups && InWindow(b, w)
    ensures Dated(hit) && Dated(b) && Stamp(hit) <= Stamp(b)
  {
    var j := ScanWindowIndex(backups, w);
    var i :| 0 <= i < |backups| && backups[i] == b;
    InWindowStamp(hit, w);
    InWindowStamp(b, w);
    assert BetweenInterval(backups[i], w) == Ok(true);
    assert j <= i;
  }

  // ---------------------------------------------------------------------
  // All windows: the outer loop, as a walk whose scan is ScanWindow

  /** The scan `reserve_interval` runs on each window: `ScanWindow` over the list. */
  function Scanner(backups: seq<string>): Scan {
    v => ScanWindow(backups, v)
  }

  /** `ReserveFrom` is the walk whose scan is `ScanWindow` over the list. */
  lemma {:induction false} ReserveFromWalk(backups: seq<string>, w: Window, stride: int, n: nat)
    ensures ReserveFrom(backups, w, stride, n) == Walk(Scanner(backups), w, stride, n)
    decreases n
  {
    if n > 0 && ScanWindow(backups, w).Ok? && StepBack(w, stride).Ok? {
      ReserveFromWalk(backups, StepBack(w, stride).value, stride, n - 1);
    }
  }

  /** Every hit of `ScanWindow` is dated, and its timestamp lies inside the window scanned. */
  lemma ScannerInside(backups: seq<string>)
    ensures KeyedInside(Scanner(backups), Stamp)
  {
    forall v | Scanner(backups)(v).Ok? && Scanner(backups)(v).value.Some?
      ensures v.start < Stamp(Scanner(backups)(v).value.value) <= v.end
    {
      ScanWindowHit(backups, v);
      InWindowStamp(ScanWindow(backups, v).value.value, v);
    }
  }

  /** Every reserved name is a backup from the list, inside one of the `n` windows. */
  lemma ReserveFromSource(backups: seq<string>, w: Window, stride: int, n: nat, res: seq<string>, i: nat)
    returns (k: nat)
    requires ReserveFrom(backups, w, stride, n) == Ok(res) && i < |res|
    ensures k < n && res[i] in backups && InWindow(res[i], NthWindow(w, stride, k))
  {
    ReserveFromWalk(backups, w, stride, n);
    k := WalkSource(Scanner(backups), w, stride, n, res, i);
    ScanWindowHit(backups, NthWindow(w, stride, k));
  }

  /** Over an empty list every scan misses, so nothing is reserved. */
  lemma {:induction false} ReserveFromEmpty(w: Window, stride: int, n: nat)
    ensures ReserveFrom([], w, stride, n).Ok? ==> ReserveFrom([], w, stride, n).value == []
    decreases n
  {
    if n > 0 && StepBack(w, stride).Ok? {
      ReserveFromEmpty(StepBack(w, stride).value, stride, n - 1);
    }
  }

  /** A scan that reaches an undated name first raises that name's error. */
  lemma ReserveFromUndated(backups: seq<string>, w: Window, stride: int, n: nat)
    requires n > 0 && backups != [] && !Dated(backups[0])
    ensures ReserveFrom(backups, w, stride, n) == Err(GetDate(backups[0]).error)
  {
    assert ScanWindow(backups, w) == Err(GetDate(backups[0]).error);
  }

  /** With every listed name dated, the scan of a window never raises. */
  lemma {:induction false} ScanWindowDefined(backups: seq<string>, w: Window)
    requires forall b :: b in backups ==> Dated(b)
    ensures ScanWindow(backups, w).Ok?
    decreases |backups|
  {
    if backups != [] {
      assert Dated(backups[0]);
      assert forall b :: b in backups[1..] ==> b in backups;
      ScanWindowDefined(backups[1..], w);
    }
  }

  /** `n` strides back is one stride back and then `n - 1` more, and is no later than the first. */
  lemma StrideSteps(a: int, stride: int, n: nat)
    requires stride > 0 && n > 0
    ensures a - n * stride == (a - stride) - (n - 1) * stride
    ensures a - n * stride <= a - stride
  {
    assert n * stride == stride + (n - 1) * stride;
  }

  /**
   * With every listed name dated, the walk over `n` windows completes iff
   * its last step back, `n` strides before the first window's start, stays
   * within `datetime`'s range: the only error left is `OverflowError`.
   */
  lemma {:induction false} ReserveFromDefined(backups: seq<string>, w: Window, stride: int, n: nat)
    requires stride > 0 && MinSeconds <= w.start <= w.end <= MaxSeconds
    requires forall b :: b in backups ==> Dated(b)
    ensures ReserveFrom(backups, w, stride, n).Ok? <==> w.start - n * stride >= MinSeconds
    decreases n
  {
    if n > 0 {
      ScanWindowDefined(backups, w);
      var next := Window(w.start - stride, w.end - stride);
      StrideSteps(w.start, stride, n);
      if w.start - stride >= MinSeconds {
        assert StepBack(w, stride) == Ok(next);
        ReserveFromDefined(backups, next, stride, n - 1);
      } else {
        assert StepBack(w, stride).Err?;
      }
    }
  }

  // ---------------------------------------------------------------------
  // reserve_interval

  /**
   * What `reserve_interval` returns: at most `num` names, each a dated
   * backup from the list, newest first and therefore without duplicates.
   */
  lemma ReservedFacts(backups: seq<string>, tier: string, num: int, now: DateTime, res: seq<string>)
    requires Valid(now) && Reserved(backups, tier, num, now) == Ok(res)
    ensures |res| <= WindowCount(num)
    ensures forall i :: 0 <= i < |res| ==> res[i] in backups && Dated(res[i])
    ensures forall i, j :: 0 <= i < j < |res| ==> Stamp(res[j]) < Stamp(res[i])
    ensures forall i, j :: 0 <= i < j < |res| ==> res[i] != res[j]
  {
    var s := FirstWindow(tier, now).value;
    var n := WindowCount(num);
    ReserveFromWalk(backups, s.first, s.stride, n);
    ScannerInside(backups);
    WalkOrder(Scanner(backups), Stamp, s.first, s.stride, n, res);
    forall i | 0 <= i < |res|
      ensures res[i] in backups && Dated(res[i])
    {
      var k := ReserveFromSource(backups, s.first, s.stride, n, res, i);
    }
  }

  /** `reserve_interval` reserves exactly the first listed backup of each of its windows. */
  lemma ReservedHits(backups: seq<string>, tier: string, num: int, now: DateTime, res: seq<string>)
    requires Valid(now) && Reserved(backups, tier, num, now) == Ok(res)
    ensures FirstWindow(tier, now).Ok?
    ensures var s := FirstWindow(tier, now).value;
            forall k :: 0 <= k < num ==> Lands(Scanner(backups), NthWindow(s.first, s.stride, k), res)
    ensures var s := FirstWindow(tier, now).value;
            forall x :: x in res ==> IsHit(Scanner(backups), s.first, s.stride, WindowCount(num), x)
  {
    var s := FirstWindow(tier, now).value;
    ReserveFromWalk(backups, s.first, s.stride, WindowCount(num));
    WalkHits(Scanner(backups), s.first, s.stride, WindowCount(num), res);
  }

  /**
   * One survivor per window: two reserved names never share a window, and
   * every window holding a listed backup keeps one.
   */
  lemma ReservedPerWindow(backups: seq<string>, tier: string, num: int, now: DateTime, res: seq<string>, k: nat)
    requires Valid(now) && Reserved(backups, tier, num, now) == Ok(res)
    ensures FirstWindow(tier, now).Ok?
    ensures var s := FirstWindow(tier, now).value;
            forall i, j :: 0 <= i < j < |res| ==>
              !(InWindow(res[i], NthWindow(s.first, s.stride, k)) && InWindow(res[j], NthWindow(s.first, s.stride, k)))
    ensures var s := FirstWindow(tier, now).value;
            k < num && (exists b :: b in backups && InWindow(b, NthWindow(s.first, s.stride, k))) ==>
              exists i :: 0 <= i < |res| && InWindow(res[i], NthWindow(s.first, s.stride, k))
  {
    var s := FirstWindow(tier, now).value;
    var n := WindowCount(num);
    var v := NthWindow(s.first, s.stride, k);
    ReserveFromWalk(backups, s.first, s.stride, n);
    ScannerInside(backups);
    forall i, j | 0 <= i < j < |res|
      ensures !(InWindow(res[i], v) && InWindow(res[j], v))
    {
      WalkOnePerWindow(Scanner(backups), Stamp, s.first, s.stride, n, res, i, j, k);
      InWindowStamp(res[i], v);
      InWindowStamp(res[j], v);
    }
    if k < num && exists b :: b in backups && InWindow(b, v) {
      var b :| b in backups && InWindow(b, v);
      WalkScans(Scanner(backups), s.first, s.stride, n, res, k);
      ScanWindowFinds(backups, v, b);
      ScanWindowHit(backups, v);
      var x := ScanWindow(backups, v).value.value;
      var i :| 0 <= i < |res| && res[i] == x;
      assert InWindow(res[i], v);
    }
  }

  /**
   * When `reserve_interval` returns: with a known tier and every listed name
   * dated, it returns iff stepping `max(num, 0)` strides back from the first
   * window's start stays within `datetime`'s range.
   */
  lemma ReservedDefined(backups: seq<string>, tier: string, num: int, now: DateTime)
    requires Valid(now) && FirstWindow(tier, now).Ok?
    requires forall b :: b in backups ==> Dated(b)
    ensures var s := FirstWindow(tier, now).value;
            Reserved(backups, tier, num, now).Ok? <==> s.first.start - WindowCount(num) * s.stride >= MinSeconds
  {
    var s := FirstWindow(tier, now).value;
    ReserveFromDefined(backups, s.first, s.stride, WindowCount(num));
  }

  /** With `num <= 0` the loop never runs: only computing the first window can fail. */
  lemma ReservedNothing(backups: seq<string>, tier: string, num: int, now: DateTime)
    requires Valid(now) && num <= 0
    ensures Reserved(backups, tier, num, now).Ok? <==> FirstWindow(tier, now).Ok?
    ensures Reserved(backups, tier, num, now).Ok? ==> Reserved(backups, tier, num, now).value == []
  {
  }

  /** An empty list reserves nothing. */
  lemma ReservedFromEmpty(tier: string, num: int, now: DateTime)
    requires Valid(now)
    ensures Reserved([], tier, num, now).Ok? ==> Reserved([], tier, num, now).value == []
  {
    if FirstWindow(tier, now).Ok? {
      var s := FirstWindow(tier, now).value;
      ReserveFromEmpty(s.first, s.stride, WindowCount(num));
    }
  }

  /** Any tier other than the four raises, whatever the list and the count. */
  lemma UnknownTierRejected(backups: seq<string>, tier: string, num: int, now: DateTime)
    requires Valid(now)
    requires tier != "monthly" && tier != "weekly" && tier != "daily" && tier != "hourly"
    ensures Reserved(backups, tier, num, now) == Err(UnknownInterval)
  {
  }

  /**
   * Unlike a silent skip, an undated name the scan reaches aborts the whole
   * reservation with that name's error.
   */
  lemma ReservedUndatedFirst(backups: seq<string>, tier: string, num: int, now: DateTime)
    requires Valid(now) && num > 0 && FirstWindow(tier, now).Ok?
    requires backups != [] && !Dated(backups[0])
    ensures Reserved(backups, tier, num, now) == Err(GetDate(backups[0]).error)
  {
    var s := FirstWindow(tier, now).value;
    ReserveFromUndated(backups, s.first, s.stride, num);
  }
}
