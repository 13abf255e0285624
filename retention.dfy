/**
 * The retention engine of django_backup/utils.py: tiered windows anchored
 * at `now`, one reserved backup per window, and the list of backups to
 * delete.  Each operation is a specification function; `reserve_interval`
 * and `decide_remove`, which the source writes as loops, are also methods
 * proved equal to their specification functions.
 */
module Retention {
  import opened Results
  import opened Civil
  import opened Naming

  const Hour: int := 3600
  const Day: int := SecondsPerDay

  /** The interval (start, end] in seconds: left-exclusive, right-inclusive. */
  datatype Window = Window(start: int, end: int)

  /** A tier's first window and the fixed stride by which each later window steps back. */
  datatype Schedule = Schedule(first: Window, stride: int)

  /** `datetime + timedelta`: an OverflowError once the result leaves years 1..9999. */
  function Shift(x: int, delta: int): (r: Result<int>)
    ensures r.Ok? <==> MinSeconds <= x + delta <= MaxSeconds
    ensures r.Ok? ==> r.value == x + delta
    ensures r.Err? ==> r.error == DateOutOfRange
  {
    if MinSeconds <= x + delta <= MaxSeconds then Ok(x + delta) else Err(DateOutOfRange)
  }

  /** `datetime(now.year, now.month, now.day)` in seconds: the last midnight at or before `now`. */
  function Midnight(now: DateTime): (r: int)
    requires Valid(now)
    ensures r % Day == 0 && r <= Seconds(now) < r + Day
  {
    Ordinal(now) * Day
  }

  /**
   * The first window of a tier: monthly ends at the first of this month
   * and strides 30 days; weekly ends at this week's Monday midnight and
   * strides 7 days; daily is (midnight today, midnight tomorrow]; hourly
   * is (start of this hour, start of the next].  Any other tier is an error.
   */
  function FirstWindow(tier: string, now: DateTime): (r: Result<Schedule>)
    requires Valid(now)
    ensures r.Ok? ==> r.value.stride > 0 && r.value.first.end - r.value.first.start == r.value.stride
    ensures r.Ok? ==> MinSeconds <= r.value.first.start && r.value.first.end <= MaxSeconds
    ensures tier != "monthly" && tier != "weekly" && tier != "daily" && tier != "hourly"
            ==> r == Err(UnknownInterval)
  {
    if tier == "monthly" then
      var stride := 30 * Day;
      var end := Ordinal(now.(day := 1)) * Day;
      OrdinalOrder(now.(day := 1), now);
      SecondsRange(now);
      var start :- Shift(end, -stride);
      Ok(Schedule(Window(start, end), stride))
    else if tier == "weekly" then
      var stride := 7 * Day;
      var end :- Shift(Midnight(now), -(Weekday(now) * Day));
      var start :- Shift(end, -stride);
      Ok(Schedule(Window(start, end), stride))
    else if tier == "daily" then
      var end :- Shift(Midnight(now), Day);
      var start :- Shift(end, -Day);
      Ok(Schedule(Window(start, end), Day))
    else if tier == "hourly" then
      var end :- Shift(Midnight(now) + now.hour * Hour, Hour);
      var start :- Shift(end, -Hour);
      Ok(Schedule(Window(start, end), Hour))
    else
      Err(UnknownInterval)
  }

  /** Both edges of a window moved back by one stride, each subtraction checked for overflow. */
  function StepBack(w: Window, stride: int): (r: Result<Window>)
    ensures r.Ok? <==> Shift(w.end, -stride).Ok? && Shift(w.start, -stride).Ok?
    ensures r.Ok? ==> r.value == Window(w.start - stride, w.end - stride)
    ensures r.Err? ==> r.error == DateOutOfRange
  {
    var end :- Shift(w.end, -stride);
    var start :- Shift(w.start, -stride);
    Ok(Window(start, end))
  }

  /** The `k`-th window of a schedule (the first is `k = 0`): `k` strides back from `w`. */
  function NthWindow(w: Window, stride: int, k: nat): (r: Window)
    ensures r == Window(w.start - k * stride, w.end - k * stride)
    decreases k
  {
    if k == 0 then w else NthWindow(Window(w.start - stride, w.end - stride), stride, k - 1)
  }

  /**
   * `between_interval`: is the name's timestamp in (start, end]?  It raises
   * exactly when `get_date` does, with the same error.
   */
  function BetweenInterval(name: string, w: Window): (r: Result<bool>)
    ensures r.Ok? <==> GetDate(name).Ok?
    ensures r.Err? ==> r.error == GetDate(name).error
  {
    var d :- GetDate(name);
    Ok(w.start < Seconds(d) <= w.end)
  }

  /** The name carries a timestamp `get_date` accepts. */
  predicate Dated(name: string) {
    GetDate(name).Ok?
  }

  /** The name's creation time in seconds; an undated name has none, and 0 stands in for it. */
  function Stamp(name: string): int {
    if Dated(name) then Seconds(GetDate(name).value) else 0
  }

  predicate InWindow(name: string, w: Window) {
    BetweenInterval(name, w) == Ok(true)
  }

  /** The names before index `j` were all dated and all outside the window. */
  predicate PassedOver(backups: seq<string>, w: Window, j: int)
    requires j <= |backups|
  {
    forall i :: 0 <= i < j ==> BetweenInterval(backups[i], w) == Ok(false)
  }

  /**
   * The inner loop of `reserve_interval`: the first name, in list order,
   * inside the window; an undated name reached before it raises.
   */
  function ScanWindow(backups: seq<string>, w: Window): (r: Result<Option<string>>)
    ensures r.Ok? && r.value.Some? ==> r.value.value in backups
    decreases |backups|
  {
    if backups == [] then Ok(None)
    else
      var inside :- BetweenInterval(backups[0], w);
      if inside then Ok(Some(backups[0])) else ScanWindow(backups[1..], w)
  }

  /**
   * The outer loop of `reserve_interval` over `n` windows starting at `w`:
   * scan the window, step both edges back, go on.  `Walks.Walk` is the
   * same loop with the scan as a parameter (`RetentionFacts.ReserveFromWalk`).
   */
  function ReserveFrom(backups: seq<string>, w: Window, stride: int, n: nat): (r: Result<seq<string>>)
    ensures r.Ok? ==> |r.value| <= n
    decreases n
  {
    if n == 0 then Ok([])
    else
      var hit :- ScanWindow(backups, w);
      var next :- StepBack(w, stride);
      var rest :- ReserveFrom(backups, next, stride, n - 1);
      Ok(OptionToSeq(hit) + rest)
  }

  /** The windows `range(1, num + 1)` visits: none when `num` is not positive. */
  function WindowCount(num: int): nat {
    if num > 0 then num else 0
  }

  /** `reserve_interval(backups, tier, num)` at time `now`. */
  function Reserved(backups: seq<string>, tier: string, num: int, now: DateTime): (r: Result<seq<string>>)
    requires Valid(now)
    ensures r.Ok? ==> |r.value| <= WindowCount(num)
  {
    var schedule :- FirstWindow(tier, now);
    ReserveFrom(backups, schedule.first, schedule.stride, WindowCount(num))
  }

  /** A finished prefix in front of what is still to be computed. */
  function Prepend(prefix: seq<string>, r: Result<seq<string>>): Result<seq<string>> {
    match r
    case Ok(s) => Ok(prefix + s)
    case Err(e) => Err(e)
  }

  lemma PrependAssociative(a: seq<string>, b: seq<string>, r: Result<seq<string>>)
    ensures Prepend(a, Prepend(b, r)) == Prepend(a + b, r)
    ensures Prepend([], r) == r
  {
    if r.Ok? {
      assert a + (b + r.value) == (a + b) + r.value;
      assert [] + r.value == r.value;
    }
  }

  /** One window of the outer loop: its hit, if any, in front of the remaining windows. */
  lemma ReserveFromStep(backups: seq<string>, w: Window, stride: int, n: nat, hit: Option<string>, next: Window)
    requires n > 0 && ScanWindow(backups, w) == Ok(hit) && StepBack(w, stride) == Ok(next)
    ensures ReserveFrom(backups, w, stride, n) == Prepend(OptionToSeq(hit), ReserveFrom(backups, next, stride, n - 1))
  {
  }

  /** After one more window, the finished prefix has grown by its hit and the rest starts one stride back. */
  lemma Advance(spec: Result<seq<string>>, result: seq<string>, backups: seq<string>, w: Window, stride: int,
                n: nat, hit: Option<string>, next: Window)
    requires n > 0 && ScanWindow(backups, w) == Ok(hit) && StepBack(w, stride) == Ok(next)
    requires spec == Prepend(result, ReserveFrom(backups, w, stride, n))
    ensures spec == Prepend(result + OptionToSeq(hit), ReserveFrom(backups, next, stride, n - 1))
  {
    ReserveFromStep(backups, w, stride, n, hit, next);
    PrependAssociative(result, OptionToSeq(hit), ReserveFrom(backups, next, stride, n - 1));
  }

  /** A window whose scan or step back raises ends the whole reservation with that error. */
  lemma Abort(spec: Result<seq<string>>, result: seq<string>, backups: seq<string>, w: Window, stride: int, n: nat)
    requires n > 0 && spec == Prepend(result, ReserveFrom(backups, w, stride, n))
    ensures ScanWindow(backups, w).Err? ==> spec == Err(ScanWindow(backups, w).error)
    ensures ScanWindow(backups, w).Ok? && StepBack(w, stride).Err? ==> spec == Err(StepBack(w, stride).error)
  {
  }

  /** The inner loop of `reserve_interval`: the first backup inside `w`. */
  method FirstInWindow(backups: seq<string>, w: Window) returns (r: Result<Option<string>>)
    ensures r == ScanWindow(backups, w)
  {
    var j := 0;
    while j < |backups|
      invariant 0 <= j <= |backups|
      invariant ScanWindow(backups, w) == ScanWindow(backups[j..], w)
      decreases |backups| - j
    {
      var inside := BetweenInterval(backups[j], w);
      if inside.Err? {
        return Err(inside.error);
      }
      if inside.value {
        return Ok(Some(backups[j]));
      }
      assert backups[j..][1..] == backups[j + 1..];
      j := j + 1;
    }
    return Ok(None);
  }

  /** The outer loop of `reserve_interval`: `num` windows from `first`, each `delta` before the last. */
  method ReserveWindows(backups: seq<string>, first: Window, delta: int, num: int) returns (r: Result<seq<string>>)
    ensures r == ReserveFrom(backups, first, delta, WindowCount(num))
  {
    ghost var spec := ReserveFrom(backups, first, delta, WindowCount(num));
    PrependAssociative([], [], spec);
    var result: seq<string> := [];
    var w := first;
    var i := 1;
    ghost var left: nat := WindowCount(num);
    while i <= num
      invariant 1 <= i <= WindowCount(num) + 1 && left == WindowCount(num) - (i - 1)
      invariant spec == Prepend(result, ReserveFrom(backups, w, delta, left))
      decreases num - i
    {
      Abort(spec, result, backups, w, delta, left);
      var hit :- FirstInWindow(backups, w);
      var next :- StepBack(w, delta);
      Advance(spec, result, backups, w, delta, left, hit, next);
      result := result + OptionToSeq(hit);
      w := next;
      i := i + 1;
      left := left - 1;
    }
    assert result + [] == result;
    return Ok(result);
  }

  /** `reserve_interval`: the tier's first window, then the loop over its `num` windows. */
  method ReserveInterval(backups: seq<string>, tier: string, num: int, now: DateTime)
    returns (r: Result<seq<string>>)
    requires Valid(now)
    ensures r == Reserved(backups, tier, num, now)
  {
    var schedule :- FirstWindow(tier, now);
    r := ReserveWindows(backups, schedule.first, schedule.stride, num);
  }

  // ---------------------------------------------------------------------
  // decide_remove

  /** `config[key]` for a mandatory tier: a KeyError when it is absent. */
  function Setting(config: map<string, int>, key: string): (r: Result<int>)
    ensures r.Ok? <==> key in config
    ensures r.Ok? ==> r.value == config[key]
    ensures r.Err? ==> r.error == MissingSetting(key)
  {
    if key in config then Ok(config[key]) else Err(MissingSetting(key))
  }

  /** `config.get('hourly', 0)`: the setting where looking it up succeeds, 0 where it would raise. */
  function HourlyCount(config: map<string, int>): (r: int)
    ensures Setting(config, "hourly").Ok? ==> r == Setting(config, "hourly").value
    ensures Setting(config, "hourly").Err? ==> r == 0
  {
    if "hourly" in config then config["hourly"] else 0
  }

  /** The `reserve` list of `decide_remove`: the tier reservations one after another. */
  function Keep(backups: seq<string>, config: map<string, int>, now: DateTime): (r: Result<seq<string>>)
    requires Valid(now)
    ensures r.Ok? ==> "monthly" in config && "weekly" in config && "daily" in config
    ensures r.Ok? ==> |r.value| <= WindowCount(config["monthly"]) + WindowCount(config["weekly"])
                                   + WindowCount(config["daily"]) + WindowCount(HourlyCount(config))
  {
    var monthly :- Setting(config, "monthly");
    var m :- Reserved(backups, "monthly", monthly, now);
    var weekly :- Setting(config, "weekly");
    var w :- Reserved(backups, "weekly", weekly, now);
    var daily :- Setting(config, "daily");
    var d :- Reserved(backups, "daily", daily, now);
    var h :- if HourlyCount(config) != 0 then Reserved(backups, "hourly", HourlyCount(config), now) else Ok([]);
    Ok(m + w + d + h)
  }

  /** The names of `backups` that are not in `keep`, in their order. */
  function Without(backups: seq<string>, keep: seq<string>): (r: seq<string>)
    ensures |r| <= |backups|
  {
    if backups == [] then []
    else (if backups[0] in keep then [] else [backups[0]]) + Without(backups[1..], keep)
  }

  /** The names of `backups` that are in `keep`, in their order. */
  function Within(backups: seq<string>, keep: seq<string>): (r: seq<string>)
    ensures |r| <= |backups|
  {
    if backups == [] then []
    else (if backups[0] in keep then [backups[0]] else []) + Within(backups[1..], keep)
  }

  /** `decide_remove(backups, config)` at time `now`. */
  function RemoveSet(backups: seq<string>, config: map<string, int>, now: DateTime): (r: Result<seq<string>>)
    requires Valid(now)
    ensures r.Ok? <==> Keep(backups, config, now).Ok?
    ensures r.Err? ==> r.error == Keep(backups, config, now).error
    ensures r.Ok? ==> |r.value| <= |backups|
  {
    var keep :- Keep(backups, config, now);
    Ok(Without(backups, keep))
  }

  /** Filtering distributes over concatenation: the order of `backups` is kept. */
  lemma {:induction false} WithoutConcat(a: seq<string>, b: seq<string>, keep: seq<string>)
    ensures Without(a + b, keep) == Without(a, keep) + Without(b, keep)
  {
    if a == [] {
      assert a + b == b;
    } else {
      assert (a + b)[0] == a[0];
      assert (a + b)[1..] == a[1..] + b;
      WithoutConcat(a[1..], b, keep);
    }
  }

  method DecideRemove(backups: seq<string>, config: map<string, int>, now: DateTime)
    returns (r: Result<seq<string>>)
    requires Valid(now)
    ensures r == RemoveSet(backups, config, now)
  {
    var monthly :- Setting(config, "monthly");
    var m :- ReserveInterval(backups, "monthly", monthly, now);
    var reserve := m;
    var weekly :- Setting(config, "weekly");
    var w :- ReserveInterval(backups, "weekly", weekly, now);
    reserve := reserve + w;
    var daily :- Setting(config, "daily");
    var d :- ReserveInterval(backups, "daily", daily, now);
    reserve := reserve + d;
    var hourly := HourlyCount(config);
    if hourly != 0 {
      var h :- ReserveInterval(backups, "hourly", hourly, now);
      reserve := reserve + h;
    } else {
      assert reserve == reserve + [];
    }
    assert Keep(backups, config, now) == Ok(reserve);
    var removeList: seq<string> := [];
    for i := 0 to |backups|
      invariant removeList == Without(backups[..i], reserve)
    {
      WithoutConcat(backups[..i], [backups[i]], reserve);
      assert backups[..i + 1] == backups[..i] + [backups[i]];
      if backups[i] !in reserve {
        removeList := removeList + [backups[i]];
      }
    }
    assert backups[..|backups|] == backups;
    return Ok(removeList);
  }
}
