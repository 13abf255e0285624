/**
 * What `decide_remove` guarantees: it removes exactly the listed names no
 * tier reserves, in list order; the three main tiers are mandatory and the
 * hourly one optional; and running it again on the survivors, at the same
 * `now`, removes nothing.
 */
module DecisionFacts {
  import opened Results
  import opened Civil
  import opened Naming
  import opened Retention
  import opened RetentionFacts
  import opened Anchors

  // ---------------------------------------------------------------------
  // Filtering

  lemma {:induction false} WithoutMembers(backups: seq<string>, keep: seq<string>)
    ensures forall x :: x in Without(backups, keep) <==> x in backups && x !in keep
  {
    if backups != [] {
      WithoutMembers(backups[1..], keep);
      assert forall x :: x in backups <==> x == backups[0] || x in backups[1..];
    }
  }

  lemma {:induction false} WithinMembers(backups: seq<string>, keep: seq<string>)
    ensures forall x :: x in Within(backups, keep) <==> x in backups && x in keep
  {
    if backups != [] {
      WithinMembers(backups[1..], keep);
      assert forall x :: x in backups <==> x == backups[0] || x in backups[1..];
    }
  }

  /** The removed and the kept names together are the list, each name as often as it is listed. */
  lemma {:induction false} Partition(backups: seq<string>, keep: seq<string>)
    ensures multiset(Without(backups, keep)) + multiset(Within(backups, keep)) == multiset(backups)
  {
    if backups != [] {
      var x, tail := backups[0], backups[1..];
      Partition(tail, keep);
      assert backups == [x] + tail;
      if x in keep {
        assert Without(backups, keep) == Without(tail, keep);
        assert Within(backups, keep) == [x] + Within(tail, keep);
      } else {
        assert Without(backups, keep) == [x] + Without(tail, keep);
        assert Within(backups, keep) == Within(tail, keep);
      }
    }
  }

  /** Nothing the survivors hold is removed by the same reservation. */
  lemma {:induction false} WithoutWithin(backups: seq<string>, keep: seq<string>)
    ensures Without(Within(backups, keep), keep) == []
  {
    if backups != [] {
      var tail := Within(backups[1..], keep);
      WithoutWithin(backups[1..], keep);
      if backups[0] in keep {
        assert Within(backups, keep) == [backups[0]] + tail;
        assert ([backups[0]] + tail)[1..] == tail;
      } else {
        assert Within(backups, keep) == [] + tail == tail;
      }
    }
  }

  // ---------------------------------------------------------------------
  // decide_remove

  /** `reserve_interval(backups, tier, config[tier])` for a mandatory tier, or the KeyError of a missing count. */
  function TierReserved(backups: seq<string>, config: map<string, int>, tier: string, now: DateTime): Result<seq<string>>
    requires Valid(now)
  {
    var num :- Setting(config, tier);
    Reserved(backups, tier, num, now)
  }

  /**
   * The `reserve` list is built from the tiers in order, monthly, weekly,
   * daily, then hourly when its count is not zero: it exists exactly when
   * each of those reservations does, the first one that raises is the
   * error, and it holds exactly the names some tier reserves.
   */
  lemma KeepMembers(backups: seq<string>, config: map<string, int>, now: DateTime)
    requires Valid(now)
    ensures var m := TierReserved(backups, config, "monthly", now);
            var w := TierReserved(backups, config, "weekly", now);
            var d := TierReserved(backups, config, "daily", now);
            var h := Reserved(backups, "hourly", HourlyCount(config), now);
            && (Keep(backups, config, now).Ok? <==> m.Ok? && w.Ok? && d.Ok? && (HourlyCount(config) != 0 ==> h.Ok?))
            && (m.Err? ==> Keep(backups, config, now) == Err(m.error))
            && (m.Ok? && w.Err? ==> Keep(backups, config, now) == Err(w.error))
            && (m.Ok? && w.Ok? && d.Err? ==> Keep(backups, config, now) == Err(d.error))
            && (m.Ok? && w.Ok? && d.Ok? && HourlyCount(config) != 0 && h.Err? ==> Keep(backups, config, now) == Err(h.error))
            && (Keep(backups, config, now).Ok? ==>
                  forall x :: x in Keep(backups, config, now).value <==>
                    x in m.value || x in w.value || x in d.value || (HourlyCount(config) != 0 && x in h.value))
  {
  }

  /** Every reserved name, of every tier, comes from the list. */
  lemma KeepFromList(backups: seq<string>, config: map<string, int>, now: DateTime, keep: seq<string>)
    requires Valid(now) && Keep(backups, config, now) == Ok(keep)
    ensures forall x :: x in keep ==> x in backups
  {
    var m := Reserved(backups, "monthly", config["monthly"], now).value;
    var w := Reserved(backups, "weekly", config["weekly"], now).value;
    var d := Reserved(backups, "daily", config["daily"], now).value;
    var h := if HourlyCount(config) != 0 then Reserved(backups, "hourly", HourlyCount(config), now).value else [];
    assert keep == m + w + d + h;
    ReservedFacts(backups, "monthly", config["monthly"], now, m);
    ReservedFacts(backups, "weekly", config["weekly"], now, w);
    ReservedFacts(backups, "daily", config["daily"], now, d);
    if HourlyCount(config) != 0 {
      ReservedFacts(backups, "hourly", HourlyCount(config), now, h);
    }
  }

  /**
   * `decide_remove` returns exactly the listed names that no tier reserves,
   * in list order; those and the reserved names make up the list.
   */
  lemma RemoveSetPartition(backups: seq<string>, config: map<string, int>, now: DateTime, removed: seq<string>)
    requires Valid(now) && RemoveSet(backups, config, now) == Ok(removed)
    ensures Keep(backups, config, now).Ok?
    ensures forall x :: x in removed <==> x in backups && x !in Keep(backups, config, now).value
    ensures multiset(removed) + multiset(Within(backups, Keep(backups, config, now).value)) == multiset(backups)
    ensures forall x :: x in Keep(backups, config, now).value ==> x in backups
  {
    var keep := Keep(backups, config, now).value;
    WithoutMembers(backups, keep);
    Partition(backups, keep);
    KeepFromList(backups, config, now, keep);
  }

  /**
   * No name any tier reserves is removed: `decide_remove` returns exactly
   * the listed names outside every tier's reservation.
   */
  lemma RemovesNoReserved(backups: seq<string>, config: map<string, int>, now: DateTime, removed: seq<string>)
    requires Valid(now) && RemoveSet(backups, config, now) == Ok(removed)
    ensures var m := TierReserved(backups, config, "monthly", now);
            var w := TierReserved(backups, config, "weekly", now);
            var d := TierReserved(backups, config, "daily", now);
            var h := Reserved(backups, "hourly", HourlyCount(config), now);
            && m.Ok? && w.Ok? && d.Ok? && (HourlyCount(config) != 0 ==> h.Ok?)
            && forall x :: x in removed <==>
                 && x in backups
                 && x !in m.value && x !in w.value && x !in d.value
                 && (HourlyCount(config) != 0 ==> x !in h.value)
  {
    KeepMembers(backups, config, now);
    RemoveSetPartition(backups, config, now, removed);
  }

  /** The monthly, weekly and daily counts are mandatory; monthly is looked up first. */
  lemma MandatoryTiers(backups: seq<string>, config: map<string, int>, now: DateTime)
    requires Valid(now)
    ensures RemoveSet(backups, config, now).Ok? ==> "monthly" in config && "weekly" in config && "daily" in config
    ensures "monthly" !in config ==> RemoveSet(backups, config, now) == Err(MissingSetting("monthly"))
  {
  }

  /** A zero hourly count is the same as none at all. */
  lemma HourlyOptional(backups: seq<string>, config: map<string, int>, now: DateTime)
    requires Valid(now)
    ensures RemoveSet(backups, config["hourly" := 0], now) == RemoveSet(backups, config - {"hourly"}, now)
  {
    var zero := config["hourly" := 0];
    var absent := config - {"hourly"};
    assert forall key :: key != "hourly" ==> Setting(zero, key) == Setting(absent, key);
    assert HourlyCount(zero) == HourlyCount(absent) == 0;
  }

  // ---------------------------------------------------------------------
  // Idempotence

  /** A dated name outside the window in front of a list does not change the scan. */
  lemma ScanSkips(x: string, rest: seq<string>, w: Window)
    requires BetweenInterval(x, w) == Ok(false)
    ensures ScanWindow([x] + rest, w) == ScanWindow(rest, w)
  {
    assert ([x] + rest)[0] == x;
    assert ([x] + rest)[1..] == rest;
  }

  /** Dropping names the scan passes over, but not its hit, leaves the scan's outcome unchanged. */
  lemma {:induction false} ScanKept(backups: seq<string>, w: Window, keep: seq<string>, found: Option<string>)
    requires ScanWindow(backups, w) == Ok(found)
    requires found.Some? ==> found.value in keep
    ensures ScanWindow(Within(backups, keep), w) == Ok(found)
    decreases |backups|
  {
    if backups != [] {
      var x := backups[0];
      var rest := Within(backups[1..], keep);
      var survivors := (if x in keep then [x] else []) + rest;
      assert Within(backups, keep) == survivors;
      if BetweenInterval(x, w) == Ok(false) {
        ScanKept(backups[1..], w, keep, found);
        if x in keep {
          ScanSkips(x, rest, w);
        } else {
          assert survivors == rest;
        }
      } else {
        assert found == Some(x);
        assert survivors[0] == x;
      }
    }
  }

  /** Keeping every reserved name keeps the whole reservation. */
  lemma {:induction false} ReserveKept(backups: seq<string>, w: Window, stride: int, n: nat,
                                       keep: seq<string>, res: seq<string>)
    requires ReserveFrom(backups, w, stride, n) == Ok(res)
    requires forall x :: x in res ==> x in keep
    ensures ReserveFrom(Within(backups, keep), w, stride, n) == Ok(res)
    decreases n
  {
    if n > 0 {
      var hit := ScanWindow(backups, w).value;
      var next := StepBack(w, stride).value;
      var rest := ReserveFrom(backups, next, stride, n - 1).value;
      assert res == OptionToSeq(hit) + rest;
      ScanKept(backups, w, keep, hit);
      ReserveKept(backups, next, stride, n - 1, keep, rest);
    }
  }

  lemma ReservedKept(backups: seq<string>, tier: string, num: int, now: DateTime, keep: seq<string>, res: seq<string>)
    requires Valid(now) && Reserved(backups, tier, num, now) == Ok(res)
    requires forall x :: x in res ==> x in keep
    ensures Reserved(Within(backups, keep), tier, num, now) == Ok(res)
  {
    var s := FirstWindow(tier, now).value;
    ReserveKept(backups, s.first, s.stride, WindowCount(num), keep, res);
  }

  /** On the survivors every tier reserves what it reserved before. */
  lemma KeepStable(backups: seq<string>, config: map<string, int>, now: DateTime, keep: seq<string>)
    requires Valid(now) && Keep(backups, config, now) == Ok(keep)
    ensures Keep(Within(backups, keep), config, now) == Ok(keep)
  {
    var m := Reserved(backups, "monthly", config["monthly"], now).value;
    var w := Reserved(backups, "weekly", config["weekly"], now).value;
    var d := Reserved(backups, "daily", config["daily"], now).value;
    var h := if HourlyCount(config) != 0 then Reserved(backups, "hourly", HourlyCount(config), now).value else [];
    assert keep == m + w + d + h;
    ReservedKept(backups, "monthly", config["monthly"], now, keep, m);
    ReservedKept(backups, "weekly", config["weekly"], now, keep, w);
    ReservedKept(backups, "daily", config["daily"], now, keep, d);
    if HourlyCount(config) != 0 {
      ReservedKept(backups, "hourly", HourlyCount(config), now, keep, h);
    }
  }

  /**
   * Deleting what `decide_remove` chose and running it again on what is
   * left, at the same `now`, deletes nothing more.
   */
  lemma RemoveIdempotent(backups: seq<string>, config: map<string, int>, now: DateTime, removed: seq<string>)
    requires Valid(now) && RemoveSet(backups, config, now) == Ok(removed)
    ensures var survivors := Within(backups, Keep(backups, config, now).value);
            && (forall x :: x in survivors <==> x in backups && x !in removed)
            && RemoveSet(survivors, config, now) == Ok([])
  {
    var keep := Keep(backups, config, now).value;
    WithoutMembers(backups, keep);
    WithinMembers(backups, keep);
    KeepStable(backups, config, now, keep);
    WithoutWithin(backups, keep);
  }

  // ---------------------------------------------------------------------
  // The cases the repository's tests exercise

  /** A policy of all zeros reserves nothing and so removes every listed name, dated or not. */
  lemma AllZeroRemovesAll(backups: seq<string>, config: map<string, int>, now: DateTime)
    requires Valid(now) && 2 <= now.year <= 9998
    requires config == map["monthly" := 0, "weekly" := 0, "daily" := 0]
    ensures RemoveSet(backups, config, now) == Ok(backups)
  {
    FirstWindowDefined("monthly", now);
    FirstWindowDefined("weekly", now);
    FirstWindowDefined("daily", now);
    ReservedNothing(backups, "monthly", 0, now);
    ReservedNothing(backups, "weekly", 0, now);
    ReservedNothing(backups, "daily", 0, now);
    assert HourlyCount(config) == 0;
    var none: seq<string> := [];
    assert Keep(backups, config, now) == Ok(none + none + none + none);
    assert none + none + none + none == none;
    WithoutMembers(backups, []);
    WithoutNothing(backups);
  }

  lemma {:induction false} WithoutNothing(backups: seq<string>)
    ensures Without(backups, []) == backups
  {
    if backups != [] {
      WithoutNothing(backups[1..]);
      assert backups == [backups[0]] + backups[1..];
    }
  }

  /** A dump from an earlier year lies before the first daily window. */
  lemma EarlierYearMissesDay(t: DateTime, now: DateTime)
    requires Valid(t) && Valid(now) && t.year < now.year
    ensures BetweenInterval(DumpName(t), Window(Midnight(now), Midnight(now) + Day)) == Ok(false)
  {
    RunNames(t);
    OrdinalOrder(t, now);
  }

  /** Today's 01:00:00 dump lies inside the first daily window. */
  lemma TodayInDay(now: DateTime)
    requires Valid(now)
    ensures BetweenInterval(DumpName(now.(hour := 1, minute := 0, second := 0)), Window(Midnight(now), Midnight(now) + Day))
            == Ok(true)
  {
    RunNames(now.(hour := 1, minute := 0, second := 0));
  }

  /** With one daily window, the list reserves its first name inside today. */
  lemma DailyReservesFirstToday(a: string, b: string, c: string, now: DateTime)
    requires Valid(now) && 2 <= now.year <= 9998
    requires var day := Window(Midnight(now), Midnight(now) + Day);
             BetweenInterval(a, day) == Ok(false) && BetweenInterval(b, day) == Ok(false)
             && BetweenInterval(c, day) == Ok(true)
    ensures Reserved([a, b, c], "daily", 1, now) == Ok([c])
  {
    var day := Window(Midnight(now), Midnight(now) + Day);
    DailyAnchor(now);
    OrdinalBounds(now);
    assert [a, b, c] == [a] + [b, c] && [b, c] == [b] + [c];
    ScanSkips(a, [b, c], day);
    ScanSkips(b, [c], day);
    assert ScanWindow([a, b, c], day) == Ok(Some(c));
    assert StepBack(day, Day).Ok?;
    assert FirstWindow("daily", now) == Ok(Schedule(day, Day));
    assert ReserveFrom([a, b, c], day, Day, 0) == Ok([]);
    assert ReserveFrom([a, b, c], day, Day, 1) == Ok([c] + []);
    assert [c] + [] == [c];
  }

  /** Filtering out the last of three distinct names keeps the first two. */
  lemma WithoutLast(a: string, b: string, c: string)
    requires a != c && b != c
    ensures Without([a, b, c], [c]) == [a, b]
  {
    assert [a, b, c][1..] == [b, c];
    assert [b, c][1..] == [c];
    assert Without([c], [c]) == [];
    assert Without([b, c], [c]) == [b] + [];
    assert Without([a, b, c], [c]) == [a] + [b];
  }

  /** With the monthly and weekly counts at zero, only the daily reservation is kept. */
  lemma KeepDailyOnly(backups: seq<string>, now: DateTime, res: seq<string>)
    requires Valid(now) && 2 <= now.year <= 9998
    requires Reserved(backups, "daily", 1, now) == Ok(res)
    ensures Keep(backups, map["monthly" := 0, "weekly" := 0, "daily" := 1], now) == Ok(res)
  {
    var config := map["monthly" := 0, "weekly" := 0, "daily" := 1];
    FirstWindowDefined("monthly", now);
    FirstWindowDefined("weekly", now);
    ReservedNothing(backups, "monthly", 0, now);
    ReservedNothing(backups, "weekly", 0, now);
    assert HourlyCount(config) == 0;
    var none: seq<string> := [];
    assert Keep(backups, config, now) == Ok(none + none + res + none);
    assert none + none + res + none == res;
  }

  /**
   * With only one daily backup kept, the sorted list of two dumps from
   * earlier years and today's 01:00:00 dump loses exactly the two old ones.
   */
  lemma DailyOneKeepsToday(t1: DateTime, t2: DateTime, now: DateTime)
    requires Valid(t1) && Valid(t2) && Valid(now) && 2 <= now.year <= 9998
    requires t1.year < now.year && t2.year < now.year
    ensures var today := DumpName(now.(hour := 1, minute := 0, second := 0));
            var backups := [DumpName(t1), DumpName(t2), today];
            RemoveSet(backups, map["monthly" := 0, "weekly" := 0, "daily" := 1], now) == Ok([DumpName(t1), DumpName(t2)])
  {
    var t3 := now.(hour := 1, minute := 0, second := 0);
    var a, b, c := DumpName(t1), DumpName(t2), DumpName(t3);
    EarlierYearMissesDay(t1, now);
    EarlierYearMissesDay(t2, now);
    TodayInDay(now);
    DailyReservesFirstToday(a, b, c, now);
    KeepDailyOnly([a, b, c], now, [c]);
    assert a != c && b != c by {
      RunNames(t1);
      RunNames(t2);
      RunNames(t3);
    }
    WithoutLast(a, b, c);
  }

  /** The repository's own case: dumps of 2014-01-01 and 2014-01-02 at 01:00:00 go, today's stays. */
  lemma SurplusLocalDbRemoval(now: DateTime)
    requires Valid(now) && 2015 <= now.year <= 9998
    ensures var old1 := DumpName(DateTime(2014, 1, 1, 1, 0, 0));
            var old2 := DumpName(DateTime(2014, 1, 2, 1, 0, 0));
            var today := DumpName(now.(hour := 1, minute := 0, second := 0));
            RemoveSet([old1, old2, today], map["monthly" := 0, "weekly" := 0, "daily" := 1], now) == Ok([old1, old2])
  {
    DailyOneKeepsToday(DateTime(2014, 1, 1, 1, 0, 0), DateTime(2014, 1, 2, 1, 0, 0), now);
  }
}
