# django-backup retention engine in Dafny

This project models the retention engine and the artifact-naming helpers of
`django_backup/utils.py`. The model covers:

- The kind prefixes `backup_` (database dumps) and `dir_` (media archives).
- The `%Y%m%d-%H%M%S` timestamp that a backup run writes into every artifact
  name.
- `get_date`, which takes the first `\d{8}-\d{6}` substring of a name and
  parses it with `strptime`.
- `between_interval`, the `(start, end]` window test.
- `reserve_interval`, which anchors a first window for the monthly, weekly,
  daily or hourly tier. It then walks `num` windows backwards. In each
  window it reserves the first listed backup inside it.
- `decide_remove`, which unions the tier reservations and returns the listed
  names that no tier reserved, in list order.

Python's `datetime` is modelled as integer seconds: `date.toordinal() * 86400`
plus the time of day. So `timedelta` arithmetic is integer addition.
`Civil.SecondsOrder` proves that comparing seconds is Python's comparison of
date-times. `datetime`'s range (years 1 to 9999) is kept: arithmetic that
leaves it is the `OverflowError` Python raises. Every exception the helpers
raise is a constructor of `Results.Error`, returned in a `Result`.

Modules:

- `Results`: Option and Result, and one error per Python exception.
- `Civil`: the proleptic Gregorian calendar, Python's day ordinal, weekday
  and seconds.
- `Naming`: the prefixes, the regex search, `strptime`/`strftime` on
  `TIME_FORMAT`, and `get_date`.
- `Retention`: windows, `between_interval`, the specification functions
  `ScanWindow`, `ReserveFrom`, `Reserved`, `Keep` and `RemoveSet`, and the
  methods `ReserveInterval` (with its outer loop `ReserveWindows`) and `DecideRemove`. The methods keep the
  source's loops and are proved equal to those functions.
- `Walks`: the outer loop of `reserve_interval` with the inner scan as a
  parameter, and what it guarantees for any scan whose hits are keyed
  inside their windows (order, one name per window, exactly the hits).
- `RetentionFacts`: what one window's scan guarantees, the proof that the
  outer loop is such a walk with `ScanWindow` as its scan, and what
  `reserve_interval` therefore returns.
- `Anchors`: where each tier's first window lies relative to `now`.
- `DecisionFacts`: the partition, the mandatory tiers, idempotence, and the
  two retention cases that the repository's tests exercise.

`get_date` does not skip a name without a timestamp. `regex.search`
returns `None` and `.group()` on it raises `AttributeError`
(`django_backup/utils.py:36-37`), so the first such name a window's scan
reaches aborts `reserve_interval`. The model returns `Err(NoTimestamp)` at
exactly that point (`RetentionFacts.ReservedUndatedFirst`,
`Naming.UndatedName`). A name the scan never reaches, because an earlier
name already filled the window, does no harm.

## Model

| member | source | states |
|---|---|---|
| Naming.IsDbBackup | django_backup/utils.py:20-21 | `is_db_backup` holds iff the name is `backup_` followed by anything. |
| Naming.IsMediaBackup | django_backup/utils.py:24-25 | `is_media_backup` holds iff the name is `dir_` followed by anything. |
| Naming.IsBackup | django_backup/utils.py:28-29 | `is_backup` holds iff exactly one of the two prefix tests holds: no name is both a dump and a media archive. |
| Naming.KindsExclusive | django_backup/utils.py:20-25 | A name built with either prefix is classified as that kind and not the other. |
| Naming.Search | django_backup/utils.py:17 | `regex.search` returns a position at or after the start where the `(\d){8}-(\d){6}` pattern matches. |
| Naming.SearchLeftmost | django_backup/utils.py:36 | The search returns the leftmost match. When it finds none, no position matches. |
| Naming.SearchFinds | django_backup/utils.py:36 | A match with no earlier match is the one the search returns. |
| Naming.ParseTimestamp | django_backup/utils.py:38 | `strptime` with `TIME_FORMAT` yields a valid date-time or fails with `ValueError` (month 1-12, a day that exists in that month, hour < 24, minute and second < 60). |
| Naming.FormatTimestamp | django_backup/utils.py:15 | `strftime(TIME_FORMAT)` produces a string of the regex's shape: 8 digits, '-', 6 digits. |
| Naming.ParseFormat | django_backup/utils.py:15 | Parsing a formatted date-time gives back that date-time. |
| Naming.FormatParse | django_backup/utils.py:15 | Formatting what a timestamp parses to gives back the timestamp. |
| Naming.ParseAcceptsExactlyFormatted | django_backup/utils.py:38 | `strptime` accepts a timestamp-shaped string iff some valid date-time formats to it. |
| Naming.GetDate | django_backup/utils.py:32-39 | A date `get_date` returns is always a valid date-time. |
| Naming.GetDateNoTimestamp | django_backup/utils.py:36-37 | `get_date` fails with the `.group()`-on-None error iff no substring of the name matches the regex. |
| Naming.GetDateLeftmost | django_backup/utils.py:36-38 | `get_date` parses the leftmost match and nothing else. A later well-formed timestamp cannot rescue an earlier one that `strptime` rejects. |
| Naming.GetDateAfterPlainPrefix | django_backup/utils.py:32-39 | After a digit-free prefix, `get_date` parses exactly the timestamp placed there, whatever the suffix. |
| Naming.NameRoundTrip | django_backup/utils.py:32-39 | `get_date(prefix + strftime(t) + suffix) == t` for every valid `t` and every digit-free prefix. |
| Naming.UndatedName | django_backup/utils.py:36-37 | A name with no digit makes `get_date` raise; it is not skipped. |
| Naming.RunNames | django_backup/management/commands/backup.py:202-242 | The dump name `backup_<ts>.sql` (line 202) and the media name `dir_<ts>.tar.gz` (line 242) of a run are classified as their kind and dated by the run's time. |
| Civil.SecondsOrder | django_backup/utils.py:47 | Comparing date-times as seconds is Python's comparison of `datetime` values, and distinct date-times have distinct seconds. |
| Civil.SecondsRange | django_backup/utils.py:46 | Every date `get_date` can return lies within `datetime.min` and `datetime.max`. |
| Civil.Ordinal | django_backup/utils.py:86-88 | The day count behind `datetime` arithmetic and `calendar.weekday` (`date.toordinal`): positive, with the days of January of year 1 numbered from 1. `Civil.OrdinalNextDay` shows each next calendar date has the next ordinal, which fixes the rest of the numbering. |
| Civil.Weekday | django_backup/utils.py:86 | `calendar.weekday` lies in 0..6, and 0001-01-01 is a Monday (0); `OrdinalNextDay` advances it by one a day. |
| Civil.OrdinalNextDay | django_backup/utils.py:93 | Adding `timedelta(1)` to a date is the next calendar date, and the next weekday. |
| Retention.Shift | django_backup/utils.py:82 | `datetime ± timedelta` succeeds iff the result stays within years 1..9999, and is then the exact sum. Otherwise it raises `OverflowError`. |
| Retention.FirstWindow | django_backup/utils.py:79-102 | A known tier's first window has positive width equal to its stride and lies within range at both edges. Any other tier raises `CommandError`. |
| Retention.Midnight | django_backup/utils.py:88-97 | `datetime(now.year, now.month, now.day)` is a whole number of days, the last midnight at or before `now`, less than a day before it. |
| Retention.StepBack | django_backup/utils.py:109-110 | The step succeeds exactly when both edges, moved back by one stride, stay within years 1..9999; it then moves both back by one stride, and otherwise raises `OverflowError`. |
| Retention.NthWindow | django_backup/utils.py:109-110 | After `k` steps back, each edge has moved back by `k` strides. `Walks.NthWindowBefore` shows that the windows are adjacent and disjoint. |
| Retention.BetweenInterval | django_backup/utils.py:42-50 | `between_interval` raises exactly when `get_date` does, with the same error. `RetentionFacts.BetweenIntervalCompares` shows the test is Python's `start < d <= end`. |
| Retention.ScanWindow | django_backup/utils.py:105-108 | A hit of the inner loop is one of the listed names. `RetentionFacts.ScanWindowMiss`, `ScanWindowStop` and `ScanWindowIndex` show which name: the first one inside the window. |
| Retention.ReserveFrom | django_backup/utils.py:104-110 | Walking `n` windows reserves at most `n` names. |
| Retention.Reserved | django_backup/utils.py:70-111 | `reserve_interval` returns at most `max(num, 0)` names. |
| Retention.ReserveFromStep | django_backup/utils.py:104-110 | One outer-loop iteration puts the window's hit, if any, in front of what the remaining windows reserve. |
| Retention.FirstInWindow | django_backup/utils.py:105-108 | The inner loop with its `break` returns exactly the scan's outcome: the first listed name inside the window, none, or the error of the first undated name reached. |
| Retention.Abort | django_backup/utils.py:104-110 | A window whose scan or step back raises ends the reservation with that error. |
| Retention.Advance | django_backup/utils.py:104-110 | After a window's hit is appended and the window stepped back, the finished prefix plus the rest still make up the reservation. |
| Retention.ReserveWindows | django_backup/utils.py:104-110 | The outer loop that appends each window's hit to `result` and steps the window back computes `ReserveFrom` over `num` windows. |
| Retention.ReserveInterval | django_backup/utils.py:70-111 | Computing the first window and then running the outer loop from it computes `Reserved`. |
| Retention.Setting | django_backup/utils.py:59-61 | `config[key]` succeeds iff the key is present, with its value. Otherwise it raises `KeyError`. |
| Retention.HourlyCount | django_backup/utils.py:62-63 | `config.get('hourly', 0)` is the setting where `config['hourly']` would succeed and 0 where it would raise. `DecisionFacts.HourlyOptional` shows a count of 0 behaves like no hourly tier. |
| Retention.Keep | django_backup/utils.py:57-63 | The `reserve` list exists only when all three mandatory keys are present. It holds at most the sum of the four tiers' counts (negative counts give 0). `DecisionFacts.KeepMembers` states its members. |
| Retention.RemoveSet | django_backup/utils.py:53-67 | `decide_remove` raises exactly when building `reserve` raises, with the same error. Otherwise it returns no more names than it was given. `DecisionFacts.RemoveSetPartition` states which names. |
| Retention.Without | django_backup/utils.py:64-66 | The removal list is no longer than the list. |
| Retention.Within | django_backup/utils.py:64-66 | The kept part is no longer than the list. |
| Retention.WithoutConcat | django_backup/utils.py:64-66 | Filtering distributes over concatenation, which is what the appending loop relies on. |
| Retention.DecideRemove | django_backup/utils.py:53-67 | The method with `+=` on `reserve` and the appending loop computes `RemoveSet`. |
| RetentionFacts.InWindowStamp | django_backup/utils.py:42-50 | A name is inside a window iff it is dated and `start < d <= end`. |
| RetentionFacts.BetweenIntervalCompares | django_backup/utils.py:46-50 | On date-time edges, `between_interval` is Python's `start < d <= end`: it excludes the start and includes the end. It fails iff the name is undated. |
| RetentionFacts.ScanWindowMiss | django_backup/utils.py:105-108 | A window reserves nothing iff every listed name is dated and outside it. |
| RetentionFacts.ScanWindowStop | django_backup/utils.py:105-108 | The scan stops at the first name that is not a dated miss. It reserves that name if it is inside, and raises its error if it is undated. |
| RetentionFacts.ScanWindowHit | django_backup/utils.py:106-107 | A reserved name is from the list and inside the window. |
| RetentionFacts.ScanWindowFinds | django_backup/utils.py:105-108 | A window holding a listed backup never comes back empty. |
| RetentionFacts.ScanWindowIndex | django_backup/utils.py:105-108 | The hit is the first listed name inside the window: every earlier name is a dated miss. |
| RetentionFacts.ScanEarliest | django_backup/management/commands/backup.py:405 | On a chronologically sorted list, the reserved name is the earliest backup in its window. |
| Walks.NthWindowShift | django_backup/utils.py:109-110 | Stepping back then walking `k` windows is walking `k + 1` windows. |
| Walks.NthWindowBefore | django_backup/utils.py:109-110 | Later windows lie entirely before the first, with the same width: the windows are adjacent and disjoint. |
| Walks.WalkUnfold | django_backup/utils.py:104-110 | A walk's result is the first window's hit followed by what the windows one stride back reserve. |
| Walks.WalkScans | django_backup/utils.py:104-110 | For any scan, each of the `n` windows is scanned without error and its hit is reserved. |
| Walks.WalkSource | django_backup/utils.py:104-110 | Each reserved name is the hit of one of the `n` windows. |
| Walks.WalkHits | django_backup/utils.py:104-110 | The reserved names are exactly the windows' hits. |
| Walks.KeyedCons | django_backup/utils.py:107 | Putting a hit keyed after every later one in front keeps the keys bounded and strictly decreasing. |
| Walks.WalkOrder | django_backup/utils.py:104-110 | If every hit is keyed inside its window, the reserved keys are no later than the first window's end and strictly decrease. |
| Walks.LaterOutsideFirst | django_backup/utils.py:108 | Only the first window's hit can be inside the first window. |
| Walks.HitOutsideLater | django_backup/utils.py:108-110 | The first window's hit lies after every later window. |
| Walks.WalkOnePerWindow | django_backup/utils.py:108 | If every hit is keyed inside its window, no window holds the keys of two reserved names. |
| RetentionFacts.ReserveFromWalk | django_backup/utils.py:104-110 | `ReserveFrom` is the walk whose scan is `ScanWindow` over the list. |
| RetentionFacts.ScannerInside | django_backup/utils.py:105-108 | Every hit of `ScanWindow` is dated, and its timestamp lies inside the scanned window. |
| RetentionFacts.ReserveFromSource | django_backup/utils.py:104-110 | Each reserved name is a listed backup inside one of the `n` windows. |
| RetentionFacts.ReserveFromEmpty | django_backup/utils.py:104-110 | An empty list reserves nothing. |
| RetentionFacts.ScanWindowDefined | django_backup/utils.py:105-108 | With every listed name dated, the scan of a window never raises. |
| RetentionFacts.ReserveFromDefined | django_backup/utils.py:104-110 | With every listed name dated and the first window in range, the walk over `n` windows succeeds exactly when the start `n` strides back is within range. |
| RetentionFacts.ReserveFromUndated | django_backup/utils.py:106 | An undated first name aborts the walk with its error. |
| RetentionFacts.ReservedFacts | django_backup/utils.py:70-111 | `reserve_interval` returns at most `num` dated listed backups, newest first and without duplicates. |
| RetentionFacts.ReservedHits | django_backup/utils.py:104-111 | `reserve_interval` reserves exactly the first listed backup of each of its `num` windows. |
| RetentionFacts.ReservedPerWindow | django_backup/utils.py:104-111 | There is one survivor per window: no window holds two reserved names, and each window holding a backup keeps one. |
| RetentionFacts.ReservedDefined | django_backup/utils.py:104-110 | With every listed name dated and a first window, `reserve_interval` succeeds exactly when the first window's start moved back `num` strides is within range: the loop steps back once more after its last window, so that step can raise too. |
| RetentionFacts.ReservedNothing | django_backup/utils.py:104 | With `num <= 0` nothing is reserved. Only computing the first window can fail. |
| RetentionFacts.ReservedFromEmpty | django_backup/utils.py:104-111 | An empty list reserves nothing. |
| RetentionFacts.UnknownTierRejected | django_backup/utils.py:101-102 | Any other tier raises `CommandError`, whatever the list and count. |
| RetentionFacts.ReservedUndatedFirst | django_backup/utils.py:36-37 | An undated name at the head of the list aborts `reserve_interval` with that name's error. |
| Anchors.DailyAnchor | django_backup/utils.py:91-94 | Daily's first window is (midnight today, midnight tomorrow] with a one-day stride. It exists iff today is not 9999-12-31. |
| Anchors.DailyHoldsToday | django_backup/utils.py:91-94 | A backup of today's date is in the first daily window iff it is not taken exactly at midnight. |
| Anchors.HourlyAnchor | django_backup/utils.py:96-99 | Hourly's first window is (start of this hour, start of the next] and holds `now` unless `now` is exactly on the hour. It exists unless this is the last hour of 9999-12-31. |
| Anchors.WeeklyAnchor | django_backup/utils.py:84-89 | Weekly's first window ends at midnight of a Monday, namely this week's, and is seven days wide. |
| Anchors.MonthlyAnchor | django_backup/utils.py:79-82 | Monthly's first window ends at midnight on the first of this month and reaches back a fixed 30 days. |
| Anchors.FirstWindowDefined | django_backup/utils.py:79-99 | Away from years 1 and 9999, every known tier has a first window. |
| Anchors.MonthlyOverflow | django_backup/utils.py:82 | In January of year 1 the monthly anchor raises `OverflowError`. |
| DecisionFacts.WithoutMembers | django_backup/utils.py:64-66 | A name is in the removal list iff it is listed and not reserved. |
| DecisionFacts.WithinMembers | django_backup/utils.py:64-66 | A name survives iff it is listed and reserved. |
| DecisionFacts.Partition | django_backup/utils.py:64-66 | The removed and surviving names together are the list, with each name counted as often as it is listed. |
| DecisionFacts.WithoutWithin | django_backup/utils.py:64-66 | The survivors contain nothing the same reservation would remove. |
| DecisionFacts.KeepMembers | django_backup/utils.py:57-63 | The `reserve` list exists exactly when the monthly, weekly and daily reservations do, and the hourly one too when its count is not zero. The first of them to raise, in that order, is the error. It holds exactly the names some tier reserves, the hourly tier only when its count is not zero. |
| DecisionFacts.KeepFromList | django_backup/utils.py:59-63 | Every reserved name, of every tier, comes from the list. |
| DecisionFacts.RemovesNoReserved | django_backup/utils.py:57-66 | When `decide_remove` succeeds, every tier's reservation exists, and it removes exactly the listed names outside all of them: no reserved name is ever removed. |
| DecisionFacts.RemoveSetPartition | django_backup/utils.py:53-67 | `decide_remove` returns exactly the listed names outside the `reserve` list. Together with the reserved names they make up the list. |
| DecisionFacts.MandatoryTiers | django_backup/utils.py:59-61 | A result requires the monthly, weekly and daily keys. A missing monthly key raises `KeyError('monthly')`. |
| DecisionFacts.HourlyOptional | django_backup/utils.py:62-63 | A zero hourly count is the same as none. |
| DecisionFacts.ScanKept | django_backup/utils.py:105-108 | Filtering the list down to names kept by a set that holds the scan's hit leaves the scan's outcome unchanged. |
| DecisionFacts.ReserveKept | django_backup/utils.py:104-110 | Keeping every reserved name keeps the whole reservation. |
| DecisionFacts.ReservedKept | django_backup/utils.py:70-111 | `reserve_interval` on the survivors reserves what it reserved before. |
| DecisionFacts.KeepStable | django_backup/utils.py:57-63 | On the survivors, the union of the tier reservations is unchanged. |
| DecisionFacts.RemoveIdempotent | django_backup/utils.py:53-67 | The survivors are the listed names not removed. Running `decide_remove` on them at the same `now` removes nothing. |
| DecisionFacts.AllZeroRemovesAll | tests/test_backup_cmd.py:108-123 | With monthly, weekly and daily all 0, every listed name is removed, dated or not. |
| DecisionFacts.EarlierYearMissesDay | tests/test_backup_cmd.py:87-88 | A dump from an earlier year lies outside the first daily window. |
| DecisionFacts.TodayInDay | tests/test_backup_cmd.py:85-86 | Today's 01:00:00 dump lies inside the first daily window. |
| DecisionFacts.DailyReservesFirstToday | tests/test_backup_cmd.py:76-97 | With `daily: 1`, two earlier names outside today and a third inside reserve exactly the third. |
| DecisionFacts.KeepDailyOnly | tests/test_backup_cmd.py:80-84 | With monthly and weekly at 0, only the daily reservation is kept. |
| DecisionFacts.DailyOneKeepsToday | tests/test_backup_cmd.py:76-97 | Two dumps from earlier years are removed and today's 01:00:00 dump stays. |
| DecisionFacts.SurplusLocalDbRemoval | tests/test_backup_cmd.py:76-97 | This is the test's own case: the 2014-01-01 and 2014-01-02 dumps are removed and today's is kept. |

## Left out

- The backup and restore commands (`django_backup/management/commands/backup.py`, `restore.py`) and `BaseBackupCommand`. Their work is shell commands, SFTP transfers, e-mail and Django settings.
- The wall clock. `datetime.now()` becomes the parameter `now`. `decide_remove` uses one `now` for all tiers, whereas the source reads the clock once per tier call.
- Unicode digits. Python's `\d` also matches non-ASCII decimal digits; the model's regex matches `0`-`9` only.
- `strftime` for years below 1000. The model's `FormatTimestamp` pads such years to four digits, and the format/parse round trip relies on that. `time.strftime` on common platforms does not pad them, so a real name from such a year would carry no 8-digit timestamp.
- Microseconds. `strptime` on `TIME_FORMAT` never produces them, and `now`'s are dropped by the anchors, so seconds suffice.
- Name order versus time order. The callers sort names before calling `decide_remove` (`backup.py:405`). `RetentionFacts.ScanEarliest` assumes the list is chronologically sorted. It is not proved that sorting same-prefix names by string is chronological.
- The test's two clock readings. `tests/test_backup_cmd.py:85-86` names today's file from one reading of the clock, and `reserve_interval` reads it again (`django_backup/utils.py:77`). `DecisionFacts.DailyOneKeepsToday` and `DecisionFacts.SurplusLocalDbRemoval` use one `now` for both, so a run that straddles midnight, where the test fails, is not modelled.
- `num` of a type other than `int`, and `config` values other than integers. The model takes `num: int` and `map<string, int>`.
- Retention.ReserveFrom and Retention.Reserved: their own contracts state only the length bound. What they reserve is stated by the `RetentionFacts` lemmas named above.
- Retention.Without and Retention.Within: their own contracts state only the length bound. Membership, order and partition are stated by `DecisionFacts.WithoutMembers`, `DecisionFacts.WithinMembers`, `Retention.WithoutConcat` and `DecisionFacts.Partition`.
