/**
 * Artifact naming: the kind prefixes, the `%Y%m%d-%H%M%S` timestamp that
 * a backup run writes into each artifact name, and `get_date`, which finds
 * the first `\d{8}-\d{6}` substring of a name and parses it back.
 */
module Naming {
  import opened Results
  import opened Civil

  /** Prefix of database dumps. */
  const DbPrefix: string := "backup_"

  /** Prefix of media archives and mirror directories. */
  const MediaPrefix: string := "dir_"

  /** Width of a `TIME_FORMAT` timestamp: 8 digits, '-', 6 digits. */
  const TimestampLength: nat := 15

  /** `is_db_backup`: the name is the dump prefix followed by anything. */
  predicate IsDbBackup(name: string): (r: bool)
    ensures r <==> exists rest :: name == DbPrefix + rest
  {
    assert DbPrefix <= name ==> name == DbPrefix + name[|DbPrefix|..];
    DbPrefix <= name
  }

  /** `is_media_backup`: the name is the media prefix followed by anything. */
  predicate IsMediaBackup(name: string): (r: bool)
    ensures r <==> exists rest :: name == MediaPrefix + rest
  {
    assert MediaPrefix <= name ==> name == MediaPrefix + name[|MediaPrefix|..];
    MediaPrefix <= name
  }

  /** `is_backup`: the name is of exactly one kind, since no name carries both prefixes. */
  predicate IsBackup(name: string): (r: bool)
    ensures r <==> IsDbBackup(name) != IsMediaBackup(name)
  {
    assert IsDbBackup(name) ==> name[0] == 'b';
    assert IsMediaBackup(name) ==> name[0] == 'd';
    IsDbBackup(name) || IsMediaBackup(name)
  }

  // ---------------------------------------------------------------------
  // Decimal digits

  predicate IsDigit(c: char) {
    '0' <= c <= '9'
  }

  predicate AllDigits(s: string) {
    forall i :: 0 <= i < |s| ==> IsDigit(s[i])
  }

  function DigitValue(c: char): nat
    requires IsDigit(c)
  {
    (c as int) - ('0' as int)
  }

  function DigitChar(v: nat): (c: char)
    requires v < 10
    ensures IsDigit(c) && DigitValue(c) == v
  {
    (('0' as int) + v) as char
  }

  function Pow10(n: nat): (p: nat)
    ensures p >= 1
  {
    if n == 0 then 1 else 10 * Pow10(n - 1)
  }

  /** Value of a digit string, most significant digit first. */
  function Number(s: string): nat
    requires AllDigits(s)
  {
    if s == [] then 0 else Number(s[..|s| - 1]) * 10 + DigitValue(s[|s| - 1])
  }

  /** `%0<width>d`: the last `width` decimal digits of `v`, zero-padded. */
  function Digits(v: nat, width: nat): (s: string)
    ensures |s| == width && AllDigits(s)
  {
    if width == 0 then [] else Digits(v / 10, width - 1) + [DigitChar(v % 10)]
  }

  lemma {:induction false} NumberOfDigits(v: nat, width: nat)
    requires v < Pow10(width)
    ensures Number(Digits(v, width)) == v
  {
    if width > 0 {
      var s := Digits(v, width);
      assert s[..|s| - 1] == Digits(v / 10, width - 1);
      NumberOfDigits(v / 10, width - 1);
    }
  }

  lemma {:induction false} DigitsOfNumber(s: string)
    requires AllDigits(s)
    ensures Digits(Number(s), |s|) == s
  {
    if s != [] {
      var init := s[..|s| - 1];
      assert AllDigits(init);
      DigitsOfNumber(init);
      assert s == init + [s[|s| - 1]];
    }
  }

  // ---------------------------------------------------------------------
  // The timestamp

  /** The regex `(\d){8}-(\d){6}` matches `s` starting at index `i`. */
  predicate MatchesAt(s: string, i: int) {
    && 0 <= i && i + TimestampLength <= |s|
    && (forall k :: i <= k < i + 8 ==> IsDigit(s[k]))
    && s[i + 8] == '-'
    && (forall k :: i + 9 <= k < i + TimestampLength ==> IsDigit(s[k]))
  }

  /** Every string the regex can match: 8 digits, '-', 6 digits. */
  predicate IsTimestampShape(s: string) {
    |s| == TimestampLength && MatchesAt(s, 0)
  }

  lemma MatchedShape(s: string, i: int)
    requires MatchesAt(s, i)
    ensures IsTimestampShape(s[i..i + TimestampLength])
  {
    var m := s[i..i + TimestampLength];
    assert forall k :: 0 <= k < TimestampLength ==> m[k] == s[i + k];
  }

  /** `regex.search`, scanning from index `from`. */
  function Search(s: string, from: nat): (r: Option<nat>)
    ensures r.Some? ==> from <= r.value && MatchesAt(s, r.value)
    decreases |s| - from
  {
    if from + TimestampLength > |s| then None
    else if MatchesAt(s, from) then Some(from)
    else Search(s, from + 1)
  }

  /**
   * `datetime.strptime(s, TIME_FORMAT)` on a string of timestamp shape.
   * Each field is a fixed-width group of digits, and the parse fails
   * exactly when the fields do not form a `datetime`.
   */
  function ParseTimestamp(s: string): (r: Result<DateTime>)
    requires IsTimestampShape(s)
    ensures r.Ok? ==> Valid(r.value)
    ensures r.Err? ==> r.error == InvalidTimestamp
  {
    var t := DateTime(Number(s[0..4]), Number(s[4..6]), Number(s[6..8]),
                      Number(s[9..11]), Number(s[11..13]), Number(s[13..15]));
    if Valid(t) then Ok(t) else Err(InvalidTimestamp)
  }

  /** `time.strftime(TIME_FORMAT)`: the timestamp a backup run puts in its names. */
  function FormatTimestamp(t: DateTime): (s: string)
    requires Valid(t)
    ensures IsTimestampShape(s)
  {
    Digits(t.year, 4) + Digits(t.month, 2) + Digits(t.day, 2) + "-"
    + Digits(t.hour, 2) + Digits(t.minute, 2) + Digits(t.second, 2)
  }

  /** `get_date`: the date-time of the first timestamp in a name. */
  function GetDate(name: string): (r: Result<DateTime>)
    ensures r.Ok? ==> Valid(r.value)
  {
    match Search(name, 0)
    case None => Err(NoTimestamp)
    case Some(i) =>
      MatchedShape(name, i);
      ParseTimestamp(name[i..i + TimestampLength])
  }

  /** The search finds the leftmost match: no match starts between `from` and the one it returns. */
  lemma {:induction false} SearchLeftmost(s: string, from: nat)
    ensures Search(s, from).Some? ==> forall i :: from <= i < Search(s, from).value ==> !MatchesAt(s, i)
    ensures Search(s, from).None? ==> forall i :: from <= i ==> !MatchesAt(s, i)
    decreases |s| - from
  {
    if from + TimestampLength <= |s| && !MatchesAt(s, from) {
      SearchLeftmost(s, from + 1);
    }
  }

  /** A match with no match before it is the one the search returns. */
  lemma {:induction false} SearchFinds(s: string, from: nat, k: nat)
    requires from <= k && MatchesAt(s, k)
    requires forall i :: from <= i < k ==> !MatchesAt(s, i)
    ensures Search(s, from) == Some(k)
    decreases k - from
  {
    if from < k {
      SearchFinds(s, from + 1, k);
    }
  }

  /**
   * `get_date` raises the regex's AttributeError exactly when no substring
   * of the name has the timestamp shape.
   */
  lemma GetDateNoTimestamp(name: string)
    ensures GetDate(name) == Err(NoTimestamp) <==> forall i :: !MatchesAt(name, i)
  {
    SearchLeftmost(name, 0);
  }

  /**
   * Otherwise `get_date` parses the leftmost match and nothing else: a
   * later, well-formed timestamp cannot rescue an earlier one `strptime`
   * rejects.
   */
  lemma GetDateLeftmost(name: string, k: nat)
    requires MatchesAt(name, k)
    requires forall i :: 0 <= i < k ==> !MatchesAt(name, i)
    ensures IsTimestampShape(name[k..k + TimestampLength])
    ensures GetDate(name) == ParseTimestamp(name[k..k + TimestampLength])
  {
    SearchFinds(name, 0, k);
    MatchedShape(name, k);
  }

  /** The name a backup run gives its database dump. */
  function DumpName(t: DateTime): string
    requires Valid(t)
  {
    DbPrefix + FormatTimestamp(t) + ".sql"
  }

  /** The name a backup run gives its media archive. */
  function MediaArchiveName(t: DateTime): string
    requires Valid(t)
  {
    MediaPrefix + FormatTimestamp(t) + ".tar.gz"
  }

  // ---------------------------------------------------------------------
  // Properties

  /** A name built with either prefix is classified as that kind and not the other. */
  lemma KindsExclusive(name: string)
    ensures IsDbBackup(DbPrefix + name) && !IsMediaBackup(DbPrefix + name)
    ensures IsMediaBackup(MediaPrefix + name) && !IsDbBackup(MediaPrefix + name)
  {
    assert (DbPrefix + name)[0] == 'b';
    assert (MediaPrefix + name)[0] == 'd';
  }

  /** Formatting then parsing gives back every valid date-time. */
  lemma {:induction false} ParseFormat(t: DateTime)
    requires Valid(t)
    ensures ParseTimestamp(FormatTimestamp(t)) == Ok(t)
  {
    var s := FormatTimestamp(t);
    assert s[0..4] == Digits(t.year, 4);
    assert s[4..6] == Digits(t.month, 2);
    assert s[6..8] == Digits(t.day, 2);
    assert s[9..11] == Digits(t.hour, 2);
    assert s[11..13] == Digits(t.minute, 2);
    assert s[13..15] == Digits(t.second, 2);
    NumberOfDigits(t.year, 4);
    NumberOfDigits(t.month, 2);
    NumberOfDigits(t.day, 2);
    NumberOfDigits(t.hour, 2);
    NumberOfDigits(t.minute, 2);
    NumberOfDigits(t.second, 2);
  }

  /** Every timestamp that parses is the formatting of what it parses to. */
  lemma {:induction false} FormatParse(s: string)
    requires IsTimestampShape(s) && ParseTimestamp(s).Ok?
    ensures FormatTimestamp(ParseTimestamp(s).value) == s
  {
    var t := ParseTimestamp(s).value;
    DigitsOfNumber(s[0..4]);
    DigitsOfNumber(s[4..6]);
    DigitsOfNumber(s[6..8]);
    DigitsOfNumber(s[9..11]);
    DigitsOfNumber(s[11..13]);
    DigitsOfNumber(s[13..15]);
    assert Digits(t.year, 4) == s[0..4];
    assert Digits(t.month, 2) == s[4..6];
    assert Digits(t.day, 2) == s[6..8];
    assert Digits(t.hour, 2) == s[9..11];
    assert Digits(t.minute, 2) == s[11..13];
    assert Digits(t.second, 2) == s[13..15];
    assert "-" == s[8..9];
    assert s == s[0..4] + s[4..6] + s[6..8] + s[8..9] + s[9..11] + s[11..13] + s[13..15];
  }

  /** `strptime` accepts exactly the strings `strftime` produces from valid date-times. */
  lemma ParseAcceptsExactlyFormatted(s: string)
    requires IsTimestampShape(s)
    ensures ParseTimestamp(s).Ok? <==> exists t :: Valid(t) && FormatTimestamp(t) == s
  {
    if ParseTimestamp(s).Ok? {
      FormatParse(s);
    }
    if exists t :: Valid(t) && FormatTimestamp(t) == s {
      var t :| Valid(t) && FormatTimestamp(t) == s;
      ParseFormat(t);
    }
  }

  /**
   * After a prefix holding no digit, the first regex match is the timestamp
   * placed there, whatever follows it, so `get_date` parses exactly that
   * timestamp.
   */
  lemma GetDateAfterPlainPrefix(prefix: string, stamp: string, suffix: string)
    requires forall i :: 0 <= i < |prefix| ==> !IsDigit(prefix[i])
    requires IsTimestampShape(stamp)
    ensures GetDate(prefix + stamp + suffix) == ParseTimestamp(stamp)
  {
    var name := prefix + stamp + suffix;
    assert name[|prefix|..|prefix| + TimestampLength] == stamp;
    assert MatchesAt(name, |prefix|) by {
      forall k | 0 <= k < TimestampLength
        ensures name[|prefix| + k] == stamp[k]
      {
      }
    }
    forall i | 0 <= i < |prefix|
      ensures !MatchesAt(name, i)
    {
      assert name[i] == prefix[i];
    }
    GetDateLeftmost(name, |prefix|);
  }

  /**
   * `get_date` recovers the creation time from any name built as
   * prefix + timestamp + suffix, when the prefix holds no digit.
   */
  lemma NameRoundTrip(prefix: string, t: DateTime, suffix: string)
    requires Valid(t)
    requires forall i :: 0 <= i < |prefix| ==> !IsDigit(prefix[i])
    ensures GetDate(prefix + FormatTimestamp(t) + suffix) == Ok(t)
  {
    GetDateAfterPlainPrefix(prefix, FormatTimestamp(t), suffix);
    ParseFormat(t);
  }

  /** A name without any digit has no timestamp: `get_date` raises instead of skipping it. */
  lemma UndatedName(name: string)
    requires forall i :: 0 <= i < |name| ==> !IsDigit(name[i])
    ensures GetDate(name) == Err(NoTimestamp)
  {
    forall i | 0 <= i < |name|
      ensures !MatchesAt(name, i)
    {
      assert !IsDigit(name[i]);
    }
    GetDateNoTimestamp(name);
  }

  /** The names a backup run writes are classified by kind and dated by their creation time. */
  lemma RunNames(t: DateTime)
    requires Valid(t)
    ensures IsDbBackup(DumpName(t)) && !IsMediaBackup(DumpName(t)) && GetDate(DumpName(t)) == Ok(t)
    ensures IsMediaBackup(MediaArchiveName(t)) && !IsDbBackup(MediaArchiveName(t))
    ensures GetDate(MediaArchiveName(t)) == Ok(t)
  {
    KindsExclusive(FormatTimestamp(t) + ".sql");
    KindsExclusive(FormatTimestamp(t) + ".tar.gz");
    assert DumpName(t) == DbPrefix + (FormatTimestamp(t) + ".sql");
    assert MediaArchiveName(t) == MediaPrefix + (FormatTimestamp(t) + ".tar.gz");
    NameRoundTrip(DbPrefix, t, ".sql");
    NameRoundTrip(MediaPrefix, t, ".tar.gz");
  }
}
