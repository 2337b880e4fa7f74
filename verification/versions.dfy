/** The version library the core relies on, and the timestamp that stamps
    development builds. PEP 440 parsing, pkg_resources' `safe_version` and the
    ordering of parsed versions belong to external packages: they are function
    values handed in as a `VersionLib`, and the few laws the stamping argument
    needs are stated in `Lawful`. */
module Versions {
  import opened Errors
  import opened Text

  /** What a parsed version exposes: its public part, its local segment (the
      text after `+`, normalised) and whether the dev group is present. */
  datatype Version = Version(public: string, local: Option<string>, dev: bool)

  /** `parse` answers None for a string outside the version grammar (the
      regular expression does not match, `parse_version` raises InvalidVersion);
      `safe` is `safe_version`; `le` orders parsed versions. */
  datatype VersionLib = VersionLib(
    parse: string -> Option<Version>,
    safe: string -> string,
    le: (Version, Version) -> bool)

  /** `is_dev`: the version matches the grammar and has a dev group. */
  predicate IsDev(lib: VersionLib, version: string)
  {
    lib.parse(version).Some? && lib.parse(version).value.dev
  }

  /** `_stamp_regex.match(local)`: the local segment starts with 14 digits
      (the optional `_suffix` group cannot make a match fail). */
  predicate StampPattern(local: string)
  {
    |local| >= 14 && forall i :: 0 <= i < 14 ==> IsDigit(local[i])
  }

  /** `has_stamp`: false without a local segment, otherwise whether that
      segment starts like a timestamp. */
  function HasStamp(lib: VersionLib, version: string): (r: Result<bool>)
    ensures r.Err? <==> lib.parse(version).None?
    ensures r.Ok? && lib.parse(version).value.local.None? ==> r == Ok(false)
    ensures r.Ok? ==> var v := lib.parse(version).value;
      (r.value <==> v.local.Some? && StampPattern(v.local.value))
  {
    match lib.parse(version)
    case None => Err(ValueError(InvalidVersion))
    case Some(v) => Ok(v.local.Some? && StampPattern(v.local.value))
  }

  predicate IsTimestamp(ts: string)
  {
    |ts| == 14 && forall i :: 0 <= i < 14 ==> IsDigit(ts[i])
  }

  /** The version text `local_stamp` builds: the public part, `+`, the
      timestamp, then `_` and the old local segment when there was one. */
  function StampText(v: Version, ts: string): string
  {
    v.public + "+" + ts + (if v.local.Some? then "_" + v.local.value else "")
  }

  /** `local_stamp`, with the clock reading passed in. */
  function LocalStamp(lib: VersionLib, version: string, now: Instant): (r: Result<string>)
    ensures r.Err? <==> lib.parse(version).None?
    ensures r.Ok? ==> var v := lib.parse(version).value;
      && v.public + "+" + Timestamp(now) <= r.value
      && (v.local.None? ==> r.value == v.public + "+" + Timestamp(now))
      && (v.local.Some? ==> EndsWith(r.value, "_" + v.local.value))
    ensures r.Ok? ==> r.value == StampText(lib.parse(version).value, Timestamp(now))
  {
    match lib.parse(version)
    case None => Err(ValueError(InvalidVersion))
    case Some(v) =>
      var r := StampText(v, Timestamp(now));
      assert v.local.Some? ==> r[|r| - |"_" + v.local.value|..] == "_" + v.local.value;
      Ok(r)
  }

  predicate DashFree(v: Version)
  {
    '-' !in v.public && (v.local.Some? ==> '-' !in v.local.value)
  }

  /** What stamping needs from the version library, each true of PEP 440
      versions as `packaging` parses them: `safe_version` of a valid version
      parses to the same version; the normalised public part and local
      segment hold no `-`; and a version stamped at a real clock reading
      parses again, keeps the dev flag and has a local segment starting with
      the timestamp. The timestamp of an `Instant` starts with a year of
      1000 or later, so it has no leading zero that normalising a numeric
      local part could drop. */
  ghost predicate Lawful(lib: VersionLib)
  {
    && (forall s :: lib.parse(s).Some? ==> lib.parse(lib.safe(s)) == lib.parse(s))
    && (forall s :: lib.parse(s).Some? ==> DashFree(lib.parse(s).value))
    && (forall s, t: Instant :: lib.parse(s).Some? ==> Restamped(lib, lib.parse(s).value, Timestamp(t)))
  }

  ghost predicate Restamped(lib: VersionLib, v: Version, ts: string)
  {
    var w := lib.parse(StampText(v, ts));
    && w.Some?
    && w.value.dev == v.dev
    && w.value.local.Some?
    && StampPattern(w.value.local.value)
  }

  /** `le` is a total preorder, as the ordering of parsed versions is. */
  ghost predicate TotalPreorder(le: (Version, Version) -> bool)
  {
    && (forall a, b :: le(a, b) || le(b, a))
    && (forall a, b, c :: le(a, b) && le(b, c) ==> le(a, c))
  }

  // ---------------------------------------------------------------------
  // The clock reading: `datetime.utcnow().strftime("%Y%m%d%H%M%S")`.

  datatype UtcTime = UtcTime(year: nat, month: nat, day: nat, hour: nat, minute: nat, second: nat)

  /** A datetime with a four-digit year. */
  type Instant = t: UtcTime |
    && 1000 <= t.year <= 9999 && 1 <= t.month <= 12 && 1 <= t.day <= 31
    && t.hour < 24 && t.minute < 60 && t.second < 60
    witness UtcTime(1970, 1, 1, 0, 0, 0)

  /** Strictly earlier in time. */
  predicate Earlier(a: UtcTime, b: UtcTime)
  {
    || a.year < b.year
    || (a.year == b.year && a.month < b.month)
    || (a.year == b.year && a.month == b.month && a.day < b.day)
    || (a.year == b.year && a.month == b.month && a.day == b.day && a.hour < b.hour)
    || (a.year == b.year && a.month == b.month && a.day == b.day && a.hour == b.hour && a.minute < b.minute)
    || (a.year == b.year && a.month == b.month && a.day == b.day && a.hour == b.hour && a.minute == b.minute
        && a.second < b.second)
  }

  function Pow10(width: nat): nat
  {
    if width == 0 then 1 else 10 * Pow10(width - 1)
  }

  function DigitChar(d: nat): (c: char)
    requires d < 10
    ensures IsDigit(c) && DigitValue(c) == d
  {
    ('0' as int + d) as char
  }

  function DigitValue(c: char): int
  {
    c as int - '0' as int
  }

  /** The number a string of decimal digits denotes. */
  function DecimalValue(s: string): int
  {
    if s == [] then 0 else 10 * DecimalValue(s[..|s| - 1]) + DigitValue(s[|s| - 1])
  }

  /** `n` in decimal, zero-padded to `width` digits: reading the digits back
      gives `n`. */
  function Digits(n: nat, width: nat): (s: string)
    requires n < Pow10(width)
    ensures |s| == width
    ensures forall i :: 0 <= i < width ==> IsDigit(s[i])
    ensures DecimalValue(s) == n
  {
    if width == 0 then ""
    else
      var s := Digits(n / 10, width - 1) + [DigitChar(n % 10)];
      assert s[..|s| - 1] == Digits(n / 10, width - 1);
      s
  }

  /** The 14-digit UTC timestamp. */
  function Timestamp(t: Instant): (ts: string)
    ensures IsTimestamp(ts)
  {
    Digits(t.year, 4) + (Digits(t.month, 2) + (Digits(t.day, 2) + (Digits(t.hour, 2)
      + (Digits(t.minute, 2) + Digits(t.second, 2)))))
  }

  /** A number with exactly `width` digits does not start with `0`. */
  lemma {:induction false} DigitsLead(n: nat, width: nat)
    requires 1 <= width && Pow10(width - 1) <= n < Pow10(width)
    ensures Digits(n, width)[0] != '0'
  {
    if width > 1 {
      DigitsLead(n / 10, width - 1);
    }
  }

  /** The timestamp of a clock reading never starts with `0`, so a version
      parser that reads a numeric local part as a number keeps all of it. */
  lemma TimestampLead(t: Instant)
    ensures Timestamp(t)[0] != '0'
  {
    assert Pow10(3) == 1000 && Pow10(4) == 10000 by {
      assert Pow10(1) == 10 && Pow10(2) == 100;
    }
    DigitsLead(t.year, 4);
  }

  /** Python's `<` on strings (code point order, a proper prefix is smaller). */
  predicate Less(a: string, b: string)
  {
    if a == [] then b != []
    else b != [] && (a[0] < b[0] || (a[0] == b[0] && Less(a[1..], b[1..])))
  }

  lemma {:induction false} LessExtend(a: string, b: string, c: string, d: string)
    requires |a| == |b| && Less(a, b)
    ensures Less(a + c, b + d)
  {
    assert (a + c)[0] == a[0] && (b + d)[0] == b[0];
    if a[0] == b[0] && Less(a[1..], b[1..]) {
      LessExtend(a[1..], b[1..], c, d);
      assert (a + c)[1..] == a[1..] + c;
      assert (b + d)[1..] == b[1..] + d;
    }
  }

  lemma {:induction false} LessPrefix(p: string, a: string, b: string)
    requires Less(a, b)
    ensures Less(p + a, p + b)
  {
    if p != [] {
      LessPrefix(p[1..], a, b);
      assert (p + a)[0] == p[0] && (p + b)[0] == p[0];
      assert (p + a)[1..] == p[1..] + a;
      assert (p + b)[1..] == p[1..] + b;
    } else {
      assert p + a == a && p + b == b;
    }
  }

  lemma {:induction false} DigitsLess(n: nat, m: nat, width: nat)
    requires n < m < Pow10(width)
    ensures Less(Digits(n, width), Digits(m, width))
  {
    var w := width - 1;
    if n / 10 < m / 10 {
      DigitsLess(n / 10, m / 10, w);
      LessExtend(Digits(n / 10, w), Digits(m / 10, w), [DigitChar(n % 10)], [DigitChar(m % 10)]);
    } else {
      assert n % 10 < m % 10;
      assert Less([DigitChar(n % 10)], [DigitChar(m % 10)]);
      LessPrefix(Digits(n / 10, w), [DigitChar(n % 10)], [DigitChar(m % 10)]);
    }
  }

  /** Field by field, a later clock reading gives a larger timestamp string:
      the lexical order of stamps follows the order of the builds. */
  lemma TimestampOrder(a: Instant, b: Instant)
    requires Earlier(a, b)
    ensures Less(Timestamp(a), Timestamp(b))
  {
    var sa := Digits(a.second, 2);
    var sb := Digits(b.second, 2);
    var ma := Digits(a.minute, 2) + sa;
    var mb := Digits(b.minute, 2) + sb;
    var ha := Digits(a.hour, 2) + ma;
    var hb := Digits(b.hour, 2) + mb;
    var da := Digits(a.day, 2) + ha;
    var db := Digits(b.day, 2) + hb;
    var oa := Digits(a.month, 2) + da;
    var ob := Digits(b.month, 2) + db;
    if a.year < b.year {
      DigitsLess(a.year, b.year, 4);
      LessExtend(Digits(a.year, 4), Digits(b.year, 4), oa, ob);
    } else {
      if a.month < b.month {
        DigitsLess(a.month, b.month, 2);
        LessExtend(Digits(a.month, 2), Digits(b.month, 2), da, db);
      } else if a.day < b.day {
        DigitsLess(a.day, b.day, 2);
        LessExtend(Digits(a.day, 2), Digits(b.day, 2), ha, hb);
        LessPrefix(Digits(a.month, 2), da, db);
      } else if a.hour < b.hour {
        DigitsLess(a.hour, b.hour, 2);
        LessExtend(Digits(a.hour, 2), Digits(b.hour, 2), ma, mb);
        LessPrefix(Digits(a.day, 2), ha, hb);
        LessPrefix(Digits(a.month, 2), da, db);
      } else if a.minute < b.minute {
        DigitsLess(a.minute, b.minute, 2);
        LessExtend(Digits(a.minute, 2), Digits(b.minute, 2), sa, sb);
        LessPrefix(Digits(a.hour, 2), ma, mb);
        LessPrefix(Digits(a.day, 2), ha, hb);
        LessPrefix(Digits(a.month, 2), da, db);
      } else {
        DigitsLess(a.second, b.second, 2);
        LessPrefix(Digits(a.minute, 2), sa, sb);
        LessPrefix(Digits(a.hour, 2), ma, mb);
        LessPrefix(Digits(a.day, 2), ha, hb);
        LessPrefix(Digits(a.month, 2), da, db);
      }
      LessPrefix(Digits(a.year, 4), oa, ob);
    }
  }

  /** Stamps of two versions with the same public part, taken at successive
      clock readings, compare in that order as strings, whatever their old
      local segments: the timestamp outweighs them (utils.py:285-308). */
  lemma StampOrder(lib: VersionLib, version1: string, version2: string, a: Instant, b: Instant)
    requires Earlier(a, b)
    requires lib.parse(version1).Some? && lib.parse(version2).Some?
    requires lib.parse(version1).value.public == lib.parse(version2).value.public
    ensures LocalStamp(lib, version1, a).Ok? && LocalStamp(lib, version2, b).Ok?
    ensures Less(LocalStamp(lib, version1, a).value, LocalStamp(lib, version2, b).value)
  {
    TimestampOrder(a, b);
    StampTextOrder(lib.parse(version1).value, lib.parse(version2).value, Timestamp(a), Timestamp(b));
  }

  /** The order of equal-width timestamps decides the order of the stamped
      texts of two versions with one public part, whatever follows them. */
  lemma StampTextOrder(v: Version, w: Version, ta: string, tb: string)
    requires v.public == w.public
    requires |ta| == |tb| && Less(ta, tb)
    ensures Less(StampText(v, ta), StampText(w, tb))
  {
    var tailV := if v.local.Some? then "_" + v.local.value else "";
    var tailW := if w.local.Some? then "_" + w.local.value else "";
    var p := v.public + "+";
    LessPrefix(p, ta, tb);
    LessExtend(p + ta, p + tb, tailV, tailW);
  }

  /** The documented stamps: `0.1.dev0+deadbeef` stamped first sorts before
      `0.1.dev0+cafebabe` and before `0.1.dev0` stamped later, although
      `deadbeef` sorts after `cafebabe`. */
  lemma DocumentedStampOrder(lib: VersionLib, a: Instant, b: Instant, c: Instant)
    requires Earlier(a, b) && Earlier(a, c)
    requires lib.parse("0.1.dev0+deadbeef") == Some(Version("0.1.dev0", Some("deadbeef"), true))
    requires lib.parse("0.1.dev0+cafebabe") == Some(Version("0.1.dev0", Some("cafebabe"), true))
    requires lib.parse("0.1.dev0") == Some(Version("0.1.dev0", None, true))
    ensures !Less("deadbeef", "cafebabe")
    ensures Less(LocalStamp(lib, "0.1.dev0+deadbeef", a).value, LocalStamp(lib, "0.1.dev0+cafebabe", b).value)
    ensures Less(LocalStamp(lib, "0.1.dev0+deadbeef", a).value, LocalStamp(lib, "0.1.dev0", c).value)
  {
    assert "deadbeef"[0] > "cafebabe"[0];
    StampOrder(lib, "0.1.dev0+deadbeef", "0.1.dev0+cafebabe", a, b);
    StampOrder(lib, "0.1.dev0+deadbeef", "0.1.dev0", a, c);
  }

  /** Under the library's laws, a stamped version is still a development
      version and is recognised as stamped. */
  lemma StampedIsStamped(lib: VersionLib, version: string, now: Instant)
    requires Lawful(lib)
    requires IsDev(lib, version)
    ensures LocalStamp(lib, version, now).Ok?
    ensures var stamped := lib.safe(LocalStamp(lib, version, now).value);
      IsDev(lib, stamped) && HasStamp(lib, stamped) == Ok(true)
  {
    var v := lib.parse(version).value;
    var text := StampText(v, Timestamp(now));
    assert Restamped(lib, v, Timestamp(now));
    assert lib.parse(lib.safe(text)) == lib.parse(text);
  }
}
