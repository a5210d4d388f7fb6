/** `do_pack` of `1-pack_web_static.py` and `3-deploy_web_static.py`: archive the
    `web_static` folder as `versions/web_static_<YYYYmmddHHMMSS>.tgz`. The two
    revisions differ only in the clock they read (`utcnow` and `now`); the clock
    reading is the input `t` here. */
module Pack {
  import opened Outcomes
  import opened Text
  import opened Decimal
  import opened Fabric
  import opened PosixPath

  /** A `datetime.datetime` without time zone. */
  datatype DateTime = DateTime(
    year: int, month: int, day: int,
    hour: int, minute: int, second: int, microsecond: int)

  predicate IsLeapYear(y: int)
  {
    y % 4 == 0 && (y % 100 != 0 || y % 400 == 0)
  }

  function DaysInMonth(y: int, m: int): int
  {
    if m == 2 then (if IsLeapYear(y) then 29 else 28)
    else if m == 4 || m == 6 || m == 9 || m == 11 then 30
    else 31
  }

  /** The ranges `datetime` enforces on construction. */
  predicate Valid(t: DateTime)
  {
    && 1 <= t.year <= 9999
    && 1 <= t.month <= 12
    && 1 <= t.day <= DaysInMonth(t.year, t.month)
    && 0 <= t.hour < 24
    && 0 <= t.minute < 60
    && 0 <= t.second < 60
    && 0 <= t.microsecond < 1000000
  }

  /** `t.strftime("%Y%m%d%H%M%S")`: six zero-padded fields, fourteen digits
      (microseconds are dropped). */
  function Timestamp(t: DateTime): (r: string)
    requires Valid(t)
    ensures |r| == 14 && AllDigits(r)
  {
    var y, mo, d := Pad(t.year, 4), Pad(t.month, 2), Pad(t.day, 2);
    var h, mi, s := Pad(t.hour, 2), Pad(t.minute, 2), Pad(t.second, 2);
    (y + mo + d) + (h + mi + s)
  }

  /** Each field of the timestamp reads back as the value it came from, so the
      timestamp determines the datetime down to the second. */
  lemma TimestampFields(t: DateTime)
    requires Valid(t)
    ensures var r := Timestamp(t);
      && Value(r[..4]) == t.year && Value(r[4..6]) == t.month && Value(r[6..8]) == t.day
      && Value(r[8..10]) == t.hour && Value(r[10..12]) == t.minute && Value(r[12..14]) == t.second
  {
    SixFieldSlices(Pad(t.year, 4), Pad(t.month, 2), Pad(t.day, 2),
                   Pad(t.hour, 2), Pad(t.minute, 2), Pad(t.second, 2));
  }

  /** The slices of `(y + mo + d) + (h + mi + s)` at the field boundaries. */
  lemma SixFieldSlices(y: string, mo: string, d: string, h: string, mi: string, s: string)
    requires |y| == 4 && |mo| == 2 && |d| == 2 && |h| == 2 && |mi| == 2 && |s| == 2
    ensures var r := (y + mo + d) + (h + mi + s);
      && r[..4] == y && r[4..6] == mo && r[6..8] == d
      && r[8..10] == h && r[10..12] == mi && r[12..14] == s
  {
  }

  /** `"web_static_{}.tgz".format(timestamp)`: 29 characters, no `/`, and a single `.`,
      the one that starts the `.tgz` extension. */
  function ArchiveName(t: DateTime): (r: string)
    requires Valid(t)
    ensures |r| == 29
    ensures r[..11] == "web_static_" && r[11..25] == Timestamp(t) && r[25..] == ".tgz"
    ensures '/' !in r
    ensures r[25] == '.' && '.' !in r[..25] && '.' !in r[26..]
  {
    var ts := Timestamp(t);
    NameAroundDigits(ts);
    "web_static_" + ts + ".tgz"
  }

  /** The shape of `web_static_<ts>.tgz` for fourteen digits `ts`. */
  lemma NameAroundDigits(ts: string)
    requires |ts| == 14 && AllDigits(ts)
    ensures var r := "web_static_" + ts + ".tgz";
      && |r| == 29
      && r[..11] == "web_static_" && r[11..25] == ts && r[25..] == ".tgz"
      && '/' !in r
      && r[25] == '.' && '.' !in r[..25] && '.' !in r[26..]
  {
    NoSymbolInDigits(ts);
    var head := "web_static_" + ts;
    assert '.' !in head && '/' !in head;
    var r := head + ".tgz";
    assert r[..25] == head && r[25..] == ".tgz";
  }

  /** A digit string holds neither `.` nor `/`. */
  lemma NoSymbolInDigits(s: string)
    requires AllDigits(s)
    ensures '.' !in s && '/' !in s
  {
    assert forall i :: 0 <= i < |s| ==> s[i] != '.' && s[i] != '/';
  }

  /** The path `do_pack` returns on success. */
  function PackedPath(t: DateTime): (r: string)
    requires Valid(t)
    ensures |r| == 38 && r[..9] == "versions/"
    ensures Basename(r) == ArchiveName(t)
  {
    var name := ArchiveName(t);
    BasenameOfJoin("versions", name);
    assert "versions/" + name == "versions" + "/" + name;
    "versions/" + name
  }

  /** The commands `do_pack` issued and what became of the call: `Raised` when
      `mkdir -p versions` (outside the `try`) fails, `Returned(None)` when the `tar`
      step fails, the archive path otherwise. */
  datatype PackRun = PackRun(issued: seq<Command>, outcome: Outcome<Option<string>>)

  function DoPack(t: DateTime, ok: nat -> bool): (r: PackRun)
    requires Valid(t)
    ensures r.outcome.Raised? <==> !ok(0)
    ensures r.outcome == Returned(None) <==> ok(0) && !ok(1)
    ensures r.outcome == Returned(Some(PackedPath(t))) <==> ok(0) && ok(1)
    ensures |r.issued| >= 1 && r.issued[0] == Local("mkdir -p versions")
    ensures ok(0) ==>
      |r.issued| == 2 && r.issued[1] == Local("tar -cvzf " + PackedPath(t) + " web_static")
    ensures !ok(0) ==> |r.issued| == 1
  {
    var path := PackedPath(t);
    var mkdir := Local("mkdir -p versions");
    var tar := Local("tar -cvzf " + path + " web_static");
    if !ok(0) then PackRun([mkdir], Raised)
    else if !ok(1) then PackRun([mkdir, tar], Returned(None))
    else PackRun([mkdir, tar], Returned(Some(path)))
  }

  /** Three-way comparison of two datetimes down to the second. */
  function CompareToSecond(a: DateTime, b: DateTime): int
  {
    if a.year != b.year then Sign(a.year - b.year)
    else if a.month != b.month then Sign(a.month - b.month)
    else if a.day != b.day then Sign(a.day - b.day)
    else if a.hour != b.hour then Sign(a.hour - b.hour)
    else if a.minute != b.minute then Sign(a.minute - b.minute)
    else Sign(a.second - b.second)
  }

  /** Python's datetime comparison: down to the second, then microseconds. */
  function CompareDateTime(a: DateTime, b: DateTime): int
  {
    if CompareToSecond(a, b) != 0 then CompareToSecond(a, b)
    else Sign(a.microsecond - b.microsecond)
  }

  /** The first of two comparisons that is not a tie, as `CompareToSecond` chains them. */
  function FirstNonTie(c: int, d: int): int
  {
    if c != 0 then c else d
  }

  /** Three fields compared left to right: the first field that differs decides. */
  lemma CmpThreeFields(x1: string, x2: string, x3: string, y1: string, y2: string, y3: string)
    requires |x1| == |y1| && |x2| == |y2|
    ensures Cmp(x1 + x2 + x3, y1 + y2 + y3) == FirstNonTie(Cmp(x1, y1), FirstNonTie(Cmp(x2, y2), Cmp(x3, y3)))
  {
    CmpConcat(x1, x2, y1, y2);
    CmpConcat(x1 + x2, x3, y1 + y2, y3);
  }

  /** `%Y` fields compare as the years do. */
  lemma YearOrder(y1: int, y2: int)
    requires 1 <= y1 <= 9999 && 1 <= y2 <= 9999
    ensures Cmp(Pad(y1, 4), Pad(y2, 4)) == Sign(y1 - y2)
  {
    assert Pow10(4) == 10000;
    PadOrder(y1, y2, 4);
  }

  /** The date fields compare as the year, month and day do, in that order. */
  lemma DateFieldsOrder(a: DateTime, b: DateTime)
    requires Valid(a) && Valid(b)
    ensures Cmp(Pad(a.year, 4) + Pad(a.month, 2) + Pad(a.day, 2), Pad(b.year, 4) + Pad(b.month, 2) + Pad(b.day, 2))
         == FirstNonTie(Sign(a.year - b.year), FirstNonTie(Sign(a.month - b.month), Sign(a.day - b.day)))
  {
    YearOrder(a.year, b.year);
    PadOrder(a.month, b.month, 2);
    PadOrder(a.day, b.day, 2);
    CmpThreeFields(Pad(a.year, 4), Pad(a.month, 2), Pad(a.day, 2), Pad(b.year, 4), Pad(b.month, 2), Pad(b.day, 2));
  }

  /** The time fields compare as the hour, minute and second do, in that order. */
  lemma TimeFieldsOrder(a: DateTime, b: DateTime)
    requires Valid(a) && Valid(b)
    ensures Cmp(Pad(a.hour, 2) + Pad(a.minute, 2) + Pad(a.second, 2), Pad(b.hour, 2) + Pad(b.minute, 2) + Pad(b.second, 2))
         == FirstNonTie(Sign(a.hour - b.hour), FirstNonTie(Sign(a.minute - b.minute), Sign(a.second - b.second)))
  {
    PadOrder(a.hour, b.hour, 2);
    PadOrder(a.minute, b.minute, 2);
    PadOrder(a.second, b.second, 2);
    CmpThreeFields(Pad(a.hour, 2), Pad(a.minute, 2), Pad(a.second, 2), Pad(b.hour, 2), Pad(b.minute, 2), Pad(b.second, 2));
  }

  /** Fixed-width fields compared left to right: the timestamps compare as the
      datetimes do down to the second. */
  lemma TimestampOrder(a: DateTime, b: DateTime)
    requires Valid(a) && Valid(b)
    ensures Cmp(Timestamp(a), Timestamp(b)) == CompareToSecond(a, b)
  {
    DateFieldsOrder(a, b);
    TimeFieldsOrder(a, b);
    CmpConcat(Pad(a.year, 4) + Pad(a.month, 2) + Pad(a.day, 2), Pad(a.hour, 2) + Pad(a.minute, 2) + Pad(a.second, 2),
              Pad(b.year, 4) + Pad(b.month, 2) + Pad(b.day, 2), Pad(b.hour, 2) + Pad(b.minute, 2) + Pad(b.second, 2));
  }

  /** Archive names order archives by creation time, to the second: for two valid
      datetimes, one name is at most the other exactly when its time is at or before
      the other's second, and two names coincide exactly when the times share a
      second. */
  lemma ArchiveNameOrder(a: DateTime, b: DateTime)
    requires Valid(a) && Valid(b)
    ensures Cmp(ArchiveName(a), ArchiveName(b)) == CompareToSecond(a, b)
    ensures LexLe(ArchiveName(a), ArchiveName(b)) <==> CompareToSecond(a, b) <= 0
    ensures ArchiveName(a) == ArchiveName(b) <==> CompareToSecond(a, b) == 0
  {
    var ts1, ts2 := Timestamp(a), Timestamp(b);
    TimestampOrder(a, b);
    CmpConcat("web_static_", ts1, "web_static_", ts2);
    CmpConcat("web_static_" + ts1, ".tgz", "web_static_" + ts2, ".tgz");
    CmpZeroIffEqual(ArchiveName(a), ArchiveName(b));
  }

  /** A clock reading that is not later never gives a name that sorts later, and a name
      that sorts strictly earlier comes from a strictly earlier reading. */
  lemma ArchiveNameChronological(a: DateTime, b: DateTime)
    requires Valid(a) && Valid(b)
    ensures CompareDateTime(a, b) <= 0 ==> LexLe(ArchiveName(a), ArchiveName(b))
    ensures Cmp(ArchiveName(a), ArchiveName(b)) < 0 ==> CompareDateTime(a, b) < 0
  {
    ArchiveNameOrder(a, b);
  }
}
