/** The archive's file name, `./temp/<name>-<DD-MM-YYYY-HH:MM>.zip`, built
    from the wall-clock time with `strftime("%d-%m-%Y-%H:%M")`, and the
    parser that recovers the label and the time from it. */
module Timestamp {
  import opened Decimal
  import Scratch

  datatype Option<T> = None | Some(value: T)

  /** The fields of a `datetime` that the format uses (seconds and below are
      dropped: the name has minute resolution). */
  datatype DateTime = DateTime(year: nat, month: nat, day: nat, hour: nat, minute: nat)

  /** The archive name split back into its parts. */
  datatype ArchiveLabel = ArchiveLabel(name: string, time: DateTime)

  predicate IsLeapYear(y: nat) {
    y % 4 == 0 && (y % 100 != 0 || y % 400 == 0)
  }

  function DaysInMonth(y: nat, m: nat): nat
    requires 1 <= m <= 12
  {
    if m == 2 then (if IsLeapYear(y) then 29 else 28)
    else if m == 4 || m == 6 || m == 9 || m == 11 then 30
    else 31
  }

  /** The range invariant every Python `datetime` keeps
      (MINYEAR = 1, MAXYEAR = 9999). */
  predicate Valid(dt: DateTime) {
    && 1 <= dt.year <= 9999
    && 1 <= dt.month <= 12
    && 1 <= dt.day <= DaysInMonth(dt.year, dt.month)
    && dt.hour < 24
    && dt.minute < 60
  }

  /** `dt.strftime("%d-%m-%Y-%H:%M")`. */
  function Format(dt: DateTime): string {
    ZeroPad(dt.day, 2) + "-" + ZeroPad(dt.month, 2) + "-" + ZeroPad(dt.year, 4)
      + "-" + ZeroPad(dt.hour, 2) + ":" + ZeroPad(dt.minute, 2)
  }

  const Extension: string := ".zip"

  /** `f"{name}-{strdate}.zip"`. */
  function ArchiveName(name: string, dt: DateTime): string {
    name + "-" + Format(dt) + Extension
  }

  /** `f"./temp/{name}-{strdate}.zip"`, the path `create_backup` writes and
      returns. */
  function ArchivePath(name: string, dt: DateTime): string {
    Scratch.ScratchFile(ArchiveName(name, dt))
  }

  /** Reads a `DD-MM-YYYY-HH:MM` stamp; anything else, or a date no
      `datetime` can hold, is rejected. */
  function ParseTimestamp(s: string): (r: Option<DateTime>)
    ensures r.Some? ==> Valid(r.value) && |s| == 16
  {
    if |s| == 16 && s[2] == '-' && s[5] == '-' && s[10] == '-' && s[13] == ':'
       && AllDigits(s[0..2]) && AllDigits(s[3..5]) && AllDigits(s[6..10])
       && AllDigits(s[11..13]) && AllDigits(s[14..16])
    then
      var dt := DateTime(ParseNat(s[6..10]), ParseNat(s[3..5]), ParseNat(s[0..2]),
                         ParseNat(s[11..13]), ParseNat(s[14..16]));
      if Valid(dt) then Some(dt) else None
    else None
  }

  /** Splits `<name>-<stamp>.zip` from the right, so a label may itself
      contain dashes. */
  function ParseArchiveName(f: string): (r: Option<ArchiveLabel>)
    ensures r.Some? ==> |r.value.name| + 21 == |f| && Valid(r.value.time)
  {
    if |f| >= 21 && f[|f| - 4..] == Extension && f[|f| - 21] == '-' then
      match ParseTimestamp(f[|f| - 20..|f| - 4])
      case Some(dt) => Some(ArchiveLabel(f[..|f| - 21], dt))
      case None => None
    else None
  }

  function ParseArchivePath(p: string): (r: Option<ArchiveLabel>)
    ensures r.Some? ==> |p| >= |Scratch.Prefix| && p[..|Scratch.Prefix|] == Scratch.Prefix
  {
    var k := |Scratch.Prefix|;
    if |p| >= k && p[..k] == Scratch.Prefix then ParseArchiveName(p[k..]) else None
  }

  /** Every field of a valid time is zero-padded to its fixed width, so the
      stamp is always sixteen characters with the separators in place. */
  lemma FormatLayout(dt: DateTime)
    requires Valid(dt)
    ensures |ZeroPad(dt.day, 2)| == 2 && |ZeroPad(dt.month, 2)| == 2
    ensures |ZeroPad(dt.year, 4)| == 4
    ensures |ZeroPad(dt.hour, 2)| == 2 && |ZeroPad(dt.minute, 2)| == 2
    ensures |Format(dt)| == 16
    ensures var s := Format(dt);
      s[2] == '-' && s[5] == '-' && s[10] == '-' && s[13] == ':'
  {
    DigitsFit(dt.day, 2);
    DigitsFit(dt.month, 2);
    DigitsFit(dt.year, 4);
    DigitsFit(dt.hour, 2);
    DigitsFit(dt.minute, 2);
    FieldPositions(ZeroPad(dt.day, 2), ZeroPad(dt.month, 2), ZeroPad(dt.year, 4),
                   ZeroPad(dt.hour, 2), ZeroPad(dt.minute, 2));
  }

  /** Fixed-width fields joined by single separators sit at fixed
      positions. */
  lemma FieldPositions(d: string, m: string, y: string, h: string, mi: string)
    requires |d| == 2 && |m| == 2 && |y| == 4 && |h| == 2 && |mi| == 2
    ensures var s := d + "-" + m + "-" + y + "-" + h + ":" + mi;
      && |s| == 16
      && s[0..2] == d && s[3..5] == m && s[6..10] == y && s[11..13] == h && s[14..16] == mi
      && s[2] == '-' && s[5] == '-' && s[10] == '-' && s[13] == ':'
  {
    var s := d + "-" + m + "-" + y + "-" + h + ":" + mi;
    assert forall i :: 0 <= i < 2 ==> s[i] == d[i] && s[3 + i] == m[i] && s[11 + i] == h[i] && s[14 + i] == mi[i];
    assert forall i :: 0 <= i < 4 ==> s[6 + i] == y[i];
  }

  /** Where each field sits in the stamp. */
  lemma FormatFields(dt: DateTime)
    requires Valid(dt)
    ensures var s := Format(dt);
      && |s| == 16
      && s[0..2] == ZeroPad(dt.day, 2) && s[3..5] == ZeroPad(dt.month, 2)
      && s[6..10] == ZeroPad(dt.year, 4) && s[11..13] == ZeroPad(dt.hour, 2)
      && s[14..16] == ZeroPad(dt.minute, 2)
  {
    FormatLayout(dt);
    FieldPositions(ZeroPad(dt.day, 2), ZeroPad(dt.month, 2), ZeroPad(dt.year, 4),
                   ZeroPad(dt.hour, 2), ZeroPad(dt.minute, 2));
  }

  /** Reading the stamp back gives the time it was made from. */
  lemma TimestampRoundTrip(dt: DateTime)
    requires Valid(dt)
    ensures ParseTimestamp(Format(dt)) == Some(dt)
  {
    FormatLayout(dt);
    FormatFields(dt);
    var s := Format(dt);
    var parsed := DateTime(ParseNat(s[6..10]), ParseNat(s[3..5]), ParseNat(s[0..2]),
                           ParseNat(s[11..13]), ParseNat(s[14..16]));
    assert parsed == dt;
  }

  /** The archive path carries the label and the time recoverably: reading
      it back gives exactly the `name` and time it was built from. */
  lemma ArchivePathRoundTrip(name: string, dt: DateTime)
    requires Valid(dt)
    ensures ParseArchivePath(ArchivePath(name, dt)) == Some(ArchiveLabel(name, dt))
  {
    FormatLayout(dt);
    TimestampRoundTrip(dt);
    var f := ArchiveName(name, dt);
    var p := ArchivePath(name, dt);
    assert p[..|Scratch.Prefix|] == Scratch.Prefix && p[|Scratch.Prefix|..] == f;
    assert |f| == |name| + 21;
    assert f[|f| - 4..] == Extension;
    assert f[|f| - 21] == '-';
    assert f[|f| - 20..|f| - 4] == Format(dt);
    assert f[..|f| - 21] == name;
  }

  /** Two runs with different labels or in different minutes never produce
      the same archive path. */
  lemma ArchivePathInjective(n1: string, t1: DateTime, n2: string, t2: DateTime)
    requires Valid(t1) && Valid(t2)
    requires ArchivePath(n1, t1) == ArchivePath(n2, t2)
    ensures n1 == n2 && t1 == t2
  {
    ArchivePathRoundTrip(n1, t1);
    ArchivePathRoundTrip(n2, t2);
  }
}
