/**
 * The file name EasyDBBackup::create_backup gives a new backup:
 * `backup-<database>-<date>.sql`, where the date is PHP's
 * `date('Y-m-d-H-i-s')`.  The clock is an input: a calendar reading with
 * second resolution.
 */
module BackupNaming {
  import opened Common
  import BackupListing

  datatype Timestamp = Timestamp(year: nat, month: nat, day: nat, hour: nat, minute: nat, second: nat)

  /** The readings PHP's date() can format: months 1-12, days 1-31, 24 hours, 60 minutes and seconds. */
  predicate ValidTimestamp(t: Timestamp)
  {
    1 <= t.month <= 12 && 1 <= t.day <= 31 && t.hour < 24 && t.minute < 60 && t.second < 60
  }

  predicate IsDigit(c: char)
  {
    '0' <= c <= '9'
  }

  function DigitChar(d: nat): (c: char)
    requires d < 10
    ensures IsDigit(c)
  {
    (48 + d) as char
  }

  function DigitValue(c: char): nat
  {
    if IsDigit(c) then (c as int) - 48 else 0
  }

  /** The decimal digits of `n`, without leading zeros. */
  function Digits(n: nat): (r: string)
    ensures |r| >= 1 && forall k :: 0 <= k < |r| ==> IsDigit(r[k])
    decreases n
  {
    if n < 10 then [DigitChar(n)] else Digits(n / 10) + [DigitChar(n % 10)]
  }

  /** `s` with zeros in front, up to `width` characters. */
  function PadZeros(s: string, width: nat): (r: string)
    decreases width - |s|
  {
    if |s| < width then PadZeros("0" + s, width) else s
  }

  /** PHP's `Y`: the year with at least four digits. */
  function YearText(y: nat): string
  {
    PadZeros(Digits(y), 4)
  }

  /** PHP's `m`, `d`, `H`, `i` and `s`: two digits with a leading zero. */
  function TwoDigits(n: nat): string
  {
    PadZeros(Digits(n), 2)
  }

  /** Three fields joined by dashes. */
  function Dashed(a: string, b: string, c: string): string
  {
    a + "-" + b + "-" + c
  }

  /**
   * PHP's `date('Y-m-d-H-i-s')`: the `Y-m-d` date, a dash, the `H-i-s` time.
   * It is at least 19 characters long and holds only digits and dashes.
   */
  function FileStamp(t: Timestamp): (r: string)
    ensures |r| >= 19
    ensures forall x :: x in r ==> IsDigit(x) || x == '-'
  {
    PaddedField(t.year, 4);
    PaddedField(t.month, 2);
    PaddedField(t.day, 2);
    PaddedField(t.hour, 2);
    PaddedField(t.minute, 2);
    PaddedField(t.second, 2);
    Dashed(YearText(t.year), TwoDigits(t.month), TwoDigits(t.day)) + "-"
    + Dashed(TwoDigits(t.hour), TwoDigits(t.minute), TwoDigits(t.second))
  }

  /**
   * The name of the backup of database `dbName` taken at `t`: it ends in
   * `.sql`, the suffix the listing looks for, and carries the database name
   * right after the `backup-` prefix.
   */
  function BackupFilename(dbName: string, t: Timestamp): (r: string)
    ensures BackupListing.EndsInSql(r)
    ensures |r| >= 7 + |dbName| && r[..7] == "backup-" && r[7..7 + |dbName|] == dbName
  {
    var stamp := FileStamp(t);
    NameLayout(dbName, stamp);
    var r := "backup-" + dbName + "-" + stamp + ".sql";
    assert r[|r| - 4..] == ".sql";
    assert r[..7] == "backup-";
    r
  }

  // ---------------------------------------------------------------- reading a stamp back

  /** The number a string of decimal digits denotes. */
  function Value(s: string): nat
  {
    if s == [] then 0 else Value(s[..|s| - 1]) * 10 + DigitValue(s[|s| - 1])
  }

  predicate AllDigits(s: string)
  {
    forall k :: 0 <= k < |s| ==> IsDigit(s[k])
  }

  /** Reads three dash-separated digit fields of widths `w`, 2 and 2. */
  function ParseDashed(s: string, w: nat): Option<(nat, nat, nat)>
  {
    if |s| == w + 6 && s[w] == '-' && s[w + 3] == '-'
       && AllDigits(s[..w]) && AllDigits(s[w + 1..w + 3]) && AllDigits(s[w + 4..])
    then Some((Value(s[..w]), Value(s[w + 1..w + 3]), Value(s[w + 4..])))
    else None
  }

  /** Reads a `Y-m-d-H-i-s` stamp with a four-digit year. */
  function ParseStamp(s: string): Option<Timestamp>
  {
    if |s| != 19 || s[10] != '-' then None
    else match (ParseDashed(s[..10], 4), ParseDashed(s[11..], 2))
      case (Some((y, mo, d)), Some((h, mi, sec))) =>
        var t := Timestamp(y, mo, d, h, mi, sec);
        if ValidTimestamp(t) then Some(t) else None
      case _ => None
  }

  lemma {:induction false} DigitsValue(n: nat)
    ensures Value(Digits(n)) == n
    decreases n
  {
    if n >= 10 {
      var d := Digits(n);
      assert d[..|d| - 1] == Digits(n / 10);
      DigitsValue(n / 10);
    }
  }

  /** A number below 10^w has at most w digits. */
  lemma {:induction false} DigitsLength(n: nat, w: nat)
    requires 1 <= w && n < Pow10(w)
    ensures |Digits(n)| <= w
    decreases n
  {
    if n >= 10 {
      DigitsLength(n / 10, w - 1);
    }
  }

  function Pow10(w: nat): nat
  {
    if w == 0 then 1 else 10 * Pow10(w - 1)
  }

  lemma {:induction false} LeadingZeroValue(s: string)
    ensures Value("0" + s) == Value(s)
    decreases |s|
  {
    if s != [] {
      assert ("0" + s)[..|s|] == "0" + s[..|s| - 1];
      LeadingZeroValue(s[..|s| - 1]);
    } else {
      assert ("0" + s)[..0] == [];
    }
  }

  /** Padding with zeros keeps the digits' value and reaches the width. */
  lemma {:induction false} PadZerosValue(s: string, width: nat)
    requires AllDigits(s)
    ensures Value(PadZeros(s, width)) == Value(s)
    ensures AllDigits(PadZeros(s, width))
    ensures |s| <= width ==> |PadZeros(s, width)| == width
    ensures |s| >= width ==> PadZeros(s, width) == s
    decreases width - |s|
  {
    if |s| < width {
      LeadingZeroValue(s);
      PadZerosValue("0" + s, width);
    }
  }

  /** A padded field is at least `width` characters, all of them digits. */
  lemma PaddedField(n: nat, width: nat)
    ensures |PadZeros(Digits(n), width)| >= width
    ensures forall x :: x in PadZeros(Digits(n), width) ==> IsDigit(x)
  {
    PadZerosValue(Digits(n), width);
    var p := PadZeros(Digits(n), width);
    forall x | x in p
      ensures IsDigit(x)
    {
      var k :| 0 <= k < |p| && p[k] == x;
    }
  }

  /** A padded field of `n` is exactly `width` digits denoting `n`, when `n` fits. */
  lemma FieldRoundTrip(n: nat, width: nat)
    requires 1 <= width && n < Pow10(width)
    ensures |PadZeros(Digits(n), width)| == width
    ensures AllDigits(PadZeros(Digits(n), width))
    ensures Value(PadZeros(Digits(n), width)) == n
  {
    DigitsLength(n, width);
    DigitsValue(n);
    PadZerosValue(Digits(n), width);
  }

  /** Where the fields sit in three dash-separated fields. */
  lemma DashedLayout(a: string, b: string, c: string)
    requires |b| == 2 && |c| == 2
    ensures var s := Dashed(a, b, c);
      && |s| == |a| + 6 && s[|a|] == '-' && s[|a| + 3] == '-'
      && s[..|a|] == a && s[|a| + 1..|a| + 3] == b && s[|a| + 4..] == c
  {
  }

  /** Three padded fields that fit their widths read back as the numbers they were made from. */
  lemma DashedRoundTrip(x: nat, y: nat, z: nat, w: nat)
    requires 1 <= w && x < Pow10(w) && y < 100 && z < 100
    ensures |Dashed(PadZeros(Digits(x), w), TwoDigits(y), TwoDigits(z))| == w + 6
    ensures ParseDashed(Dashed(PadZeros(Digits(x), w), TwoDigits(y), TwoDigits(z)), w) == Some((x, y, z))
  {
    assert Pow10(2) == 100;
    FieldRoundTrip(x, w);
    FieldRoundTrip(y, 2);
    FieldRoundTrip(z, 2);
    DashedLayout(PadZeros(Digits(x), w), TwoDigits(y), TwoDigits(z));
  }

  /** A stamp with a four-digit year reads back as the reading it was made from. */
  lemma StampRoundTrip(t: Timestamp)
    requires ValidTimestamp(t) && t.year < 10000
    ensures |FileStamp(t)| == 19
    ensures ParseStamp(FileStamp(t)) == Some(t)
  {
    assert Pow10(4) == 10000 && Pow10(2) == 100;
    var date := Dashed(YearText(t.year), TwoDigits(t.month), TwoDigits(t.day));
    var time := Dashed(TwoDigits(t.hour), TwoDigits(t.minute), TwoDigits(t.second));
    DashedRoundTrip(t.year, t.month, t.day, 4);
    DashedRoundTrip(t.hour, t.minute, t.second, 2);
    var s := FileStamp(t);
    assert s == date + "-" + time;
    assert s[..10] == date && s[10] == '-' && s[11..] == time;
  }

  /** Where the database name and the stamp sit in a backup file name. */
  lemma NameLayout(dbName: string, stamp: string)
    ensures var n := "backup-" + dbName + "-" + stamp + ".sql";
      && |n| == 12 + |dbName| + |stamp|
      && n[7..7 + |dbName|] == dbName
      && n[8 + |dbName|..8 + |dbName| + |stamp|] == stamp
  {
  }

  /**
   * Two backups get the same name exactly when they are of the same database
   * and taken in the same second (for four-digit years): the name embeds
   * both, and a collision within one second is not avoided.
   */
  lemma FilenameInjective(db1: string, t1: Timestamp, db2: string, t2: Timestamp)
    requires ValidTimestamp(t1) && t1.year < 10000
    requires ValidTimestamp(t2) && t2.year < 10000
    ensures BackupFilename(db1, t1) == BackupFilename(db2, t2) <==> db1 == db2 && t1 == t2
  {
    StampRoundTrip(t1);
    StampRoundTrip(t2);
    NameLayout(db1, FileStamp(t1));
    NameLayout(db2, FileStamp(t2));
  }

  /** A backup file this plugin names is always shown by the listing, whatever the database is called. */
  lemma NewBackupIsListed(dbName: string, t: Timestamp, mtime: int, size: nat)
    ensures BackupListing.Keep(BackupListing.Entry(BackupFilename(dbName, t), true, mtime, size))
  {
    BackupListing.KeepIffSqlFile(BackupListing.Entry(BackupFilename(dbName, t), true, mtime, size));
  }
}
