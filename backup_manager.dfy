/**
  Backups of the application data: which backup kinds exist, when creating
  one is refused or skipped, which old backups rolling retention deletes
  first, the alias table kept beside the backups, and the listing of the
  backups newest first.

  A backup is named `backup_<YYYYMMDD>_<HHMMSS>.zip` after the moment it was
  made, so the order of the names is the order of the moments; retention
  sorts names and listing sorts moments, and the two agree.
 */
module BackupManager {
  import opened Wrappers
  import opened Text
  import opened Ordering
  import opened Settings

  const AutomaticKind: string := "automatic"
  const ManualKind: string := "manual"
  const PreRestoreKind: string := "respaldo"

  /** The backup kinds, each a sub-directory of the backups directory, in listing order. */
  const SupportedKinds: seq<string> := [AutomaticKind, ManualKind, PreRestoreKind]

  const BackupPrefix: string := "backup_"
  const BackupSuffix: string := ".zip"

  // ===========================================================================
  // Timestamps
  // ===========================================================================

  /** A `datetime` to the second. */
  datatype Timestamp = Timestamp(year: int, month: int, day: int, hour: int, minute: int, second: int)

  predicate LeapYear(year: int)
  {
    year % 4 == 0 && (year % 100 != 0 || year % 400 == 0)
  }

  function DaysInMonth(year: int, month: int): int
    requires 1 <= month <= 12
  {
    if month == 2 then (if LeapYear(year) then 29 else 28)
    else if month == 4 || month == 6 || month == 9 || month == 11 then 30
    else 31
  }

  /** The moments a `datetime` can hold (years 1 to 9999), to the second. */
  predicate ValidTimestamp(t: Timestamp)
  {
    1 <= t.year <= 9999 && 1 <= t.month <= 12 && 1 <= t.day <= DaysInMonth(t.year, t.month) &&
    0 <= t.hour < 24 && 0 <= t.minute < 60 && 0 <= t.second < 60
  }

  /** `a < b` on `datetime`: field by field, the year first. */
  predicate Earlier(a: Timestamp, b: Timestamp)
  {
    if a.year != b.year then a.year < b.year
    else if a.month != b.month then a.month < b.month
    else if a.day != b.day then a.day < b.day
    else if a.hour != b.hour then a.hour < b.hour
    else if a.minute != b.minute then a.minute < b.minute
    else a.second < b.second
  }

  /** A number below 100 as two digits, with a leading zero. */
  function Digits2(n: int): (r: string)
    requires 0 <= n < 100
    ensures |r| == 2 && IsDigit(r[0]) && IsDigit(r[1])
  {
    [DigitChar(n / 10), DigitChar(n % 10)]
  }

  /** The two-digit number at index `i` of `s`. */
  function Field(s: string, i: int): (r: int)
    requires 0 <= i && i + 2 <= |s| && IsDigit(s[i]) && IsDigit(s[i + 1])
    ensures 0 <= r < 100
  {
    10 * (s[i] as int - '0' as int) + (s[i + 1] as int - '0' as int)
  }

  /** `strftime("%Y%m%d_%H%M%S")`. */
  function FormatTimestamp(t: Timestamp): (r: string)
    requires ValidTimestamp(t)
    ensures |r| == 15
  {
    Digits2(t.year / 100) + (Digits2(t.year % 100) + (Digits2(t.month) + (Digits2(t.day) +
      ("_" + (Digits2(t.hour) + (Digits2(t.minute) + Digits2(t.second)))))))
  }

  /** Fifteen characters: eight digits, an underscore, six digits. */
  predicate TimestampShape(s: string)
  {
    |s| == 15 && s[8] == '_' && forall i :: 0 <= i < 15 && i != 8 ==> IsDigit(s[i])
  }

  /** `strptime(s, "%Y%m%d_%H%M%S")` on the two-digit form the application
      writes; `None` is the `ValueError` of a malformed text or an impossible date. */
  function ParseTimestamp(s: string): (r: Option<Timestamp>)
    ensures r.Some? ==> ValidTimestamp(r.value) && TimestampShape(s)
  {
    if TimestampShape(s) then
      var t := Timestamp(100 * Field(s, 0) + Field(s, 2), Field(s, 4), Field(s, 6),
                         Field(s, 9), Field(s, 11), Field(s, 13));
      if ValidTimestamp(t) then Some(t) else None
    else None
  }

  lemma FieldDigits2(s: string, i: int)
    requires 0 <= i && i + 2 <= |s| && IsDigit(s[i]) && IsDigit(s[i + 1])
    ensures Digits2(Field(s, i)) == s[i..i + 2]
  {
    var f := Field(s, i);
    assert f / 10 == s[i] as int - '0' as int;
    assert f % 10 == s[i + 1] as int - '0' as int;
  }

  /** Parsing a formatted moment gives the moment back. */
  lemma ParseFormat(t: Timestamp)
    requires ValidTimestamp(t)
    ensures ParseTimestamp(FormatTimestamp(t)) == Some(t)
  {
    var s := FormatTimestamp(t);
    FieldOfDigits2(s, 0, t.year / 100);
    FieldOfDigits2(s, 2, t.year % 100);
    FieldOfDigits2(s, 4, t.month);
    FieldOfDigits2(s, 6, t.day);
    FieldOfDigits2(s, 9, t.hour);
    FieldOfDigits2(s, 11, t.minute);
    FieldOfDigits2(s, 13, t.second);
    assert s[8] == '_';
    assert TimestampShape(s);
  }

  /** Two digits written for `n` are read back as `n`. */
  lemma FieldOfDigits2(s: string, i: int, n: int)
    requires 0 <= n < 100 && 0 <= i && i + 2 <= |s| && s[i..i + 2] == Digits2(n)
    ensures IsDigit(s[i]) && IsDigit(s[i + 1]) && Field(s, i) == n
  {
    assert s[i] == Digits2(n)[0] && s[i + 1] == Digits2(n)[1];
  }

  /** A text that parses is the formatted form of what it parses to. */
  lemma FormatParse(s: string)
    requires ParseTimestamp(s).Some?
    ensures FormatTimestamp(ParseTimestamp(s).value) == s
  {
    var t := ParseTimestamp(s).value;
    FieldDigits2(s, 0);
    FieldDigits2(s, 2);
    FieldDigits2(s, 4);
    FieldDigits2(s, 6);
    FieldDigits2(s, 9);
    FieldDigits2(s, 11);
    FieldDigits2(s, 13);
    assert t.year / 100 == Field(s, 0) && t.year % 100 == Field(s, 2);
    assert s == s[0..2] + (s[2..4] + (s[4..6] + (s[6..8] + ([s[8]] + (s[9..11] + (s[11..13] + s[13..15]))))));
  }

  // ---------------------------------------------------------------------------
  // Name order is time order
  // ---------------------------------------------------------------------------

  /** Comparing two texts whose heads have one length compares the heads first. */
  lemma {:induction false} LexLessConcat(x: string, y: string, s: string, t: string)
    requires |x| == |y|
    ensures LexLess(x + s, y + t) <==> LexLess(x, y) || (x == y && LexLess(s, t))
    decreases |x|
  {
    if x == [] {
      assert x + s == s && y + t == t;
    } else {
      assert (x + s)[0] == x[0] && (y + t)[0] == y[0];
      assert (x + s)[1..] == x[1..] + s && (y + t)[1..] == y[1..] + t;
      LexLessConcat(x[1..], y[1..], s, t);
      if x[0] == y[0] {
        assert x == y <==> x[1..] == y[1..] by {
          assert x == [x[0]] + x[1..] && y == [y[0]] + y[1..];
        }
      }
    }
  }

  /** Two-digit fields compare as their numbers. */
  lemma Digits2Less(m: int, n: int, s: string, t: string)
    requires 0 <= m < 100 && 0 <= n < 100 && |s| == |t|
    ensures LexLess(Digits2(m) + s, Digits2(n) + t) <==> m < n || (m == n && LexLess(s, t))
  {
    LexLessConcat(Digits2(m), Digits2(n), s, t);
    Digits2Heads(m, n);
  }

  /** Two two-digit texts compare, and are equal, as their numbers. */
  lemma Digits2Heads(m: int, n: int)
    requires 0 <= m < 100 && 0 <= n < 100
    ensures LexLess(Digits2(m), Digits2(n)) <==> m < n
    ensures Digits2(m) == Digits2(n) <==> m == n
  {
    var a, b := Digits2(m), Digits2(n);
    assert m == 10 * (m / 10) + m % 10 && n == 10 * (n / 10) + n % 10;
    assert a[0] as int - '0' as int == m / 10 && b[0] as int - '0' as int == n / 10;
    assert a[1] as int - '0' as int == m % 10 && b[1] as int - '0' as int == n % 10;
    if m / 10 != n / 10 {
      assert a[0] != b[0];
    } else if m % 10 != n % 10 {
      assert a[0] == b[0] && a[1..][0] != b[1..][0];
    } else {
      assert a == b;
      LexLessIrreflexive(a);
    }
  }

  /** The formatted moments compare as the moments do. */
  lemma FormatOrder(a: Timestamp, b: Timestamp)
    requires ValidTimestamp(a) && ValidTimestamp(b)
    ensures LexLess(FormatTimestamp(a), FormatTimestamp(b)) <==> Earlier(a, b)
  {
    var a5 := Digits2(a.minute) + Digits2(a.second);
    var b5 := Digits2(b.minute) + Digits2(b.second);
    var a4 := Digits2(a.hour) + a5;
    var b4 := Digits2(b.hour) + b5;
    var a3 := Digits2(a.day) + ("_" + a4);
    var b3 := Digits2(b.day) + ("_" + b4);
    var a2 := Digits2(a.month) + a3;
    var b2 := Digits2(b.month) + b3;
    var a1 := Digits2(a.year % 100) + a2;
    var b1 := Digits2(b.year % 100) + b2;
    Digits2Less(a.second, b.second, [], []);
    assert Digits2(a.second) + [] == Digits2(a.second) && Digits2(b.second) + [] == Digits2(b.second);
    LexLessIrreflexive([]);
    Digits2Less(a.minute, b.minute, Digits2(a.second), Digits2(b.second));
    Digits2Less(a.hour, b.hour, a5, b5);
    LexLessConcat("_", "_", a4, b4);
    LexLessIrreflexive("_");
    Digits2Less(a.day, b.day, "_" + a4, "_" + b4);
    Digits2Less(a.month, b.month, a3, b3);
    Digits2Less(a.year % 100, b.year % 100, a2, b2);
    Digits2Less(a.year / 100, b.year / 100, a1, b1);
    assert a.year < b.year <==> a.year / 100 < b.year / 100 || (a.year / 100 == b.year / 100 && a.year % 100 < b.year % 100);
    assert a.year == b.year <==> a.year / 100 == b.year / 100 && a.year % 100 == b.year % 100;
  }

  // ===========================================================================
  // Backup file names
  // ===========================================================================

  /** A name the `backup_*.zip` pattern matches. */
  predicate IsBackupFileName(name: string)
  {
    StartsWith(name, BackupPrefix) && EndsWith(name, BackupSuffix)
  }

  /** The name of the backup made at moment `t`. */
  function BackupName(t: Timestamp): (r: string)
    requires ValidTimestamp(t)
  {
    BackupPrefix + (FormatTimestamp(t) + BackupSuffix)
  }

  /** The prefix and the suffix of a backup name do not overlap, and its stem
      is the name without `.zip`. */
  lemma BackupNameStem(name: string)
    requires IsBackupFileName(name)
    ensures |name| >= |BackupPrefix| + |BackupSuffix|
    ensures Stem(name) == name[..|name| - |BackupSuffix|]
  {
    assert name[|name| - 4] == '.';
    assert forall i :: 0 <= i < 7 ==> name[i] == BackupPrefix[i] && BackupPrefix[i] != '.';
    assert name == name[..|name| - 4] + "." + "zip";
    StemOfExtension(name[..|name| - 4], "zip");
  }

  /** The moment a backup name records: its stem without the `backup_`
      prefix, parsed as a timestamp; `None` when it does not parse. */
  function StampOf(name: string): Option<Timestamp>
    requires IsBackupFileName(name)
  {
    BackupNameStem(name);
    ParseTimestamp(Stem(name)[|BackupPrefix|..])
  }

  /** The name of a backup records the moment it was made. */
  lemma StampOfBackupName(t: Timestamp)
    requires ValidTimestamp(t)
    ensures IsBackupFileName(BackupName(t))
    ensures StampOf(BackupName(t)) == Some(t)
  {
    var name := BackupName(t);
    var f := FormatTimestamp(t);
    var head := BackupPrefix + f;
    assert name == head + BackupSuffix;
    assert name[..|BackupPrefix|] == BackupPrefix;
    assert name[|name| - |BackupSuffix|..] == BackupSuffix;
    assert name == head + "." + "zip";
    StemOfExtension(head, "zip");
    assert head[|BackupPrefix|..] == f;
    ParseFormat(t);
  }

  /** A backup name that records a moment is the name of that moment. */
  lemma BackupNameOfStamp(name: string)
    requires IsBackupFileName(name) && StampOf(name).Some?
    ensures name == BackupName(StampOf(name).value)
  {
    BackupNameStem(name);
    var text := Stem(name)[|BackupPrefix|..];
    FormatParse(text);
    assert name == name[..|name| - 4] + name[|name| - 4..];
    assert name[..|name| - 4] == BackupPrefix + text;
  }

  /** Backup names compare as the moments they record. */
  lemma NameOrderIsTimeOrder(a: Timestamp, b: Timestamp)
    requires ValidTimestamp(a) && ValidTimestamp(b)
    ensures LexLess(BackupName(a), BackupName(b)) <==> Earlier(a, b)
  {
    LexLessConcat(BackupPrefix, BackupPrefix, FormatTimestamp(a) + BackupSuffix, FormatTimestamp(b) + BackupSuffix);
    LexLessIrreflexive(BackupPrefix);
    LexLessConcat(FormatTimestamp(a), FormatTimestamp(b), BackupSuffix, BackupSuffix);
    LexLessIrreflexive(BackupSuffix);
    FormatOrder(a, b);
  }

  // ===========================================================================
  // Rolling retention
  // ===========================================================================

  /** The files of a backup directory that the `backup_*.zip` pattern matches. */
  function BackupFiles(files: set<string>): set<string>
  {
    set n | n in files && IsBackupFileName(n)
  }

  /** How many of `existing` backups go before a new one is made: enough to
      leave `max - 1` when there are at least `max > 0`, all of them when
      `max` is 0, none otherwise. */
  function DeleteCount(existing: nat, max: int): (r: nat)
    ensures r <= existing
  {
    if existing >= max && max > 0 then existing - max + 1
    else if max == 0 then existing
    else 0
  }

  /** The backups retention deletes: the first ones in name order. */
  function Doomed(files: set<string>, max: int): seq<string>
  {
    var existing := SortedSet(BackupFiles(files));
    existing[..DeleteCount(|existing|, max)]
  }

  /** The names a list holds. */
  function Elems(xs: seq<string>): set<string>
  {
    set x | x in xs
  }

  lemma ElemsStep(xs: seq<string>, i: int)
    requires 0 <= i <= |xs|
    ensures Elems(xs[..0]) == {}
    ensures i < |xs| ==> Elems(xs[..i + 1]) == Elems(xs[..i]) + {xs[i]}
  {
    if i < |xs| {
      assert xs[..i + 1] == xs[..i] + [xs[i]];
    }
  }

  /** Deleting the next doomed name from what is left gives what is left after it. */
  lemma DeleteStep(original: map<string, set<string>>, kind: string, start: set<string>, xs: seq<string>, i: int)
    requires 0 <= i < |xs|
    ensures var left := start - Elems(xs[..i]);
      original[kind := left][kind := left - {xs[i]}] == original[kind := start - Elems(xs[..i + 1])]
  {
    ElemsStep(xs, i);
    var left := start - Elems(xs[..i]);
    assert left - {xs[i]} == start - Elems(xs[..i + 1]);
  }

  /** The files left after retention. */
  function Retained(files: set<string>, max: int): set<string>
  {
    files - Elems(Doomed(files, max))
  }

  /** A strictly sorted list holds each name once. */
  lemma SortedDistinct(xs: seq<string>)
    requires StrictlySorted(xs)
    ensures forall i, j :: 0 <= i < |xs| && 0 <= j < |xs| && i != j ==> xs[i] != xs[j]
  {
    forall i, j | 0 <= i < |xs| && 0 <= j < |xs| && i != j ensures xs[i] != xs[j] {
      LexLessIrreflexive(xs[i]);
      if i < j {
        assert LexLess(xs[i], xs[j]);
      } else {
        assert LexLess(xs[j], xs[i]);
      }
    }
  }

  /** The backups left by retention are the last ones in name order. */
  lemma RetainedInOrder(files: set<string>, max: int)
    ensures var existing := SortedSet(BackupFiles(files));
      SortedSet(BackupFiles(Retained(files, max))) == existing[DeleteCount(|existing|, max)..]
  {
    var existing := SortedSet(BackupFiles(files));
    var k := DeleteCount(|existing|, max);
    var kept := existing[k..];
    var doomed := Doomed(files, max);
    assert doomed == existing[..k];
    SortedDistinct(existing);
    forall x ensures x in BackupFiles(Retained(files, max)) <==> x in kept {
      if x in BackupFiles(files) {
        assert x in existing;
        var j :| 0 <= j < |existing| && existing[j] == x;
        if j < k {
          assert x in doomed;
          assert x !in kept;
        } else {
          assert x in kept;
          assert x !in doomed;
        }
      } else {
        assert x !in existing;
      }
    }
    assert StrictlySorted(kept);
    StrictlySortedUnique(SortedSet(BackupFiles(Retained(files, max))), kept);
  }

  /** Retention leaves `max - 1` backups when there were at least `max > 0`,
      none when `max` is 0, and every file when there were fewer than `max`
      or `max` is negative; it never touches a file the pattern does not match. */
  lemma RetentionCount(files: set<string>, max: int)
    ensures Retained(files, max) <= files
    ensures forall n :: !IsBackupFileName(n) ==> (n in Retained(files, max) <==> n in files)
    ensures max > 0 && |BackupFiles(files)| >= max ==> |BackupFiles(Retained(files, max))| == max - 1
    ensures max == 0 ==> BackupFiles(Retained(files, max)) == {}
    ensures max < 0 || |BackupFiles(files)| < max ==> Retained(files, max) == files
  {
    DoomedAreBackups(files, max);
    RetainedBackupCount(files, max);
    var existing := SortedSet(BackupFiles(files));
    if DeleteCount(|existing|, max) == 0 {
      assert Doomed(files, max) == [];
      assert Elems([]) == {};
    }
  }

  /** Retention deletes only backups. */
  lemma DoomedAreBackups(files: set<string>, max: int)
    ensures forall n :: n in Doomed(files, max) ==> IsBackupFileName(n) && n in files
  {
    var existing := SortedSet(BackupFiles(files));
    forall n | n in Doomed(files, max) ensures IsBackupFileName(n) && n in files {
      assert n in existing;
    }
  }

  /** Retention leaves the backups beyond the first `DeleteCount`. */
  lemma RetainedBackupCount(files: set<string>, max: int)
    ensures |SortedSet(BackupFiles(files))| == |BackupFiles(files)|
    ensures |BackupFiles(Retained(files, max))| == |BackupFiles(files)| - DeleteCount(|BackupFiles(files)|, max)
  {
    RetainedInOrder(files, max);
    assert |SortedSet(BackupFiles(Retained(files, max)))| == |BackupFiles(Retained(files, max))|;
  }

  /** Every backup retention deletes sorts before every backup it keeps. */
  lemma RetentionKeepsLast(files: set<string>, max: int)
    ensures forall d, n :: d in Doomed(files, max) && n in BackupFiles(Retained(files, max)) ==> LexLess(d, n)
  {
    RetainedInOrder(files, max);
    var existing := SortedSet(BackupFiles(files));
    var k := DeleteCount(|existing|, max);
    forall d, n | d in Doomed(files, max) && n in BackupFiles(Retained(files, max)) ensures LexLess(d, n) {
      var i :| 0 <= i < k && existing[i] == d;
      assert n in SortedSet(BackupFiles(Retained(files, max)));
      var j :| k <= j < |existing| && existing[j] == n;
    }
  }

  /** Of two backups named after moments, the one whose name sorts first is the older. */
  lemma OlderByName(d: string, n: string)
    requires IsBackupFileName(d) && IsBackupFileName(n) && StampOf(d).Some? && StampOf(n).Some?
    requires LexLess(d, n)
    ensures Earlier(StampOf(d).value, StampOf(n).value)
  {
    BackupNameOfStamp(d);
    BackupNameOfStamp(n);
    NameOrderIsTimeOrder(StampOf(d).value, StampOf(n).value);
  }

  /** A backup name that records a moment. */
  predicate Stamped(name: string)
  {
    IsBackupFileName(name) && StampOf(name).Some?
  }

  /** When backups are named after the moments they were made, retention
      deletes the oldest: a deleted backup was made before a kept one. */
  lemma RetentionKeepsNewest(files: set<string>, max: int, d: string, n: string)
    requires d in Doomed(files, max) && n in BackupFiles(Retained(files, max))
    requires Stamped(d) && Stamped(n)
    ensures Earlier(StampOf(d).value, StampOf(n).value)
  {
    RetentionKeepsLast(files, max);
    OlderByName(d, n);
  }

  /** After retention and one new backup, at most `max > 0` backups remain,
      whatever there was before. */
  lemma RollingBound(files: set<string>, max: int, newName: string)
    requires max > 0 && IsBackupFileName(newName)
    ensures |BackupFiles(Retained(files, max) + {newName})| <= max
  {
    RetentionCount(files, max);
    var kept := BackupFiles(Retained(files, max));
    assert BackupFiles(Retained(files, max) + {newName}) == kept + {newName};
    if |BackupFiles(files)| < max {
      assert kept == BackupFiles(files);
    }
  }

  // ===========================================================================
  // Aliases
  // ===========================================================================

  /** The key of a backup in the alias table: `<kind>/<file name>`. */
  function AliasKey(kind: string, fileName: string): string
  {
    kind + "/" + fileName
  }

  /** The alias table as loaded: the stored table, or an empty one when the
      file is missing or unreadable. */
  function LoadAliases(stored: Option<map<string, string>>): map<string, string>
  {
    stored.GetOr(map[])
  }

  /** The stored table after `remove_backup_alias` for each of `names`: a key
      that is present goes, and a table that could not be loaded stays as it was. */
  function WithoutAliases(stored: Option<map<string, string>>, kind: string, names: seq<string>): (r: Option<map<string, string>>)
    ensures r.None? <==> stored.None?
    ensures forall key :: key in LoadAliases(r) <==> key in LoadAliases(stored) && forall n :: n in names ==> key != AliasKey(kind, n)
    ensures forall key :: key in LoadAliases(r) ==> LoadAliases(r)[key] == LoadAliases(stored)[key]
  {
    match stored
    case None => None
    case Some(m) => Some(m - set n | n in names :: AliasKey(kind, n))
  }

  /** The alias a listing shows for a backup, if any. */
  function AliasOf(aliases: map<string, string>, kind: string, fileName: string): Option<string>
  {
    var key := AliasKey(kind, fileName);
    if key in aliases then Some(aliases[key]) else None
  }

  /** Removing the aliases of no names leaves the table as it is; removing
      those of the first `i` names and then of the next one removes those of
      the first `i + 1`. */
  lemma WithoutAliasesStep(stored: Option<map<string, string>>, kind: string, names: seq<string>, i: int)
    requires 0 <= i <= |names|
    ensures WithoutAliases(stored, kind, names[..0]) == stored
    ensures i < |names| ==> WithoutAliases(WithoutAliases(stored, kind, names[..i]), kind, [names[i]]) ==
                              WithoutAliases(stored, kind, names[..i + 1])
  {
    if stored.Some? {
      assert (set n | n in names[..0] :: AliasKey(kind, n)) == {};
      assert stored.value - {} == stored.value;
    }
    if stored.Some? && i < |names| {
      var a := WithoutAliases(WithoutAliases(stored, kind, names[..i]), kind, [names[i]]);
      var b := WithoutAliases(stored, kind, names[..i + 1]);
      assert names[..i + 1] == names[..i] + [names[i]];
      assert forall m :: m in names[..i + 1] <==> m in names[..i] || m == names[i];
      assert LoadAliases(a) == LoadAliases(b);
    }
  }

  /** Keys of kinds without a slash tell the kind and the file name apart:
      an alias set for one backup never lands on another. */
  lemma AliasKeyInjective(k1: string, f1: string, k2: string, f2: string)
    requires '/' !in k1 && '/' !in k2
    ensures AliasKey(k1, f1) == AliasKey(k2, f2) <==> k1 == k2 && f1 == f2
  {
    if AliasKey(k1, f1) == AliasKey(k2, f2) {
      var key := AliasKey(k1, f1);
      assert key[|k1|] == '/' && forall i :: 0 <= i < |k1| ==> key[i] == k1[i];
      assert key == AliasKey(k2, f2);
      assert key[|k2|] == '/' && forall i :: 0 <= i < |k2| ==> key[i] == k2[i];
      assert |k1| == |k2|;
      assert k1 == key[..|k1|] == k2;
      assert f1 == key[|k1| + 1..] == f2;
    }
  }

  /** After an alias is set for a backup, the listing shows it, and removing
      it again leaves the table without that key and otherwise as loaded. */
  lemma AliasSetThenRemoved(stored: Option<map<string, string>>, kind: string, fileName: string, alias: string)
    ensures var added := Some(LoadAliases(stored)[AliasKey(kind, fileName) := alias]);
      AliasOf(LoadAliases(added), kind, fileName) == Some(alias) &&
      WithoutAliases(added, kind, [fileName]) == Some(LoadAliases(stored) - {AliasKey(kind, fileName)})
  {
    var key := AliasKey(kind, fileName);
    var added := Some(LoadAliases(stored)[key := alias]);
    assert (set n | n in [fileName] :: AliasKey(kind, n)) == {key};
    assert LoadAliases(added) - {key} == LoadAliases(stored) - {key};
  }

  // ===========================================================================
  // Listing
  // ===========================================================================

  /** One line of the backup list. */
  datatype BackupEntry = BackupEntry(kind: string, fileName: string, stamp: Timestamp, alias: Option<string>)

  /** What a listing shows for a file of a backup directory. */
  predicate Describes(e: BackupEntry, aliases: map<string, string>)
  {
    IsBackupFileName(e.fileName) && StampOf(e.fileName) == Some(e.stamp) &&
    e.alias == AliasOf(aliases, e.kind, e.fileName)
  }

  /** The entries of the backups of one kind among `names`, in their order;
      a name whose moment does not parse is skipped. */
  function EntriesOf(kind: string, names: seq<string>, aliases: map<string, string>): seq<BackupEntry>
    decreases |names|
  {
    if names == [] then []
    else
      var rest := EntriesOf(kind, names[..|names| - 1], aliases);
      var name := names[|names| - 1];
      if IsBackupFileName(name) && StampOf(name).Some? then
        rest + [BackupEntry(kind, name, StampOf(name).value, AliasOf(aliases, kind, name))]
      else rest
  }

  /** An entry is listed exactly when its file is among `names` and the entry describes it. */
  lemma {:induction false} EntriesOfMembers(kind: string, names: seq<string>, aliases: map<string, string>)
    ensures forall e :: e in EntriesOf(kind, names, aliases) <==>
              e.kind == kind && e.fileName in names && Describes(e, aliases)
    decreases |names|
  {
    if names != [] {
      var init := names[..|names| - 1];
      EntriesOfMembers(kind, init, aliases);
      assert names == init + [names[|names| - 1]];
      forall e ensures e in EntriesOf(kind, names, aliases) <==>
                         e.kind == kind && e.fileName in names && Describes(e, aliases)
      {
        assert e.fileName in names <==> e.fileName in init || e.fileName == names[|names| - 1];
      }
    }
  }

  /** Distinct file names give distinct entries. */
  lemma {:induction false} EntriesOfDistinct(kind: string, names: seq<string>, aliases: map<string, string>)
    requires Distinct(names)
    ensures Distinct(EntriesOf(kind, names, aliases))
    decreases |names|
  {
    if names != [] {
      var init := names[..|names| - 1];
      var last := names[|names| - 1];
      assert Distinct(init) by {
        forall i, j | 0 <= i < j < |init| ensures init[i] != init[j] {
          assert init[i] == names[i] && init[j] == names[j];
        }
      }
      EntriesOfDistinct(kind, init, aliases);
      EntriesOfMembers(kind, init, aliases);
      var rest := EntriesOf(kind, init, aliases);
      if IsBackupFileName(last) && StampOf(last).Some? {
        var e := BackupEntry(kind, last, StampOf(last).value, AliasOf(aliases, kind, last));
        assert last !in init by {
          forall i | 0 <= i < |init| ensures init[i] != last {
            assert init[i] == names[i];
          }
        }
        DistinctAppend(rest, [e]);
      }
    }
  }

  /** The entries of one kind's sorted file names, in order, skipping names
      outside `backup_*.zip` and names whose moment does not parse. */
  method ListKind(kind: string, names: seq<string>, aliases: map<string, string>) returns (entries: seq<BackupEntry>)
    ensures entries == EntriesOf(kind, names, aliases)
  {
    entries := [];
    var i := 0;
    while i < |names|
      invariant 0 <= i <= |names|
      invariant entries == EntriesOf(kind, names[..i], aliases)
    {
      var name := names[i];
      assert names[..i + 1][..i] == names[..i];
      if StartsWith(name, BackupPrefix) && EndsWith(name, BackupSuffix) {
        var stamp := StampOf(name);
        if stamp.Some? {
          entries := entries + [BackupEntry(kind, name, stamp.value, AliasOf(aliases, kind, name))];
        }
      }
      i := i + 1;
    }
    assert names[..|names|] == names;
  }

  /** Newest first: `b` was not made after `a`. */
  predicate NewerOrSame(a: BackupEntry, b: BackupEntry)
  {
    !Earlier(a.stamp, b.stamp)
  }

  lemma NewerOrSamePreorder()
    ensures TotalPreorder(NewerOrSame)
  {
  }

  // ===========================================================================
  // Creating a backup
  // ===========================================================================

  /** Whether `create_backup` goes as far as writing an archive. The kind must
      be supported. Outside test mode an automatic or pre-restore backup must
      be enabled, its lock must be free and its cooldown must have passed since
      the last one ended. A manual backup, test mode or not, must be enabled
      and its limit must be neither 0 nor reached. */
  predicate Admitted(kind: string, testMode: bool, config: Config, locked: bool, lastEnd: Option<int>,
                     now: int, existing: nat)
  {
    kind in SupportedKinds &&
    if kind == AutomaticKind && !testMode then
      EnableAutomaticBackups(config) && !locked &&
      !(lastEnd.Some? && now - lastEnd.value < AutomaticBackupCooldown(config))
    else if kind == PreRestoreKind && !testMode then
      EnablePreRestoreBackups(config) && !locked &&
      !(lastEnd.Some? && now - lastEnd.value < IntSetting(config, PreRestoreCooldownKey, 60))
    else if kind == ManualKind then
      var max := MaxManualBackups(config);
      EnableManualBackups(config) && !(max > 0 && existing >= max) && max != 0
    else true
  }

  /** The limit rolling retention applies before an admitted backup: the
      automatic limit, or the pre-restore limit read without its floor;
      none for manual backups or in test mode. */
  function RotationLimit(kind: string, testMode: bool, config: Config): Option<int>
  {
    if kind == AutomaticKind && !testMode then Some(MaxAutomaticBackups(config))
    else if kind == PreRestoreKind && !testMode then Some(IntSetting(config, MaxPreRestoreKey, 10))
    else None
  }

  /** A kind outside the three is always refused. */
  lemma UnsupportedRefused(kind: string, testMode: bool, config: Config, locked: bool, lastEnd: Option<int>,
                           now: int, existing: nat)
    requires kind !in SupportedKinds
    ensures !Admitted(kind, testMode, config, locked, lastEnd, now, existing)
  {
  }

  /** A manual backup is admitted exactly when manual backups are enabled and
      the limit is negative (no limit) or above the number of existing ones. */
  lemma ManualAdmission(testMode: bool, config: Config, locked: bool, lastEnd: Option<int>, now: int, existing: nat)
    ensures Admitted(ManualKind, testMode, config, locked, lastEnd, now, existing) <==>
              EnableManualBackups(config) && (MaxManualBackups(config) < 0 || existing < MaxManualBackups(config))
  {
  }

  /** An automatic or pre-restore backup outside test mode is skipped while
      the lock is held and within the cooldown after the last one ended. */
  lemma GuardedKindsSkipped(kind: string, config: Config, locked: bool, lastEnd: int, now: int, existing: nat)
    requires kind == AutomaticKind || kind == PreRestoreKind
    requires locked || now - lastEnd < (if kind == AutomaticKind then AutomaticBackupCooldown(config)
                                        else IntSetting(config, PreRestoreCooldownKey, 60))
    ensures !Admitted(kind, false, config, locked, Some(lastEnd), now, existing)
  {
  }

  /** A manual backup never brings the number of backups above a positive limit. */
  lemma ManualBound(testMode: bool, config: Config, locked: bool, lastEnd: Option<int>, now: int,
                    files: set<string>, newName: string)
    requires Admitted(ManualKind, testMode, config, locked, lastEnd, now, |BackupFiles(files)|)
    requires MaxManualBackups(config) > 0 && IsBackupFileName(newName)
    ensures |BackupFiles(files + {newName})| <= MaxManualBackups(config)
  {
    assert BackupFiles(files + {newName}) == BackupFiles(files) + {newName};
  }

  // ===========================================================================
  // The backups directory
  // ===========================================================================

  /** A kind's files once rotation under `limit` has run; unchanged without a limit. */
  function AfterRetention(files: set<string>, limit: Option<int>): set<string>
  {
    if limit.Some? then Retained(files, limit.value) else files
  }

  /** The alias table once rotation under `limit` has run: only pre-restore
      backups lose their aliases with their files. */
  function AliasesAfterRetention(aliasFile: Option<map<string, string>>, kind: string, files: set<string>,
                                 limit: Option<int>): Option<map<string, string>>
  {
    if kind == PreRestoreKind && limit.Some? then WithoutAliases(aliasFile, kind, Doomed(files, limit.value))
    else aliasFile
  }

  /** The backups directory: the regular files of each kind's sub-directory,
      the alias table file, and the moments the last automatic and
      pre-restore backups ended. */
  class BackupStore {
    var folders: map<string, set<string>>
    var aliasFile: Option<map<string, string>>
    var lastAutomaticEnd: Option<int>
    var lastPreRestoreEnd: Option<int>

    /** The directory as found when the application starts; no backup has
        ended yet in this run. */
    constructor (folders: map<string, set<string>>, aliasFile: Option<map<string, string>>)
      ensures this.folders == folders && this.aliasFile == aliasFile
      ensures lastAutomaticEnd == None && lastPreRestoreEnd == None
    {
      this.folders := folders;
      this.aliasFile := aliasFile;
      lastAutomaticEnd := None;
      lastPreRestoreEnd := None;
    }

    /** The files of one kind's sub-directory; none when it does not exist. */
    function Folder(kind: string): set<string>
      reads this
    {
      if kind in folders then folders[kind] else {}
    }

    /** When the last backup of a guarded kind ended. */
    function LastEnd(kind: string): Option<int>
      reads this
    {
      if kind == AutomaticKind then lastAutomaticEnd
      else if kind == PreRestoreKind then lastPreRestoreEnd
      else None
    }

    /** `add_backup_alias`: a file name outside `backup_*.zip` or a blank
        alias is refused; otherwise the stripped alias is stored under
        `<kind>/<file name>` in the table as loaded. */
    method AddBackupAlias(kind: string, fileName: string, alias: string) returns (ok: bool)
      modifies this
      ensures ok <==> IsBackupFileName(fileName) && Strip(alias) != []
      ensures ok ==> aliasFile == Some(LoadAliases(old(aliasFile))[AliasKey(kind, fileName) := Strip(alias)])
      ensures !ok ==> aliasFile == old(aliasFile)
      ensures folders == old(folders)
      ensures lastAutomaticEnd == old(lastAutomaticEnd) && lastPreRestoreEnd == old(lastPreRestoreEnd)
    {
      if !StartsWith(fileName, BackupPrefix) || !EndsWith(fileName, BackupSuffix) {
        return false;
      }
      var stripped := Strip(alias);
      if stripped == [] {
        return false;
      }
      var aliases := LoadAliases(aliasFile);
      aliases := aliases[AliasKey(kind, fileName) := stripped];
      aliasFile := Some(aliases);
      ok := true;
    }

    /** `remove_backup_alias`: true and the key deleted when the loaded table
        has it; false and the file untouched otherwise. */
    method RemoveBackupAlias(kind: string, fileName: string) returns (ok: bool)
      modifies this
      ensures ok <==> AliasKey(kind, fileName) in LoadAliases(old(aliasFile))
      ensures ok ==> aliasFile == Some(LoadAliases(old(aliasFile)) - {AliasKey(kind, fileName)})
      ensures !ok ==> aliasFile == old(aliasFile)
      ensures aliasFile == WithoutAliases(old(aliasFile), kind, [fileName])
      ensures folders == old(folders)
      ensures lastAutomaticEnd == old(lastAutomaticEnd) && lastPreRestoreEnd == old(lastPreRestoreEnd)
    {
      var key := AliasKey(kind, fileName);
      var aliases := LoadAliases(aliasFile);
      assert (set n | n in [fileName] :: AliasKey(kind, n)) == {key};
      if key in aliases {
        aliasFile := Some(aliases - {key});
        ok := true;
      } else {
        assert aliasFile.Some? ==> aliasFile.value - {key} == aliasFile.value;
        ok := false;
      }
    }

    /** Rolling retention: the backups of `kind` are sorted by name and the
        first `DeleteCount` of them deleted, one by one, with their aliases
        when `dropAliases` is set. */
    method Rotate(kind: string, max: int, dropAliases: bool)
      modifies this
      ensures folders == old(folders)[kind := Retained(old(Folder(kind)), max)]
      ensures aliasFile == if dropAliases then WithoutAliases(old(aliasFile), kind, Doomed(old(Folder(kind)), max))
                           else old(aliasFile)
      ensures lastAutomaticEnd == old(lastAutomaticEnd) && lastPreRestoreEnd == old(lastPreRestoreEnd)
    {
      var start := Folder(kind);
      var existing := SortedSet(BackupFiles(start));
      var count := DeleteCount(|existing|, max);
      ghost var startAliases := aliasFile;
      ghost var original := folders;
      folders := folders[kind := start];
      ElemsStep(existing, 0);
      assert start - {} == start;
      WithoutAliasesStep(startAliases, kind, existing, 0);
      for i := 0 to count
        invariant folders == original[kind := start - Elems(existing[..i])]
        invariant aliasFile == if dropAliases then WithoutAliases(startAliases, kind, existing[..i]) else startAliases
        invariant lastAutomaticEnd == old(lastAutomaticEnd) && lastPreRestoreEnd == old(lastPreRestoreEnd)
      {
        DeleteBackup(kind, existing[i], dropAliases);
        DeleteStep(original, kind, start, existing, i);
        WithoutAliasesStep(startAliases, kind, existing, i);
      }
      assert existing[..count] == Doomed(start, max);
    }

    /** Deletes one backup file, and its alias when `dropAlias` is set. */
    method DeleteBackup(kind: string, name: string, dropAlias: bool)
      requires kind in folders
      modifies this
      ensures folders == old(folders)[kind := old(folders[kind]) - {name}]
      ensures aliasFile == if dropAlias then WithoutAliases(old(aliasFile), kind, [name]) else old(aliasFile)
      ensures lastAutomaticEnd == old(lastAutomaticEnd) && lastPreRestoreEnd == old(lastPreRestoreEnd)
    {
      if dropAlias {
        var _ := RemoveBackupAlias(kind, name);
      }
      folders := folders[kind := folders[kind] - {name}];
    }

    /** `create_backup` apart from writing the archive. A refused or skipped
        backup changes nothing. An admitted one first applies rolling
        retention (deleting the pre-restore aliases with their backups), then
        adds `backup_<moment>.zip` when the archive was written (`archived`)
        and records when a guarded kind ended. */
    method CreateBackup(kind: string, testMode: bool, config: Config, locked: bool, now: int,
                        stamp: Timestamp, archived: bool, endTime: int) returns (created: Option<string>)
      requires ValidTimestamp(stamp)
      modifies this
      ensures !Admitted(kind, testMode, config, locked, old(LastEnd(kind)), now, |BackupFiles(old(Folder(kind)))|) ==>
                created == None && folders == old(folders) && aliasFile == old(aliasFile) &&
                lastAutomaticEnd == old(lastAutomaticEnd) && lastPreRestoreEnd == old(lastPreRestoreEnd)
      ensures Admitted(kind, testMode, config, locked, old(LastEnd(kind)), now, |BackupFiles(old(Folder(kind)))|) ==>
                var limit := RotationLimit(kind, testMode, config);
                var rotated := AfterRetention(old(Folder(kind)), limit);
                created == (if archived then Some(BackupName(stamp)) else None) &&
                folders == old(folders)[kind := if archived then rotated + {BackupName(stamp)} else rotated] &&
                aliasFile == AliasesAfterRetention(old(aliasFile), kind, old(Folder(kind)), limit) &&
                lastAutomaticEnd == (if archived && kind == AutomaticKind && !testMode then Some(endTime)
                                     else old(lastAutomaticEnd)) &&
                lastPreRestoreEnd == (if archived && kind == PreRestoreKind && !testMode then Some(endTime)
                                      else old(lastPreRestoreEnd))
    {
      if !Admitted(kind, testMode, config, locked, LastEnd(kind), now, |BackupFiles(Folder(kind))|) {
        return None;
      }
      created := AdmittedBackup(kind, RotationLimit(kind, testMode, config), testMode, stamp, archived, endTime);
    }

    /** An admitted backup: retention under `limit`, then the new file and
        the end moment when the archive was written. */
    method AdmittedBackup(kind: string, limit: Option<int>, testMode: bool, stamp: Timestamp, archived: bool,
                          endTime: int) returns (created: Option<string>)
      requires ValidTimestamp(stamp)
      modifies this
      ensures var rotated := AfterRetention(old(Folder(kind)), limit);
                created == (if archived then Some(BackupName(stamp)) else None) &&
                folders == old(folders)[kind := if archived then rotated + {BackupName(stamp)} else rotated] &&
                aliasFile == AliasesAfterRetention(old(aliasFile), kind, old(Folder(kind)), limit)
      ensures lastAutomaticEnd == (if archived && kind == AutomaticKind && !testMode then Some(endTime)
                                   else old(lastAutomaticEnd))
      ensures lastPreRestoreEnd == (if archived && kind == PreRestoreKind && !testMode then Some(endTime)
                                    else old(lastPreRestoreEnd))
    {
      ApplyRetention(kind, limit);
      if !archived {
        return None;
      }
      var name := BackupName(stamp);
      folders := folders[kind := folders[kind] + {name}];
      if kind == AutomaticKind && !testMode {
        lastAutomaticEnd := Some(endTime);
      } else if kind == PreRestoreKind && !testMode {
        lastPreRestoreEnd := Some(endTime);
      }
      created := Some(name);
    }

    /** The retention step of `create_backup`: rotation when the kind has a
        limit, the pre-restore aliases deleted with their backups. */
    method ApplyRetention(kind: string, limit: Option<int>)
      modifies this
      ensures folders == old(folders)[kind := AfterRetention(old(Folder(kind)), limit)]
      ensures aliasFile == AliasesAfterRetention(old(aliasFile), kind, old(Folder(kind)), limit)
      ensures lastAutomaticEnd == old(lastAutomaticEnd) && lastPreRestoreEnd == old(lastPreRestoreEnd)
    {
      if limit.Some? {
        Rotate(kind, limit.value, kind == PreRestoreKind);
      } else {
        folders := folders[kind := Folder(kind)];
      }
    }

    /** `delete_manual_backup`: false when the file is not there; otherwise
        the file goes, with its alias. */
    method DeleteManualBackup(fileName: string) returns (ok: bool)
      modifies this
      ensures ok <==> fileName in old(Folder(ManualKind))
      ensures ok ==> folders == old(folders)[ManualKind := old(Folder(ManualKind)) - {fileName}] &&
                     aliasFile == WithoutAliases(old(aliasFile), ManualKind, [fileName])
      ensures !ok ==> folders == old(folders) && aliasFile == old(aliasFile)
      ensures lastAutomaticEnd == old(lastAutomaticEnd) && lastPreRestoreEnd == old(lastPreRestoreEnd)
    {
      if fileName !in Folder(ManualKind) {
        return false;
      }
      folders := folders[ManualKind := Folder(ManualKind) - {fileName}];
      var _ := RemoveBackupAlias(ManualKind, fileName);
      ok := true;
    }

    /** `list_backups`: every backup of every kind whose name records a moment,
        with its alias, newest first. */
    method ListBackups() returns (r: seq<BackupEntry>)
      ensures SortedBy(r, NewerOrSame)
      ensures Distinct(r)
      ensures forall e :: e in r <==>
                e.kind in SupportedKinds && e.fileName in Folder(e.kind) && Describes(e, LoadAliases(aliasFile))
    {
      var aliases := LoadAliases(aliasFile);
      var all: seq<BackupEntry> := [];
      for k := 0 to |SupportedKinds|
        invariant forall e :: e in all <==>
                    e.kind in SupportedKinds[..k] && e.fileName in Folder(e.kind) && Describes(e, aliases)
        invariant Distinct(all)
      {
        var kind := SupportedKinds[k];
        var names := SortedSet(Folder(kind));
        var entries := ListKind(kind, names, aliases);
        EntriesOfMembers(kind, names, aliases);
        StrictlySortedDistinct(names);
        EntriesOfDistinct(kind, names, aliases);
        KindsApart(all, entries, k);
        DistinctAppend(all, entries);
        ListedStep(all, entries, k, aliases);
        all := all + entries;
      }
      assert SupportedKinds[..|SupportedKinds|] == SupportedKinds;
      NewerOrSamePreorder();
      SortByMembers(all, NewerOrSame);
      SortByDistinct(all, NewerOrSame);
      r := SortBy(all, NewerOrSame);
    }

    /** The entries listed so far are of earlier kinds, so none is an entry of kind `k`. */
    lemma KindsApart(all: seq<BackupEntry>, entries: seq<BackupEntry>, k: nat)
      requires k < |SupportedKinds|
      requires forall e :: e in all ==> e.kind in SupportedKinds[..k]
      requires forall e :: e in entries ==> e.kind == SupportedKinds[k]
      ensures forall e :: e in all ==> e !in entries
    {
      assert SupportedKinds[k] !in SupportedKinds[..k];
    }

    /** Appending the entries of the next kind extends the listing to that kind. */
    lemma ListedStep(all: seq<BackupEntry>, entries: seq<BackupEntry>, k: nat, aliases: map<string, string>)
      requires k < |SupportedKinds|
      requires forall e :: e in all <==>
                 e.kind in SupportedKinds[..k] && e.fileName in Folder(e.kind) && Describes(e, aliases)
      requires forall e :: e in entries <==>
                 e.kind == SupportedKinds[k] && e.fileName in SortedSet(Folder(SupportedKinds[k])) && Describes(e, aliases)
      ensures forall e :: e in all + entries <==>
                e.kind in SupportedKinds[..k + 1] && e.fileName in Folder(e.kind) && Describes(e, aliases)
    {
      assert SupportedKinds[..k + 1] == SupportedKinds[..k] + [SupportedKinds[k]];
    }
  }
}
