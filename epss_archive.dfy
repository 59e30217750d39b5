/**
 * The on-disk side of the EPSS crawler in epss/EPSSCrawler.py: where a
 * day's score file is written (save_compressed_data) and how the last
 * archived day is recovered from the file names (retrieve_last_local_date).
 * Paths are relative to the crawler's storage_path.
 */
module EpssArchive {
  import opened Base
  import opened Text
  import opened Calendar
  import opened FileTree

  /** File contents; a downloaded .csv.gz body is kept as its sequence of bytes. */
  type Storage = Tree<char>

  const GzSuffix: string := ".csv.gz"

  /** storage/YYYY/MM/YYYY-MM-DD.csv.gz for the day with ordinal n. */
  function DatePath(n: int): (p: Path)
    requires IsOrdinal(n)
    ensures |p| == 3
  {
    var d := FromOrdinal(n);
    [Pad(d.year, 4), Pad(d.month, 2), FormatDate(n) + GzSuffix]
  }

  /** Different days are stored at different paths. */
  lemma DatePathInjective(a: int, b: int)
    requires IsOrdinal(a) && IsOrdinal(b) && DatePath(a) == DatePath(b)
    ensures a == b
  {
    assert (FormatDate(a) + GzSuffix)[..10] == FormatDate(a);
    assert (FormatDate(b) + GzSuffix)[..10] == FormatDate(b);
    FormatInjective(a, b);
  }

  /**
   * save_compressed_data(date_str, content): the directory is the first two
   * '-'-separated fields of date_str, the file name is date_str + '.csv.gz',
   * and any failure on the way is re-raised as RuntimeError.
   */
  function SaveCompressedData(fs: Storage, dateStr: string, content: string): (r: Result<Storage>)
    requires WellFormed(fs)
    ensures r.Ok? ==> WellFormed(r.value)
  {
    var parts := Split(dateStr, '-');
    if |parts| < 2 then Err(RuntimeError)
    else
      var dir := [parts[0], parts[1]];
      MakeDirsSpec(fs, dir, true);
      match MakeDirs(fs, dir, true)
      case Err(_) => Err(RuntimeError)
      case Ok(fs1) =>
        WriteFileMeets(fs1, dir + [dateStr + GzSuffix], content);
        match WriteFile(fs1, dir + [dateStr + GzSuffix], content)
        case Err(_) => Err(RuntimeError)
        case Ok(fs2) => Ok(fs2)
  }

  /**
   * Saving the day n succeeds unless a file blocks storage/YYYY or
   * storage/YYYY/MM or a directory sits where the day's file goes; on
   * success the day's file holds exactly the body, every earlier entry is
   * kept except that file, and the only entries added are those two
   * directories.
   */
  lemma SaveDay(fs: Storage, n: int, content: string)
    requires WellFormed(fs) && IsOrdinal(n)
    ensures SaveMeets(fs, FormatDate(n), content, DatePath(n))
  {
    var d := FromOrdinal(n);
    SplitFormat(n);
    var dir := [Pad(d.year, 4), Pad(d.month, 2)];
    assert DatePath(n) == dir + [FormatDate(n) + GzSuffix];
    SaveInto(fs, FormatDate(n), content, dir);
  }

  ghost predicate SaveMeets(fs: Storage, dateStr: string, content: string, p: Path)
    requires WellFormed(fs) && |p| == 3
  {
    var r := SaveCompressedData(fs, dateStr, content);
    && (r.Ok? <==> NoFileOn(fs, p[..2]) && !IsDir(fs, p))
    && (r.Ok? ==> WellFormed(r.value) && Read(r.value, p) == Some(content))
    && (r.Ok? ==> forall q :: q in fs && q != p ==> q in r.value && r.value[q] == fs[q])
    && (r.Ok? ==> forall q :: q in r.value && q !in fs ==> q == p || (r.value[q] == Dir && 0 < |q| <= 2 && q == p[..|q|]))
  }

  lemma SaveInto(fs: Storage, dateStr: string, content: string, dir: Path)
    requires WellFormed(fs)
    requires var parts := Split(dateStr, '-'); |parts| >= 2 && dir == [parts[0], parts[1]]
    ensures SaveMeets(fs, dateStr, content, dir + [dateStr + GzSuffix])
  {
    var p := dir + [dateStr + GzSuffix];
    assert p[..2] == dir;
    MakeDirsSpec(fs, dir, true);
    var r1 := MakeDirs(fs, dir, true);
    if r1.Ok? {
      var fs1 := r1.value;
      assert Parent(p) == dir;
      assert IsDir(fs1, p) <==> IsDir(fs, p);
    }
  }

  /** The stem of a '.csv.gz' name, file[:-7]. */
  function Stem(name: string): string
    requires EndsWith(name, GzSuffix)
  {
    name[..|name| - |GzSuffix|]
  }

  /**
   * An entry storage/Y/M/F that the nested listdir loops look at and keep:
   * Y and M are directories, F ends in '.csv.gz' and its stem parses as a date.
   */
  predicate Archived(fs: Storage, p: Path)
  {
    && |p| == 3 && p in fs
    && IsDir(fs, p[..1]) && IsDir(fs, p[..2])
    && EndsWith(p[2], GzSuffix) && ParseDate(Stem(p[2])).Ok?
  }

  function ArchivedDate(fs: Storage, p: Path): (n: int)
    requires Archived(fs, p)
    ensures IsOrdinal(n)
  {
    ParsedInRange(Stem(p[2]));
    ParseDate(Stem(p[2])).value
  }

  /** The dates of all archived day files. */
  ghost function LocalDates(fs: Storage): set<int>
  {
    set p | p in fs && Archived(fs, p) :: ArchivedDate(fs, p)
  }

  lemma LocalDatesAreOrdinals(fs: Storage)
    ensures forall d :: d in LocalDates(fs) ==> IsOrdinal(d)
  {
  }

  /** The latest archived date, None for an archive without day files. */
  ghost function LatestLocal(fs: Storage): (r: Option<int>)
    ensures r.None? <==> LocalDates(fs) == {}
    ensures r.Some? ==> r.value in LocalDates(fs) && forall d :: d in LocalDates(fs) ==> d <= r.value
  {
    if LocalDates(fs) == {} then None
    else
      MaxExists(LocalDates(fs));
      Some(var m :| m in LocalDates(fs) && forall d :: d in LocalDates(fs) ==> d <= m; m)
  }

  /** Only one value meets the contract of retrieve_last_local_date: LatestLocal. */
  lemma LatestIsUnique(fs: Storage, h: Option<int>)
    requires h.None? <==> LocalDates(fs) == {}
    requires h.Some? ==> h.value in LocalDates(fs) && forall d :: d in LocalDates(fs) ==> d <= h.value
    ensures h == LatestLocal(fs)
  {
  }

  lemma {:induction false} MaxExists(s: set<int>)
    requires s != {}
    ensures exists m :: m in s && forall d :: d in s ==> d <= m
    decreases |s|
  {
    assert (forall y :: y !in s) ==> s == {};
    var x :| x in s;
    var rest := s - {x};
    assert forall d :: d in s ==> d == x || d in rest;
    if rest != {} {
      MaxExists(rest);
      var m :| m in rest && forall d :: d in rest ==> d <= m;
      var top := if x > m then x else m;
      assert top in s && forall d :: d in s ==> d <= top;
    } else {
      assert x in s && forall d :: d in s ==> d <= x;
    }
  }

  /** Archived dates among the entries whose year directory is in ys. */
  ghost function DatesUnder(fs: Storage, ys: set<string>): set<int>
  {
    set p | p in fs && Archived(fs, p) && p[0] in ys :: ArchivedDate(fs, p)
  }

  /** Archived dates below storage/y among the month directories in ms. */
  ghost function DatesUnderYear(fs: Storage, y: string, ms: set<string>): set<int>
  {
    set p | p in fs && Archived(fs, p) && p[0] == y && p[1] in ms :: ArchivedDate(fs, p)
  }

  /** Archived dates below storage/y/m among the names in files. */
  ghost function DatesUnderMonth(fs: Storage, y: string, m: string, files: set<string>): set<int>
  {
    set p | p in fs && Archived(fs, p) && p[0] == y && p[1] == m && p[2] in files :: ArchivedDate(fs, p)
  }

  ghost predicate IsMaxOf(h: Option<int>, found: set<int>)
  {
    && (h.None? <==> found == {})
    && (h.Some? ==> h.value in found && forall d :: d in found ==> d <= h.value)
  }

  function Later(h: Option<int>, d: int): Option<int>
  {
    if h.None? || d > h.value then Some(d) else h
  }

  lemma AllYears(fs: Storage)
    ensures LocalDates(fs) == DatesUnder(fs, ListDir(fs, []))
  {
    forall p | p in fs && Archived(fs, p) ensures p[0] in ListDir(fs, []) {
      assert [] + [p[0]] == p[..1];
    }
  }

  lemma YearSplit(fs: Storage, ys: set<string>, y: string)
    requires y in ys
    ensures DatesUnder(fs, ys) == DatesUnder(fs, ys - {y}) + DatesUnderYear(fs, y, ListDir(fs, [y]))
    ensures !IsDir(fs, [y]) ==> DatesUnderYear(fs, y, ListDir(fs, [y])) == {}
  {
    forall p | p in fs && Archived(fs, p) && p[0] == y ensures p[1] in ListDir(fs, [y]) && p[..1] == [y] {
      assert [y] + [p[1]] == p[..2];
    }
  }

  lemma MonthSplit(fs: Storage, y: string, ms: set<string>, m: string)
    requires m in ms
    ensures DatesUnderYear(fs, y, ms) == DatesUnderYear(fs, y, ms - {m}) + DatesUnderMonth(fs, y, m, ListDir(fs, [y, m]))
    ensures !IsDir(fs, [y, m]) ==> DatesUnderMonth(fs, y, m, ListDir(fs, [y, m])) == {}
  {
    forall p | p in fs && Archived(fs, p) && p[0] == y && p[1] == m
      ensures p[2] in ListDir(fs, [y, m]) && p[..2] == [y, m]
    {
      assert [y, m] + [p[2]] == p;
    }
  }

  /** Nothing is archived below a year entry that is not a directory. */
  lemma NoYearDates(fs: Storage, y: string, found: set<int>)
    requires !IsDir(fs, [y])
    ensures found + DatesUnderYear(fs, y, ListDir(fs, [y])) == found
  {
    forall p | p in fs && |p| == 3 && p[0] == y ensures !Archived(fs, p) {
      assert p[..1] == [y];
    }
  }

  /** Nothing is archived below a month entry that is not a directory. */
  lemma NoMonthDates(fs: Storage, y: string, m: string, found: set<int>)
    requires !IsDir(fs, [y, m])
    ensures found + DatesUnderMonth(fs, y, m, ListDir(fs, [y, m])) == found
  {
    forall p | p in fs && |p| == 3 && p[0] == y && p[1] == m ensures !Archived(fs, p) {
      assert p[..2] == [y, m];
    }
  }

  /** The date a listed file name contributes: its stem's date when the name ends in '.csv.gz' and the stem parses. */
  function FileDates(f: string): set<int>
  {
    if EndsWith(f, GzSuffix) && ParseDate(Stem(f)).Ok? then {ParseDate(Stem(f)).value} else {}
  }

  lemma FileSplit(fs: Storage, y: string, m: string, files: set<string>, f: string)
    requires IsDir(fs, [y]) && IsDir(fs, [y, m]) && f in files && f in ListDir(fs, [y, m])
    ensures DatesUnderMonth(fs, y, m, files) == DatesUnderMonth(fs, y, m, files - {f}) + FileDates(f)
  {
    var p := [y, m, f];
    forall q | q in fs && Archived(fs, q) && q[0] == y && q[1] == m && q[2] == f ensures q == p {
      assert q == [q[0], q[1], q[2]];
    }
    if EndsWith(f, GzSuffix) && ParseDate(Stem(f)).Ok? {
      ArchivedEntry(fs, y, m, f);
    } else {
      assert p[2] == f;
    }
  }

  lemma ArchivedEntry(fs: Storage, y: string, m: string, f: string)
    requires IsDir(fs, [y]) && IsDir(fs, [y, m]) && f in ListDir(fs, [y, m])
    requires EndsWith(f, GzSuffix) && ParseDate(Stem(f)).Ok?
    ensures Archived(fs, [y, m, f]) && ArchivedDate(fs, [y, m, f]) == ParseDate(Stem(f)).value
  {
    var p := [y, m, f];
    assert p[..1] == [y] && p[..2] == [y, m] && [y, m] + [f] == p;
  }

  lemma Regroup(a: set<int>, b: set<int>, c: set<int>, d: set<int>)
    requires d == c + b
    ensures a + d == (a + b) + c
  {
  }

  lemma LaterIsMax(h: Option<int>, found: set<int>, d: int)
    requires IsMaxOf(h, found)
    ensures IsMaxOf(Later(h, d), found + {d})
  {
  }

  /**
   * retrieve_last_local_date(): walk the year, month and file listings in order
   * and keep the highest date whose stem parses; None when none does.
   */
  method RetrieveLastLocalDate(fs: Storage) returns (highest: Option<int>)
    ensures highest.None? <==> LocalDates(fs) == {}
    ensures highest.Some? ==> highest.value in LocalDates(fs)
    ensures highest.Some? ==> forall d :: d in LocalDates(fs) ==> d <= highest.value
  {
    highest := None;
    ghost var found: set<int> := {};
    var years := ListDir(fs, []);
    AllYears(fs);
    while years != {}
      invariant IsMaxOf(highest, found)
      invariant LocalDates(fs) == found + DatesUnder(fs, years)
      decreases years
    {
      Inhabited(years);
      var year :| year in years;
      YearSplit(fs, years, year);
      ghost var under := DatesUnderYear(fs, year, ListDir(fs, [year]));
      Regroup(found, under, DatesUnder(fs, years - {year}), DatesUnder(fs, years));
      years := years - {year};
      highest := ScanYear(fs, year, highest, found);
      found := found + under;
    }
  }

  /** The months loop of retrieve_last_local_date for one year entry, skipped unless it is a directory. */
  method ScanYear(fs: Storage, year: string, highest: Option<int>, ghost found: set<int>) returns (h: Option<int>)
    requires IsMaxOf(highest, found)
    ensures IsMaxOf(h, found + DatesUnderYear(fs, year, ListDir(fs, [year])))
  {
    h := highest;
    if !IsDir(fs, [year]) {
      NoYearDates(fs, year, found);
      return;
    }
    ghost var seen := found;
    var months := ListDir(fs, [year]);
    while months != {}
      invariant IsMaxOf(h, seen)
      invariant found + DatesUnderYear(fs, year, ListDir(fs, [year])) == seen + DatesUnderYear(fs, year, months)
      decreases months
    {
      Inhabited(months);
      var month :| month in months;
      MonthSplit(fs, year, months, month);
      ghost var inMonth := DatesUnderMonth(fs, year, month, ListDir(fs, [year, month]));
      Regroup(seen, inMonth, DatesUnderYear(fs, year, months - {month}), DatesUnderYear(fs, year, months));
      months := months - {month};
      h := ScanMonth(fs, year, month, h, seen);
      seen := seen + inMonth;
    }
  }

  /** The files loop of retrieve_last_local_date for one month entry, skipped unless it is a directory. */
  method ScanMonth(fs: Storage, year: string, month: string, highest: Option<int>, ghost found: set<int>)
    returns (h: Option<int>)
    requires IsDir(fs, [year]) && IsMaxOf(highest, found)
    ensures IsMaxOf(h, found + DatesUnderMonth(fs, year, month, ListDir(fs, [year, month])))
  {
    h := highest;
    if !IsDir(fs, [year, month]) {
      NoMonthDates(fs, year, month, found);
      return;
    }
    ghost var seen := found;
    var files := ListDir(fs, [year, month]);
    while files != {}
      invariant files <= ListDir(fs, [year, month])
      invariant IsMaxOf(h, seen)
      invariant found + DatesUnderMonth(fs, year, month, ListDir(fs, [year, month]))
        == seen + DatesUnderMonth(fs, year, month, files)
      decreases files
    {
      Inhabited(files);
      var file :| file in files;
      FileSplit(fs, year, month, files, file);
      ghost var here := FileDates(file);
      Regroup(seen, here, DatesUnderMonth(fs, year, month, files - {file}), DatesUnderMonth(fs, year, month, files));
      files := files - {file};
      if EndsWith(file, GzSuffix) {
        var parsed := ParseDate(Stem(file));
        if parsed.Ok? {
          LaterIsMax(h, seen, parsed.value);
          h := Later(h, parsed.value);
        }
      }
      seen := seen + here;
    }
  }
}
