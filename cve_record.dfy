/**
 * What the two CVE crawlers share: decoded CVE records as JSON values, the
 * archive of .jsonl files they append to (save_data), and the ids
 * CVE-YYYY-NNNN they enumerate. A .jsonl file is kept as its sequence of
 * documents, one per line, since json.dumps writes a document on one line.
 */
module CveRecord {
  import opened Base
  import opened Text
  import opened FileTree

  /** A value as json.loads builds it; an object is a dict from its keys. */
  datatype Json =
    | JNull
    | JBool(b: bool)
    | JNum(n: int)
    | JStr(s: string)
    | JArr(items: seq<Json>)
    | JObj(fields: map<string, Json>)

  /** A response body: response.text, and what response.json() decodes (None: it raises ValueError). */
  datatype Payload = Payload(text: string, json: Option<Json>)

  type Archive = Tree<Json>

  /** j[key] on a decoded value: only a dict can be indexed by a string. */
  function Get(j: Json, key: string): Result<Json>
  {
    match j
    case JObj(fields) => if key in fields then Ok(fields[key]) else Err(KeyError)
    case _ => Err(TypeError)
  }

  /** j[k0][k1]...: the first lookup that fails decides the exception. */
  function Lookup(j: Json, keys: seq<string>): Result<Json>
    decreases |keys|
  {
    if keys == [] then Ok(j)
    else
      match Get(j, keys[0])
      case Err(e) => Err(e)
      case Ok(v) => Lookup(v, keys[1..])
  }

  /** calendar.month_name in English. */
  const MonthNames: seq<string> :=
    ["", "January", "February", "March", "April", "May", "June",
     "July", "August", "September", "October", "November", "December"]

  function MonthName(k: nat): Result<string>
  {
    if k < |MonthNames| then Ok(MonthNames[k]) else Err(IndexError)
  }

  /** s[:n] */
  function Take(s: string, n: nat): string
  {
    if |s| <= n then s else s[..n]
  }

  /** Where save_data puts a record: storage/<year>/<monthDir>/<fileName>. */
  datatype Placement = Placement(year: string, monthDir: string, fileName: string)

  function RecordPath(pl: Placement): (p: Path)
    ensures |p| == 3 && p[..1] == [pl.year] && p[..2] == [pl.year, pl.monthDir]
  {
    [pl.year, pl.monthDir, pl.fileName]
  }

  /**
   * The path part of save_data: cveMetadata.dateReserved is split on '-';
   * the year and month fields name the directories, the month directory
   * is the month field, '-' and the month's English name, cut to six
   * characters, and the day is the third field up to its first 'T'.
   */
  function Place(doc: Json): Result<Placement>
  {
    match Lookup(doc, ["cveMetadata", "dateReserved"])
    case Err(e) => Err(e)
    case Ok(date) =>
      if !date.JStr? then Err(AttributeError)
      else
        var parts := Split(date.s, '-');
        if |parts| < 2 then Err(IndexError)
        else
          var year, month := parts[0], parts[1];
          match ParseNat(LStrip(month, '0'))
          case Err(e) => Err(e)
          case Ok(k) =>
            match MonthName(k)
            case Err(e) => Err(e)
            case Ok(name) =>
              if |parts| < 3 then Err(IndexError)
              else
                var day := Split(parts[2], 'T')[0];
                Ok(Placement(year, Take(month + "-" + name, 6), year + "_" + month + "_" + day + ".jsonl"))
  }

  /**
   * A reservation date of the usual form YYYY-MM-DDThh:mm:ss lands in
   * storage/YYYY/MM-Mon/YYYY_MM_DD.jsonl, Mon being the first three letters
   * of the month's English name and DD the text before the 'T'.
   */
  lemma PlaceCanonical(doc: Json, year: string, m: nat, day: string, time: string)
    requires 1 <= m <= 12
    requires Lookup(doc, ["cveMetadata", "dateReserved"]) == Ok(JStr(year + "-" + Pad(m, 2) + "-" + day + "T" + time))
    requires '-' !in year && '-' !in day && '-' !in time && 'T' !in day
    ensures Place(doc) == Ok(Placement(year, Pad(m, 2) + "-" + Take(MonthNames[m], 3),
                                       year + "_" + Pad(m, 2) + "_" + day + ".jsonl"))
  {
    DateFields(year, Pad(m, 2), day, time);
    MonthField(m);
  }

  /** The '-' and 'T' splits of a date of the usual form. */
  lemma DateFields(year: string, month: string, day: string, time: string)
    requires AllDigits(month)
    requires '-' !in year && '-' !in day && '-' !in time && 'T' !in day
    ensures var parts := Split(year + "-" + month + "-" + day + "T" + time, '-');
      parts == [year, month, day + "T" + time] && Split(parts[2], 'T')[0] == day
  {
    var rest := day + "T" + time;
    assert '-' !in rest;
    DigitsHaveNo(month, '-');
    SplitWithout(rest, '-');
    SplitAt(month, '-', rest);
    SplitAt(year, '-', month + "-" + rest);
    assert year + "-" + month + "-" + day + "T" + time == year + ['-'] + (month + ['-'] + rest);
    SplitAt(day, 'T', time);
    assert rest == day + ['T'] + time;
  }

  /** The month field 01..12 reads back as its number and names a six-character directory. */
  lemma MonthField(m: nat)
    requires 1 <= m <= 12
    ensures ParseNat(LStrip(Pad(m, 2), '0')) == Ok(m)
    ensures MonthName(m) == Ok(MonthNames[m])
    ensures Take(Pad(m, 2) + "-" + MonthNames[m], 6) == Pad(m, 2) + "-" + Take(MonthNames[m], 3)
  {
    MonthNumber(m);
    var name := MonthNames[m];
    MonthNameLong(m);
    Abbreviate(Pad(m, 2), name);
  }

  /** Every month's name has at least three letters. */
  lemma MonthNameLong(m: nat)
    requires 1 <= m <= 12
    ensures |MonthNames[m]| >= 3
  {
    forall k | 1 <= k <= 12 ensures |MonthNames[k]| >= 3 { }
  }

  lemma MonthNumber(m: nat)
    requires 1 <= m <= 12
    ensures ParseNat(LStrip(Pad(m, 2), '0')) == Ok(m)
  {
    var s := Pad(m, 2);
    Pow10Values();
    assert DigitsValue(s) == m % 100 == m;
    LStripZerosValue(s);
  }

  lemma Abbreviate(month: string, name: string)
    requires |month| == 2 && |name| >= 3
    ensures Take(month + "-" + name, 6) == month + "-" + Take(name, 3)
  {
  }

  /** What save_data leaves behind: the tree, and the exception it raised, if any. */
  datatype Saved = Saved(fs: Archive, error: Option<Exc>)

  /**
   * save_data(json_data): create storage/<year> and storage/<year>/<monthDir>
   * where they do not exist, then append the record as one line. A failure
   * part-way leaves the directories already made.
   */
  function SaveData(fs: Archive, doc: Json): Saved
  {
    match Place(doc)
    case Err(e) => Saved(fs, Some(e))
    case Ok(pl) => SaveAt(fs, pl, doc)
  }

  /** The directory and file part of save_data, once the placement is known. */
  function SaveAt(fs: Archive, pl: Placement, doc: Json): Saved
  {
    match EnsureDir(fs, [pl.year])
    case Err(e) => Saved(fs, Some(e))
    case Ok(fs1) =>
      match EnsureDir(fs1, [pl.year, pl.monthDir])
      case Err(e) => Saved(fs1, Some(e))
      case Ok(fs2) =>
        match AppendFile(fs2, RecordPath(pl), [doc])
        case Err(e) => Saved(fs2, Some(e))
        case Ok(fs3) => Saved(fs3, None)
  }

  /** The lines of the file at p; none when there is no file there. */
  function Lines(fs: Archive, p: Path): seq<Json>
  {
    match Read(fs, p)
    case Some(ls) => ls
    case None => []
  }

  /** Nothing is removed, no directory becomes a file, and every file keeps its lines as a prefix. */
  ghost predicate Grows(fs: Archive, fs': Archive)
  {
    forall p :: p in fs ==>
      && p in fs'
      && (fs[p].Dir? ==> fs'[p].Dir?)
      && (fs[p].File? ==> fs'[p].File? && fs[p].content <= fs'[p].content)
  }

  lemma GrowsTrans(a: Archive, b: Archive, c: Archive)
    requires Grows(a, b) && Grows(b, c)
    ensures Grows(a, c)
  {
  }

  lemma GrowsRefl(a: Archive)
    ensures Grows(a, a)
  {
  }

  /**
   * save_data succeeds exactly when no file stands where storage/<year> or
   * storage/<year>/<monthDir> should be and the record's path is not a
   * directory. On success the file holds its earlier lines and then the
   * record; on failure the file is as it was. Either way the archive only
   * grows, every other entry is kept, and the only entries added are the
   * two directories and the file.
   */
  lemma SaveDataMeets(fs: Archive, doc: Json)
    requires WellFormed(fs)
    ensures WellFormed(SaveData(fs, doc).fs)
    ensures Grows(fs, SaveData(fs, doc).fs)
    ensures Place(doc).Err? ==> SaveData(fs, doc) == Saved(fs, Some(Place(doc).error))
    ensures Place(doc).Ok? ==> SavedAt(fs, SaveData(fs, doc), doc, RecordPath(Place(doc).value))
  {
    match Place(doc)
    case Err(_) =>
      GrowsRefl(fs);
    case Ok(pl) =>
      var p := RecordPath(pl);
      if IsFile(fs, [pl.year]) {
        SaveBlockedAtYear(fs, doc, pl);
        GrowsRefl(fs);
        BlockedAtYearMeets(fs, SaveAt(fs, pl, doc), doc, p);
      } else {
        SaveBelowYear(fs, doc, pl);
        var f := Dirs(fs, pl.year, pl.monthDir);
        DirsFacts(fs, pl.year, pl.monthDir, pl.fileName);
        AppendMeets(fs, f, SaveAt(fs, pl, doc), doc, p);
      }
  }

  /** r is what saving doc at p can leave behind, judged against the tree fs it started from. */
  ghost predicate SavedAt(fs: Archive, r: Saved, doc: Json, p: Path)
    requires |p| == 3
  {
    && (r.error.None? <==> !IsFile(fs, p[..1]) && !IsFile(fs, p[..2]) && !IsDir(fs, p))
    && (r.error.Some? ==> r.error == Some(OSError) && Read(r.fs, p) == Read(fs, p))
    && (r.error.None? ==> Read(r.fs, p) == Some(Lines(fs, p) + [doc]))
    && (forall q :: q in fs && q != p ==> q in r.fs && r.fs[q] == fs[q])
    && (forall q :: q in r.fs && q !in fs ==> q == p || (r.fs[q] == Dir && 0 < |q| <= 2 && q == p[..|q|]))
  }

  /** The year step: storage/<year> is made when absent, and an existing entry is left as it is. */
  lemma YearStep(fs: Archive, y: string)
    requires WellFormed(fs)
    ensures EnsureDir(fs, [y]) == Ok(if [y] in fs then fs else fs[[y] := Dir])
  {
    assert Parent([y]) == [];
  }

  /** The month step below an existing year entry: it fails only when that entry is a file. */
  lemma MonthStep(fs: Archive, y: string, m: string)
    requires WellFormed(fs) && [y] in fs
    ensures EnsureDir(fs, [y, m]) ==
      if [y, m] in fs then Ok(fs)
      else if fs[[y]].Dir? then Ok(fs[[y, m] := Dir])
      else Err(OSError)
  {
    assert Parent([y, m]) == [y];
  }

  /** The tree after both directory steps, when neither fails. */
  ghost function Dirs(fs: Archive, y: string, m: string): Archive
  {
    var f := if [y] in fs then fs else fs[[y] := Dir];
    if [y, m] in f then f else f[[y, m] := Dir]
  }

  /** What the final append leaves behind. */
  function AppendOutcome(fs: Archive, p: Path, doc: Json): Saved
  {
    match AppendFile(fs, p, [doc])
    case Err(e) => Saved(fs, Some(e))
    case Ok(f) => Saved(f, None)
  }

  lemma SaveBlockedAtYear(fs: Archive, doc: Json, pl: Placement)
    requires WellFormed(fs) && IsFile(fs, [pl.year])
    ensures SaveAt(fs, pl, doc) == Saved(fs, Some(OSError))
  {
    YearStep(fs, pl.year);
    MonthStep(fs, pl.year, pl.monthDir);
    assert Parent([pl.year, pl.monthDir]) == [pl.year];
  }

  lemma BlockedAtYearMeets(fs: Archive, r: Saved, doc: Json, p: Path)
    requires WellFormed(fs) && |p| == 3 && IsFile(fs, p[..1])
    requires r == Saved(fs, Some(OSError))
    ensures SavedAt(fs, r, doc, p)
  {
  }

  lemma SaveBelowYear(fs: Archive, doc: Json, pl: Placement)
    requires WellFormed(fs) && !IsFile(fs, [pl.year])
    ensures WellFormed(Dirs(fs, pl.year, pl.monthDir))
    ensures SaveAt(fs, pl, doc) == AppendOutcome(Dirs(fs, pl.year, pl.monthDir), RecordPath(pl), doc)
  {
    var y, m := pl.year, pl.monthDir;
    YearStep(fs, y);
    EnsureDirMeets(fs, [y]);
    var f1 := if [y] in fs then fs else fs[[y] := Dir];
    assert [y] in f1 && f1[[y]].Dir?;
    MonthStep(f1, y, m);
    EnsureDirMeets(f1, [y, m]);
    var f2 := Dirs(fs, y, m);
    assert EnsureDir(f1, [y, m]) == Ok(f2);
    assert WellFormed(f2);
  }

  /** Both directory steps keep every entry and add at most the two directories. */
  lemma DirsFacts(fs: Archive, y: string, m: string, n: string)
    requires WellFormed(fs) && !IsFile(fs, [y])
    ensures var f, p := Dirs(fs, y, m), [y, m, n];
      && (forall q :: q in fs ==> q in f && f[q] == fs[q])
      && (forall q :: q in f && q !in fs ==> f[q] == Dir && 0 < |q| <= 2 && q == p[..|q|])
      && (IsDir(f, [y, m]) <==> !IsFile(fs, [y, m]))
      && Read(f, p) == Read(fs, p) && (IsDir(f, p) <==> IsDir(fs, p))
  {
    var p := [y, m, n];
    assert p[..1] == [y] && p[..2] == [y, m];
  }

  lemma AppendMeets(fs: Archive, f: Archive, r: Saved, doc: Json, p: Path)
    requires WellFormed(fs) && WellFormed(f) && |p| == 3 && !IsFile(fs, p[..1])
    requires r == AppendOutcome(f, p, doc)
    requires forall q :: q in fs ==> q in f && f[q] == fs[q]
    requires forall q :: q in f && q !in fs ==> f[q] == Dir && 0 < |q| <= 2 && q == p[..|q|]
    requires IsDir(f, p[..2]) <==> !IsFile(fs, p[..2])
    requires Read(f, p) == Read(fs, p) && (IsDir(f, p) <==> IsDir(fs, p))
    ensures WellFormed(r.fs) && Grows(fs, r.fs)
    ensures SavedAt(fs, r, doc, p)
  {
    assert Parent(p) == p[..2];
    AppendFileMeets(f, p, [doc]);
    if CanOpen(f, p) {
      AppendDone(fs, f, AppendFile(f, p, [doc]).value, doc, p);
    }
  }

  lemma AppendDone(fs: Archive, f: Archive, g: Archive, doc: Json, p: Path)
    requires WellFormed(f) && |p| == 3 && CanOpen(f, p) && AppendFile(f, p, [doc]) == Ok(g)
    requires forall q :: q in fs ==> q in f && f[q] == fs[q]
    requires forall q :: q in f && q !in fs ==> f[q] == Dir && 0 < |q| <= 2 && q == p[..|q|]
    requires Read(f, p) == Read(fs, p)
    ensures Read(g, p) == Some(Lines(fs, p) + [doc])
    ensures forall q :: q in fs && q != p ==> q in g && g[q] == fs[q]
    ensures forall q :: q in g && q !in fs ==> q == p || (g[q] == Dir && 0 < |q| <= 2 && q == p[..|q|])
    ensures Grows(fs, g)
  {
    assert Lines(f, p) == Lines(fs, p);
    if IsFile(f, p) {
      assert Read(g, p) == Some(f[p].content + [doc]);
    } else {
      assert Lines(f, p) + [doc] == [doc];
    }
    forall q | q in fs && q != p ensures q in g && g[q] == fs[q] {
      assert q in f;
    }
  }

  /** The crawlers' timing parameters, in seconds. */
  datatype Config = Config(updateInterval: int, retryInterval: int)

  /** A CVE number: CVE-<year>-<number>. */
  datatype Id = Id(year: nat, number: nat)

  /** The end of the number range, range(..., 60000). */
  const Limit: nat := 60000

  /** The ids of one year from a starting number: range(from, 60000). */
  function Row(year: nat, from: nat): (r: seq<Id>)
    ensures |r| == if from < Limit then Limit - from else 0
    ensures forall j :: 0 <= j < |r| ==> r[j] == Id(year, from + j)
  {
    seq(if from < Limit then Limit - from else 0, j requires 0 <= j => Id(year, from + j))
  }

  /** The nested for-loops: each year from yearFrom to yearTo, numbers from 'from' up to 59999 in each. */
  function Ids(yearFrom: nat, yearTo: int, from: nat): seq<Id>
    decreases yearTo - yearFrom
  {
    if yearTo < yearFrom then [] else Ids(yearFrom, yearTo - 1, from) + Row(yearTo, from)
  }

  /** When the year loop stops, the years visited are all the years there were. */
  lemma IdsEnd(yearFrom: nat, year: int, thisYear: int, from: nat)
    requires yearFrom <= year && thisYear < year && (year <= thisYear + 1 || year == yearFrom)
    ensures Ids(yearFrom, year - 1, from) == Ids(yearFrom, thisYear, from)
  {
  }

  /** The years up to a come first in the years up to b. */
  lemma {:induction false} IdsPrefix(yearFrom: nat, a: int, b: int, from: nat)
    requires a <= b
    ensures Ids(yearFrom, a, from) <= Ids(yearFrom, b, from)
    decreases b - a
  {
    if a < b {
      IdsPrefix(yearFrom, a, b - 1, from);
    }
  }

  /** a comes before b in the visiting order: by year, then by number. */
  predicate Before(a: Id, b: Id)
  {
    a.year < b.year || (a.year == b.year && a.number < b.number)
  }

  predicate Ascending(ids: seq<Id>)
  {
    forall a, b :: 0 <= a < b < |ids| ==> Before(ids[a], ids[b])
  }

  /**
   * The enumeration holds exactly the ids whose year lies in the range and
   * whose number lies in [from, 60000) -- in every year, not only the
   * first -- and it visits them in strictly ascending order.
   */
  lemma {:induction false} IdsEnumerate(yearFrom: nat, yearTo: int, from: nat)
    ensures forall x :: x in Ids(yearFrom, yearTo, from) <==>
      yearFrom <= x.year <= yearTo && from <= x.number < Limit
    ensures Ascending(Ids(yearFrom, yearTo, from))
    decreases yearTo - yearFrom
  {
    if yearTo >= yearFrom {
      IdsEnumerate(yearFrom, yearTo - 1, from);
      var front, row := Ids(yearFrom, yearTo - 1, from), Row(yearTo, from);
      assert Ascending(front);
      var ids := front + row;
      forall x: Id | yearFrom <= x.year <= yearTo && from <= x.number < Limit
        ensures x in ids
      {
        if x.year == yearTo {
          assert row[x.number - from] == x;
        } else {
          assert x in front;
        }
      }
      forall a, b | 0 <= a < b < |ids| ensures Before(ids[a], ids[b]) {
        if b < |front| {
          assert ids[a] == front[a] && ids[b] == front[b];
          assert Before(front[a], front[b]);
        } else if a < |front| {
          assert ids[a] == front[a] && front[a] in front;
          assert ids[a].year <= yearTo - 1;
          assert ids[b] == row[b - |front|];
          assert ids[b].year == yearTo;
        } else {
          assert ids[a] == row[a - |front|] && ids[b] == row[b - |front|];
          assert ids[a].number == from + (a - |front|) < from + (b - |front|) == ids[b].number;
        }
      }
    }
  }

  /** The text after the endpoint: str(year) + '-' + str(i).zfill(4). */
  function CveId(x: Id): string
  {
    Str(x.year) + "-" + ZFill(Str(x.number), 4)
  }

  /**
   * An id text splits on '-' into the year and the number; the number has at
   * least four digits, is never cut, and both read back as the id.
   */
  lemma CveIdReadsBack(x: Id)
    ensures var parts := Split(CveId(x), '-');
      && parts == [Str(x.year), ZFill(Str(x.number), 4)]
      && ParseNat(parts[0]) == Ok(x.year)
      && ParseNat(parts[1]) == Ok(x.number)
      && |parts[1]| == if |Str(x.number)| < 4 then 4 else |Str(x.number)|
  {
    var y, n := Str(x.year), ZFill(Str(x.number), 4);
    ZFillStr(x.number, 4);
    DigitsHaveNo(y, '-');
    DigitsHaveNo(n, '-');
    SplitWithout(n, '-');
    SplitAt(y, '-', n);
    assert CveId(x) == y + ['-'] + n;
  }

  /** Different ids give different request URLs. */
  lemma CveIdInjective(a: Id, b: Id)
    requires CveId(a) == CveId(b)
    ensures a == b
  {
    CveIdReadsBack(a);
    CveIdReadsBack(b);
  }

  /** Where the crawlers fetch a record from. */
  const Endpoint: string := "https://cveawg.mitre.org/api/cve/CVE-"

  function RecordUrl(x: Id): string
  {
    Endpoint + CveId(x)
  }

  /** Different ids are fetched from different URLs. */
  lemma RecordUrlsDiffer(a: Id, b: Id)
    requires a != b
    ensures RecordUrl(a) != RecordUrl(b)
  {
    if RecordUrl(a) == RecordUrl(b) {
      assert CveId(a) == RecordUrl(a)[|Endpoint|..];
      assert CveId(b) == RecordUrl(b)[|Endpoint|..];
      CveIdInjective(a, b);
    }
  }
}
