/**
 * The older CVE crawler (CVECrawler.py). A run bootstraps an empty archive
 * by requesting every id from 1999 to the current year and appending each
 * record found; it keeps no cursor and catches no exception, so the first
 * failure ends the run. It also holds a helper that asks the NVD service
 * for the highest CVE number it lists.
 */
module CveLegacy {
  import opened Base
  import opened Text
  import opened FileTree
  import opened CveRecord

  /** The first year download_all starts from when called without arguments. */
  const FirstYear: nat := 1999

  // ---------------------------------------------------------------------
  // retrieve_years_folders and is_new_instance
  // ---------------------------------------------------------------------

  /** The top-level folders of the archive that are not hidden. */
  function YearsFolders(fs: Archive): (names: set<string>)
    ensures forall n :: n in names <==> IsDir(fs, [n]) && !StartsWith(n, ".")
  {
    var listed := ListDir(fs, []);
    assert forall n: string :: [] + [n] == [n];
    set n | n in listed && IsDir(fs, [n]) && !StartsWith(n, ".")
  }

  /** An archive is new when no top-level folder is visible. */
  function IsNewInstance(fs: Archive): (r: bool)
    ensures r <==> forall n :: IsDir(fs, [n]) ==> StartsWith(n, ".")
  {
    YearsFolders(fs) == {}
  }

  // ---------------------------------------------------------------------
  // download_all
  // ---------------------------------------------------------------------

  /**
   * What a run can change: the archive, the sleeps taken, the ids whose
   * record was requested, and the exception that ended the run, if any.
   */
  datatype Site = Site(fs: Archive, sleeps: seq<int>, requested: seq<Id>, error: Option<Exc>)

  /**
   * One turn of the inner loop of download_all for the id x. A failed
   * request, a body that does not decode and a failing save_data raise out
   * of the loop; once that has happened nothing more is done.
   */
  function Visit(c: Config, net: Network<Payload>, s: Site, x: Id): Site
  {
    if s.error.Some? then s
    else
      var s1 := s.(requested := s.requested + [x]);
      match net(|s.requested|)
      case Raised => s1.(error := Some(RequestError))
      case Response(status, body) =>
        if status == 200 then
          match body.json
          case None => s1.(error := Some(ValueError))
          case Some(doc) =>
            var saved := SaveData(s1.fs, doc);
            s1.(fs := saved.fs, error := saved.error)
        else if status == 429 then s1.(sleeps := s1.sleeps + [c.retryInterval])
        else s1
  }

  function Step(c: Config, net: Network<Payload>): (Site, Id) -> Site
  {
    (s: Site, x: Id) => Visit(c, net, s, x)
  }

  /** The ids visited in order, each one once. */
  function Crawl(c: Config, net: Network<Payload>, s: Site, ids: seq<Id>): Site
  {
    Fold<Site, Id>(Step(c, net), s, ids)
  }

  /** download_all(year_from): the ids of every year up to this year, numbers 1 to 59999. */
  function Bootstrap(c: Config, net: Network<Payload>, yearFrom: nat, thisYear: int, s: Site): Site
  {
    Crawl(c, net, s, Ids(yearFrom, thisYear, 1))
  }

  /**
   * One id: the record is requested; a failed request raises RequestError,
   * an undecodable body ValueError; a 200 appends the record by save_data
   * and raises what save_data raises; a 429 sleeps retry_interval and the
   * loop moves on; any other status does nothing. After an exception
   * nothing changes any more.
   */
  lemma VisitMeets(c: Config, net: Network<Payload>, s: Site, x: Id)
    ensures var r, o := Visit(c, net, s, x), net(|s.requested|);
      && (s.error.Some? ==> r == s)
      && (s.error.None? ==>
            && r.requested == s.requested + [x]
            && r.sleeps == s.sleeps + (if o.Response? && o.status == 429 then [c.retryInterval] else [])
            && (o.Raised? ==> r.error == Some(RequestError) && r.fs == s.fs)
            && (o.Response? && o.status == 200 && o.body.json.None? ==> r.error == Some(ValueError) && r.fs == s.fs)
            && (o.Response? && o.status == 200 && o.body.json.Some? ==>
                  Saved(r.fs, r.error) == SaveData(s.fs, o.body.json.value))
            && (o.Response? && o.status != 200 ==> r.error.None? && r.fs == s.fs))
  {
  }

  /** One id: the archive only grows, and the requests and sleeps made before are kept. */
  lemma VisitKeeps(c: Config, net: Network<Payload>, s: Site, x: Id)
    ensures var r := Visit(c, net, s, x);
      && (WellFormed(s.fs) ==> WellFormed(r.fs) && Grows(s.fs, r.fs))
      && s.requested <= r.requested
      && ExtendsWith(s.sleeps, r.sleeps, c.retryInterval)
  {
    var o := net(|s.requested|);
    VisitMeets(c, net, s, x);
    if WellFormed(s.fs) && s.error.None? && o.Response? && o.status == 200 && o.body.json.Some? {
      SaveDataMeets(s.fs, o.body.json.value);
    } else {
      GrowsRefl(s.fs);
    }
  }

  /** One id: the request is logged unless an exception is already in flight, which stays. */
  lemma VisitLog(c: Config, net: Network<Payload>, s: Site, x: Id)
    ensures var r := Visit(c, net, s, x);
      && r.requested == (if s.error.Some? then s.requested else s.requested + [x])
      && (s.error.Some? ==> r.error == s.error)
  {
  }

  /** Over a whole run the archive only grows, the requests issued stay, and every sleep taken is retry_interval. */
  lemma CrawlKeeps(c: Config, net: Network<Payload>, s: Site, ids: seq<Id>)
    ensures var r := Crawl(c, net, s, ids);
      && (WellFormed(s.fs) ==> WellFormed(r.fs) && Grows(s.fs, r.fs))
      && s.requested <= r.requested
      && ExtendsWith(s.sleeps, r.sleeps, c.retryInterval)
  {
    var keep := (a: Site, b: Site) =>
      && (WellFormed(a.fs) ==> WellFormed(b.fs) && Grows(a.fs, b.fs))
      && a.requested <= b.requested && ExtendsWith(a.sleeps, b.sleeps, c.retryInterval);
    forall a: Site ensures keep(a, a) {
      GrowsRefl(a.fs);
    }
    forall a: Site, b: Site, d: Site | keep(a, b) && keep(b, d) ensures keep(a, d) {
      if WellFormed(a.fs) { GrowsTrans(a.fs, b.fs, d.fs); }
      ExtendsWithTrans(a.sleeps, b.sleeps, d.sleeps, c.retryInterval);
    }
    forall a: Site, x: Id ensures keep(a, Step(c, net)(a, x)) {
      VisitKeeps(c, net, a, x);
    }
    FoldKeeps<Site, Id>(Step(c, net), keep, s, ids);
  }

  /**
   * The requests issued over a run are the ids in order up to the one that
   * raised -- all of them when nothing raised.
   */
  lemma CrawlLog(c: Config, net: Network<Payload>, s: Site, ids: seq<Id>)
    requires s.error.None?
    ensures var r := Crawl(c, net, s, ids);
      && r.requested <= s.requested + ids
      && (r.error.None? ==> r.requested == s.requested + ids)
  {
    var log := (a: Site) => a.requested;
    var stopped := (a: Site) => a.error.Some?;
    forall a: Site, x: Id ensures stopped(a) ==> Step(c, net)(a, x) == a {
      VisitLog(c, net, a, x);
    }
    forall a: Site, x: Id ensures !stopped(a) ==> log(Step(c, net)(a, x)) == log(a) + [x] {
      VisitLog(c, net, a, x);
    }
    FoldLog<Site, Id>(Step(c, net), log, stopped, s, ids);
  }

  /** Once an exception is raised the rest of the ids change nothing. */
  lemma Aborted(c: Config, net: Network<Payload>, s: Site, ids: seq<Id>, k: nat)
    requires k <= |ids| && Crawl(c, net, s, ids[..k]).error.Some?
    ensures Crawl(c, net, s, ids) == Crawl(c, net, s, ids[..k])
  {
    var stopped := (a: Site) => a.error.Some?;
    forall a: Site, x: Id ensures stopped(a) ==> Step(c, net)(a, x) == a {
      VisitLog(c, net, a, x);
    }
    FoldStops<Site, Id>(Step(c, net), stopped, s, ids, k);
  }

  /** One turn of the inner loop, as the program runs it. */
  method TryId(c: Config, net: Network<Payload>, s: Site, x: Id) returns (s': Site)
    requires s.error.None?
    ensures s' == Visit(c, net, s, x)
  {
    var response := net(|s.requested|);
    s' := s.(requested := s.requested + [x]);
    match response {
      case Raised =>
        s' := s'.(error := Some(RequestError));
      case Response(status, body) =>
        if status == 200 {
          match body.json {
            case None =>
              s' := s'.(error := Some(ValueError));
            case Some(doc) =>
              var saved := SaveData(s'.fs, doc);
              s' := s'.(fs := saved.fs, error := saved.error);
          }
        } else if status == 429 {
          s' := s'.(sleeps := s'.sleeps + [c.retryInterval]);
        }
    }
  }

  /** The inner for-loop: the numbers 1 to 59999 of one year, left by the first exception. */
  method DownloadYear(c: Config, net: Network<Payload>, year: nat, s: Site) returns (s': Site)
    requires s.error.None?
    ensures s' == Crawl(c, net, s, Row(year, 1))
  {
    s' := s;
    var i := 1;
    ghost var k: nat := 0;
    while i < Limit && s'.error.None?
      invariant i == 1 + k && i <= Limit
      invariant s' == Crawl(c, net, s, Row(year, 1)[..k])
      decreases Limit - i
    {
      CrawlRowStep(c, net, s, year, k);
      s' := TryId(c, net, s', Id(year, i));
      i, k := i + 1, k + 1;
    }
    if s'.error.Some? {
      Aborted(c, net, s, Row(year, 1), k);
    } else {
      assert Row(year, 1)[..k] == Row(year, 1);
    }
  }

  /** The next prefix of a row is one id longer, so crawling it is one more visit. */
  lemma CrawlRowStep(c: Config, net: Network<Payload>, s: Site, year: nat, k: nat)
    requires 1 + k < Limit
    ensures Crawl(c, net, s, Row(year, 1)[..k + 1]) == Visit(c, net, Crawl(c, net, s, Row(year, 1)[..k]), Id(year, 1 + k))
  {
    assert Row(year, 1)[..k + 1] == Row(year, 1)[..k] + [Id(year, 1 + k)];
    FoldSnoc<Site, Id>(Step(c, net), s, Row(year, 1)[..k], Id(year, 1 + k));
  }

  /** An exception in some year leaves the later years unvisited. */
  lemma AbortedInYear(c: Config, net: Network<Payload>, s: Site, yearFrom: nat, last: int, thisYear: int)
    requires last <= thisYear && Crawl(c, net, s, Ids(yearFrom, last, 1)).error.Some?
    ensures Bootstrap(c, net, yearFrom, thisYear, s) == Crawl(c, net, s, Ids(yearFrom, last, 1))
  {
    var done, all := Ids(yearFrom, last, 1), Ids(yearFrom, thisYear, 1);
    IdsPrefix(yearFrom, last, thisYear, 1);
    assert all[..|done|] == done;
    Aborted(c, net, s, all, |done|);
  }

  /** One turn of the outer loop extends the visits by the whole row of the year. */
  method NextYear(c: Config, net: Network<Payload>, s: Site, yearFrom: nat, year: int, cur: Site)
    returns (next: Site)
    requires yearFrom <= year && cur.error.None?
    requires cur == Crawl(c, net, s, Ids(yearFrom, year - 1, 1))
    ensures next == Crawl(c, net, s, Ids(yearFrom, year, 1))
  {
    next := DownloadYear(c, net, year, cur);
    FoldAppend<Site, Id>(Step(c, net), s, Ids(yearFrom, year - 1, 1), Row(year, 1));
  }

  /** download_all(year_from): the nested for-loops, left by the first exception. */
  method DownloadAll(c: Config, net: Network<Payload>, thisYear: int, yearFrom: nat, s: Site) returns (s': Site)
    requires s.error.None?
    ensures s' == Bootstrap(c, net, yearFrom, thisYear, s)
  {
    s' := s;
    var year: int := yearFrom;
    ghost var last: int := year - 1;
    while year <= thisYear
      invariant yearFrom <= year && (year <= thisYear + 1 || year == yearFrom)
      invariant last == year - 1
      invariant s' == Crawl(c, net, s, Ids(yearFrom, last, 1)) && s'.error.None?
      decreases thisYear - year
    {
      var next := NextYear(c, net, s, yearFrom, year, s');
      if next.error.Some? {
        AbortedInYear(c, net, s, yearFrom, year, thisYear);
        return next;
      }
      s' := next;
      last := year;
      year := year + 1;
    }
    IdsEnd(yearFrom, year, thisYear, 1);
  }

  // ---------------------------------------------------------------------
  // run: up to the end of the first turn of its endless loop
  // ---------------------------------------------------------------------

  /**
   * A new archive is bootstrapped from 1999; an exception there ends run().
   * Then download_new_data, which does nothing, and a sleep of
   * update_interval.
   */
  function Cycle(c: Config, net: Network<Payload>, thisYear: int, s: Site): Site
  {
    var t := if IsNewInstance(s.fs) then Bootstrap(c, net, FirstYear, thisYear, s) else s;
    if t.error.Some? then t else t.(sleeps := t.sleeps + [c.updateInterval])
  }

  method Run(c: Config, net: Network<Payload>, thisYear: int, s: Site) returns (r: Site)
    requires s.error.None?
    ensures r == Cycle(c, net, thisYear, s)
  {
    r := s;
    if IsNewInstance(s.fs) {
      r := DownloadAll(c, net, thisYear, FirstYear, s);
      if r.error.Some? {
        return;
      }
    }
    r := r.(sleeps := r.sleeps + [c.updateInterval]);
  }

  /** An archive with a visible folder is never touched: the cycle only sleeps. */
  lemma OldInstanceOnlySleeps(c: Config, net: Network<Payload>, thisYear: int, s: Site)
    requires s.error.None? && !IsNewInstance(s.fs)
    ensures Cycle(c, net, thisYear, s) == s.(sleeps := s.sleeps + [c.updateInterval])
  {
  }

  /**
   * A new archive gets every id from 1999 to this year requested in order,
   * unless one of them raises; it only grows, and the cycle sleeps only
   * retry_interval and, at its end, update_interval.
   */
  lemma NewInstanceBootstraps(c: Config, net: Network<Payload>, thisYear: int, s: Site)
    requires WellFormed(s.fs) && s.error.None? && IsNewInstance(s.fs)
    ensures var r, ids := Cycle(c, net, thisYear, s), Ids(FirstYear, thisYear, 1);
      && WellFormed(r.fs) && Grows(s.fs, r.fs)
      && s.requested <= r.requested
      && r.requested <= s.requested + ids
      && (r.error.None? ==>
            && r.requested == s.requested + ids
            && ExtendsWith(s.sleeps, r.sleeps[..|r.sleeps| - 1], c.retryInterval)
            && r.sleeps[|r.sleeps| - 1] == c.updateInterval)
  {
    var b := Bootstrap(c, net, FirstYear, thisYear, s);
    CrawlKeeps(c, net, s, Ids(FirstYear, thisYear, 1));
    CrawlLog(c, net, s, Ids(FirstYear, thisYear, 1));
    if b.error.None? {
      assert (b.sleeps + [c.updateInterval])[..|b.sleeps|] == b.sleeps;
    }
  }

  // ---------------------------------------------------------------------
  // retrieve_last_CVE_ID_online
  // ---------------------------------------------------------------------

  const NvdEndpoint: string := "https://services.nvd.nist.gov/rest/json/cves/1.0"

  /** Where the list sits in the answer, data['result']['CVE_Items']. */
  const ItemsKeys: seq<string> := ["result", "CVE_Items"]

  /** Where an item keeps its id, e['cve']['CVE_data_meta']['ID']. */
  const IdKeys: seq<string> := ["cve", "CVE_data_meta", "ID"]

  /** Python's truth value of a decoded JSON value. */
  predicate Truthy(j: Json)
  {
    match j
    case JNull => false
    case JBool(b) => b
    case JNum(n) => n != 0
    case JStr(s) => s != []
    case JArr(items) => items != []
    case JObj(fields) => |fields| != 0
  }

  /**
   * int(e['cve']['CVE_data_meta']['ID'].split('-')[2]): a value that is not
   * a string has no split; fewer than three fields raise IndexError.
   */
  function IdNumber(e: Json): Result<nat>
  {
    match Lookup(e, IdKeys)
    case Err(err) => Err(err)
    case Ok(v) =>
      if !v.JStr? then Err(AttributeError)
      else
        var parts := Split(v.s, '-');
        if |parts| < 3 then Err(IndexError) else ParseNat(parts[2])
  }

  /** The list the loop builds: each item's number in order, or the first exception. */
  function IdNumbers(items: seq<Json>): (r: Result<seq<nat>>)
    ensures r.Ok? ==> |r.value| == |items|
    decreases |items|
  {
    if items == [] then Ok([])
    else
      match IdNumbers(items[..|items| - 1])
      case Err(e) => Err(e)
      case Ok(ns) =>
        match IdNumber(items[|items| - 1])
        case Err(e) => Err(e)
        case Ok(n) => Ok(ns + [n])
  }

  /** max() of a non-empty list. */
  function Max(xs: seq<nat>): (m: nat)
    requires xs != []
    ensures m in xs && forall x :: x in xs ==> x <= m
    decreases |xs|
  {
    if |xs| == 1 then xs[0]
    else
      var rest := Max(xs[..|xs| - 1]);
      assert forall x :: x in xs ==> x in xs[..|xs| - 1] || x == xs[|xs| - 1];
      if xs[|xs| - 1] > rest then xs[|xs| - 1] else rest
  }

  /**
   * retrieve_last_CVE_ID_online, given what its one request returned: None
   * on a status other than 200; on a 200 the highest number among the
   * items, where an empty or false list makes max() raise ValueError and a
   * true value that is not a list cannot be walked item by item.
   */
  function LastIdOnline(o: Outcome<Payload>): Result<Option<nat>>
  {
    match o
    case Raised => Err(RequestError)
    case Response(status, body) =>
      if status != 200 then Ok(None)
      else
        match body.json
        case None => Err(ValueError)
        case Some(data) =>
          match Lookup(data, ItemsKeys)
          case Err(e) => Err(e)
          case Ok(items) =>
            if !Truthy(items) then Err(ValueError)
            else if !items.JArr? then Err(TypeError)
            else
              match IdNumbers(items.items)
              case Err(e) => Err(e)
              case Ok(ns) => Ok(Some(Max(ns)))
  }

  /** The numbers are the items' numbers, in order, or the exception of the first item without one. */
  lemma {:induction false} IdNumbersMeets(items: seq<Json>)
    ensures var r := IdNumbers(items);
      && (r.Ok? <==> forall i :: 0 <= i < |items| ==> IdNumber(items[i]).Ok?)
      && (r.Ok? ==> forall i :: 0 <= i < |items| ==> r.value[i] == IdNumber(items[i]).value)
      && (r.Err? ==> exists k :: 0 <= k < |items| && IdNumber(items[k]) == Err(r.error) &&
                       forall i :: 0 <= i < k ==> IdNumber(items[i]).Ok?)
    decreases |items|
  {
    if items != [] {
      var front := items[..|items| - 1];
      IdNumbersMeets(front);
      assert forall i :: 0 <= i < |front| ==> front[i] == items[i];
    }
  }

  /** m is the number of one of the items, and every item has a number no higher. */
  ghost predicate Highest(items: seq<Json>, m: nat)
  {
    && (exists i :: 0 <= i < |items| && IdNumber(items[i]) == Ok(m))
    && (forall i :: 0 <= i < |items| ==> IdNumber(items[i]).Ok? && IdNumber(items[i]).value <= m)
  }

  /** A 200 whose decoded body holds a non-empty list of items that all carry a readable id. */
  ghost predicate ListsReadableIds(o: Outcome<Payload>)
  {
    && o.Response? && o.status == 200 && o.body.json.Some?
    && var found := Lookup(o.body.json.value, ItemsKeys);
       && found.Ok? && found.value.JArr? && found.value.items != []
       && forall i :: 0 <= i < |found.value.items| ==> IdNumber(found.value.items[i]).Ok?
  }

  /**
   * On a 200 whose items all carry a readable id, the answer is the number
   * of one of them and no item has a higher one; a status other than 200
   * gives None and a failed request RequestError.
   */
  lemma LastIdOnlineMeets(o: Outcome<Payload>)
    ensures o.Raised? ==> LastIdOnline(o) == Err(RequestError)
    ensures o.Response? && o.status != 200 ==> LastIdOnline(o) == Ok(None)
    ensures ListsReadableIds(o) ==> LastIdOnline(o).Ok? && LastIdOnline(o).value.Some?
    ensures LastIdOnline(o).Ok? && LastIdOnline(o).value.Some? ==>
      Highest(Lookup(o.body.json.value, ItemsKeys).value.items, LastIdOnline(o).value.value)
  {
    var r := LastIdOnline(o);
    if ListsReadableIds(o) {
      IdNumbersMeets(Lookup(o.body.json.value, ItemsKeys).value.items);
    }
    if r.Ok? && r.value.Some? {
      var items := Lookup(o.body.json.value, ItemsKeys).value.items;
      IdNumbersMeets(items);
      var ns := IdNumbers(items).value;
      var m := r.value.value;
      assert m == Max(ns);
      var j :| 0 <= j < |ns| && ns[j] == m;
      assert IdNumber(items[j]).Ok? && ns[j] == IdNumber(items[j]).value;
      assert j < |items| && IdNumber(items[j]) == Ok(m);
      forall i | 0 <= i < |items| ensures IdNumber(items[i]).Ok? && IdNumber(items[i]).value <= m {
        assert ns[i] in ns;
      }
    }
  }

  /** An empty list on a 200 makes max() raise ValueError. */
  lemma NoItemsRaises(o: Outcome<Payload>)
    requires o.Response? && o.status == 200 && o.body.json.Some?
    requires Lookup(o.body.json.value, ItemsKeys) == Ok(JArr([]))
    ensures LastIdOnline(o) == Err(ValueError)
  {
  }

  /** The id of a record this model requests reads back as its number. */
  lemma IdNumberReadsBack(x: Id)
    ensures IdNumber(JObj(map["cve" := JObj(map["CVE_data_meta" := JObj(map["ID" := JStr("CVE-" + CveId(x))])])]))
            == Ok(x.number)
  {
    var text := "CVE-" + CveId(x);
    IdLookup(text);
    IdTextSplits(x);
    ZFillStr(x.number, 4);
  }

  lemma IdLookup(text: string)
    ensures Lookup(JObj(map["cve" := JObj(map["CVE_data_meta" := JObj(map["ID" := JStr(text)])])]), IdKeys)
            == Ok(JStr(text))
  {
    var inner := JObj(map["ID" := JStr(text)]);
    var middle := JObj(map["CVE_data_meta" := inner]);
    assert Lookup(inner, IdKeys[2..]) == Ok(JStr(text));
    assert Lookup(middle, IdKeys[1..]) == Ok(JStr(text));
  }

  /** 'CVE-YYYY-NNNN'.split('-') gives the prefix, the year and the number. */
  lemma IdTextSplits(x: Id)
    ensures Split("CVE-" + CveId(x), '-') == ["CVE", Str(x.year), ZFill(Str(x.number), 4)]
  {
    var y, n := Str(x.year), ZFill(Str(x.number), 4);
    ZFillStr(x.number, 4);
    DigitsHaveNo(y, '-');
    DigitsHaveNo(n, '-');
    assert "CVE-" + CveId(x) == "CVE" + ['-'] + y + ['-'] + n;
    SplitFields("CVE", y, n, '-');
  }

  /** The list-building loop of retrieve_last_CVE_ID_online, then max(). */
  method RetrieveLastCveIdOnline(o: Outcome<Payload>) returns (r: Result<Option<nat>>)
    ensures r == LastIdOnline(o)
  {
    if o.Raised? {
      return Err(RequestError);
    }
    if o.status != 200 {
      return Ok(None);
    }
    if o.body.json.None? {
      return Err(ValueError);
    }
    var found := Lookup(o.body.json.value, ItemsKeys);
    if found.Err? {
      return Err(found.error);
    }
    var cveItems := found.value;
    var idList: seq<nat> := [];
    if Truthy(cveItems) {
      if !cveItems.JArr? {
        return Err(TypeError);
      }
      var items := cveItems.items;
      var i := 0;
      while i < |items|
        invariant 0 <= i <= |items|
        invariant IdNumbers(items[..i]) == Ok(idList)
      {
        assert items[..i + 1][..i] == items[..i];
        var n := IdNumber(items[i]);
        if n.Err? {
          IdNumbersStop(items, i);
          return Err(n.error);
        }
        idList := idList + [n.value];
        i := i + 1;
      }
      assert items[..i] == items;
    }
    if idList == [] {
      return Err(ValueError);
    }
    r := Ok(Some(Max(idList)));
  }

  /** The first item without a readable id stops the loop with its exception. */
  lemma {:induction false} IdNumbersStop(items: seq<Json>, i: nat)
    requires i < |items| && IdNumbers(items[..i]).Ok? && IdNumber(items[i]).Err?
    ensures IdNumbers(items) == Err(IdNumber(items[i]).error)
    decreases |items|
  {
    var front := items[..|items| - 1];
    if i < |front| {
      assert front[..i] == items[..i];
      IdNumbersStop(front, i);
    } else {
      assert front == items[..i];
    }
  }
}
