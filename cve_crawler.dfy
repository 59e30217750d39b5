/**
 * The resumable CVE crawler (src/CVECrawler.py). One cycle of run() reads
 * the cursor file .last_cve.txt ("year,next"), enumerates the ids from
 * there to the current year, and for each id requests the record, adds the
 * fetched cross-references to it, appends it to the archive, and
 * overwrites the cursor, whatever happened to that id.
 */
module CveCrawler {
  import opened Base
  import opened Text
  import opened FileTree
  import opened CveRecord

  /** The field add_references_to_json sets. */
  const AddedKey: string := "added_references"

  /** Where the reference list sits in a record: ['containers']['cna']['references']. */
  const RefKeys: seq<string> := ["containers", "cna", "references"]

  /** A GET the crawler issues: the record of an id, or a reference URL found in a record. */
  datatype Request = Record(id: Id) | Reference(url: string)

  /** The URL a request goes to. */
  function Url(r: Request): string
  {
    match r
    case Record(x) => RecordUrl(x)
    case Reference(u) => u
  }

  /**
   * What the crawler can change: the archive, the text of the cursor file
   * (None while it does not exist), the sleeps taken and the requests issued.
   */
  datatype Site = Site(fs: Archive, cursor: Option<string>, sleeps: seq<int>, requested: seq<Request>)

  /** A value computed while issuing requests: the value or the exception, and the requests issued so far. */
  datatype Fetched<T> = Fetched(result: Result<T>, requested: seq<Request>)

  // ---------------------------------------------------------------------
  // add_references_to_json
  // ---------------------------------------------------------------------

  /**
   * The first loop: ref['url'] for every ref in the reference list. A list
   * is walked in order; an empty string or dict has nothing to walk; a
   * non-empty string or dict yields strings, which cannot be indexed by
   * 'url'; anything else is not iterable.
   */
  function UrlsOf(refs: Json): Result<seq<Json>>
  {
    match refs
    case JArr(items) => UrlsOfItems(items)
    case JStr(s) => if s == [] then Ok([]) else Err(TypeError)
    case JObj(fields) => if |fields| == 0 then Ok([]) else Err(TypeError)
    case _ => Err(TypeError)
  }

  function UrlsOfItems(items: seq<Json>): Result<seq<Json>>
    decreases |items|
  {
    if items == [] then Ok([])
    else
      match UrlsOfItems(items[..|items| - 1])
      case Err(e) => Err(e)
      case Ok(us) =>
        match Get(items[|items| - 1], "url")
        case Err(e) => Err(e)
        case Ok(u) => Ok(us + [u])
  }

  /**
   * The urls are the items' 'url' fields, in order, when every item has
   * one; otherwise the exception is the one of the first item without.
   */
  lemma {:induction false} UrlsOfItemsMeets(items: seq<Json>)
    ensures var r := UrlsOfItems(items);
      && (r.Ok? <==> forall i :: 0 <= i < |items| ==> Get(items[i], "url").Ok?)
      && (r.Ok? ==> |r.value| == |items| && forall i :: 0 <= i < |items| ==> r.value[i] == Get(items[i], "url").value)
      && (r.Err? ==> exists k :: 0 <= k < |items| && Get(items[k], "url") == Err(r.error) &&
                       forall i :: 0 <= i < k ==> Get(items[i], "url").Ok?)
    decreases |items|
  {
    if items != [] {
      var front := items[..|items| - 1];
      UrlsOfItemsMeets(front);
      assert forall i :: 0 <= i < |front| ==> front[i] == items[i];
    }
  }

  /** The first item without a 'url' stops the loop with its exception, whatever follows it. */
  lemma {:induction false} UrlsOfItemsStops(items: seq<Json>, i: nat)
    requires i < |items| && UrlsOfItems(items[..i]).Ok? && Get(items[i], "url").Err?
    ensures UrlsOfItems(items) == Err(Get(items[i], "url").error)
    decreases |items|
  {
    var front := items[..|items| - 1];
    if i < |front| {
      assert front[..i] == items[..i];
      UrlsOfItemsStops(front, i);
    } else {
      assert front == items[..i];
    }
  }

  /** The pair stored for one reference: the URL with the body on a 200, else with the status. */
  function Pair(url: Json, status: int, body: Payload): Json
  {
    JArr([url, if status == 200 then JStr(body.text) else JNum(status)])
  }

  /**
   * The second loop: one request per URL, in order. A URL that is not a
   * string is refused by requests before anything is sent.
   */
  function Gather(net: Network<Payload>, urls: seq<Json>, requested: seq<Request>): Fetched<seq<Json>>
    decreases |urls|
  {
    if urls == [] then Fetched(Ok([]), requested)
    else
      var g := Gather(net, urls[..|urls| - 1], requested);
      var u := urls[|urls| - 1];
      match g.result
      case Err(_) => g
      case Ok(pairs) =>
        if !u.JStr? then Fetched(Err(RequestError), g.requested)
        else
          match net(|g.requested|)
          case Raised => Fetched(Err(RequestError), g.requested + [Reference(u.s)])
          case Response(status, body) => Fetched(Ok(pairs + [Pair(u, status, body)]), g.requested + [Reference(u.s)])
  }

  /** Every URL is a string and the request for each of them, counted from base, gets a response. */
  ghost predicate AllAnswered(net: Network<Payload>, urls: seq<Json>, base: nat)
  {
    forall i :: 0 <= i < |urls| ==> urls[i].JStr? && net(base + i).Response?
  }

  lemma AllAnsweredSnoc(net: Network<Payload>, urls: seq<Json>, base: nat)
    requires urls != []
    ensures var n := |urls| - 1;
      AllAnswered(net, urls, base) <==>
        AllAnswered(net, urls[..n], base) && urls[n].JStr? && net(base + n).Response?
  {
    var n := |urls| - 1;
    var front := urls[..n];
    if AllAnswered(net, urls, base) {
      forall i | 0 <= i < |front| ensures front[i].JStr? && net(base + i).Response? {
        assert front[i] == urls[i];
      }
      assert AllAnswered(net, front, base) && urls[n].JStr? && net(base + n).Response?;
    }
    if AllAnswered(net, front, base) && urls[n].JStr? && net(base + n).Response? {
      forall i | 0 <= i < |urls| ensures urls[i].JStr? && net(base + i).Response? {
        if i < n {
          assert front[i] == urls[i];
          assert front[i].JStr? && net(base + i).Response?;
        }
      }
      assert AllAnswered(net, urls, base);
    }
  }

  /**
   * Gathering succeeds exactly when every URL is a string and every request
   * gets a response; then the i-th pair holds the i-th URL and what the
   * i-th request returned, and the requests are the URLs in order.
   */
  lemma {:induction false} GatherMeets(net: Network<Payload>, urls: seq<Json>, requested: seq<Request>)
    ensures var g := Gather(net, urls, requested);
      && requested <= g.requested
      && (g.result.Ok? <==> AllAnswered(net, urls, |requested|))
      && (g.result.Ok? ==>
            && |g.requested| == |requested| + |urls|
            && |g.result.value| == |urls|
            && forall i :: 0 <= i < |urls| ==>
                 && urls[i].JStr? && net(|requested| + i).Response?
                 && g.requested[|requested| + i] == Reference(urls[i].s)
                 && g.result.value[i] == Pair(urls[i], net(|requested| + i).status, net(|requested| + i).body))
    decreases |urls|
  {
    if urls != [] {
      var front := urls[..|urls| - 1];
      GatherMeets(net, front, requested);
      AllAnsweredSnoc(net, urls, |requested|);
      assert forall i :: 0 <= i < |front| ==> front[i] == urls[i];
      var g := Gather(net, front, requested);
      if g.result.Ok? {
        GatherLast(net, urls, requested, g);
      }
    }
  }

  /** Once a request fails, the later URLs are neither requested nor paired. */
  lemma {:induction false} GatherStops(net: Network<Payload>, urls: seq<Json>, requested: seq<Request>, k: nat)
    requires k <= |urls| && Gather(net, urls[..k], requested).result.Err?
    ensures Gather(net, urls, requested) == Gather(net, urls[..k], requested)
    decreases |urls|
  {
    if k < |urls| {
      var front := urls[..|urls| - 1];
      assert front[..k] == urls[..k];
      GatherStops(net, front, requested, k);
    } else {
      assert urls[..k] == urls;
    }
  }

  lemma GatherLast(net: Network<Payload>, urls: seq<Json>, requested: seq<Request>, g: Fetched<seq<Json>>)
    requires urls != [] && g == Gather(net, urls[..|urls| - 1], requested) && g.result.Ok?
    requires |g.requested| == |requested| + (|urls| - 1) && |g.result.value| == |urls| - 1
    ensures var r, n := Gather(net, urls, requested), |urls| - 1;
      && (r.result.Ok? <==> urls[n].JStr? && net(|requested| + n).Response?)
      && (r.result.Ok? ==> r.requested == g.requested + [Reference(urls[n].s)] &&
                           r.result.value == g.result.value + [Pair(urls[n], net(|requested| + n).status,
                                                                    net(|requested| + n).body)])
      && g.requested <= r.requested
  {
  }

  /**
   * add_references_to_json: the record's reference URLs, each paired with
   * its fetched body or status, stored under 'added_references'.
   */
  function AddReferences(net: Network<Payload>, doc: Json, requested: seq<Request>): Fetched<Json>
  {
    match Lookup(doc, RefKeys)
    case Err(e) => Fetched(Err(e), requested)
    case Ok(refs) =>
      match UrlsOf(refs)
      case Err(e) => Fetched(Err(e), requested)
      case Ok(urls) =>
        var g := Gather(net, urls, requested);
        match g.result
        case Err(e) => Fetched(Err(e), g.requested)
        case Ok(pairs) =>
          match doc
          case JObj(fields) => Fetched(Ok(JObj(fields[AddedKey := JArr(pairs)])), g.requested)
          case _ => Fetched(Err(TypeError), g.requested)
  }

  /** A successful lookup by at least one key starts from a dict. */
  lemma LookupFromObject(j: Json, keys: seq<string>)
    requires keys != [] && Lookup(j, keys).Ok?
    ensures j.JObj?
  {
  }

  /**
   * Adding the references succeeds exactly when the reference list is
   * there, its urls can be read and each of them answers; the record then
   * gains 'added_references', holding the gathered pairs, and every other
   * field keeps its value.
   */
  lemma AddReferencesMeets(net: Network<Payload>, doc: Json, requested: seq<Request>)
    ensures var f := AddReferences(net, doc, requested);
      && requested <= f.requested
      && (f.result.Ok? <==>
            Lookup(doc, RefKeys).Ok? && UrlsOf(Lookup(doc, RefKeys).value).Ok? &&
            Gather(net, UrlsOf(Lookup(doc, RefKeys).value).value, requested).result.Ok?)
      && (f.result.Ok? ==>
            && doc.JObj? && f.result.value.JObj?
            && f.result.value.fields.Keys == doc.fields.Keys + {AddedKey}
            && (forall k :: k in doc.fields && k != AddedKey ==> f.result.value.fields[k] == doc.fields[k])
            && f.result.value.fields[AddedKey] ==
                 JArr(Gather(net, UrlsOf(Lookup(doc, RefKeys).value).value, requested).result.value))
  {
    if Lookup(doc, RefKeys).Ok? {
      LookupFromObject(doc, RefKeys);
      var urls := UrlsOf(Lookup(doc, RefKeys).value);
      if urls.Ok? {
        GatherMeets(net, urls.value, requested);
      }
    }
  }

  /** The two loops of add_references_to_json, proved to compute AddReferences. */
  method AddReferencesToJson(net: Network<Payload>, doc: Json, requested: seq<Request>)
    returns (r: Result<Json>, requested': seq<Request>)
    ensures Fetched(r, requested') == AddReferences(net, doc, requested)
  {
    requested' := requested;
    var found := Lookup(doc, RefKeys);
    if found.Err? {
      return Err(found.error), requested';
    }
    var references: seq<Json>;
    match found.value {
      case JArr(items) =>
        references := [];
        var i := 0;
        while i < |items|
          invariant 0 <= i <= |items|
          invariant UrlsOfItems(items[..i]) == Ok(references)
        {
          assert items[..i + 1][..i] == items[..i];
          var u := Get(items[i], "url");
          if u.Err? {
            UrlsOfItemsStops(items, i);
            return Err(u.error), requested';
          }
          references := references + [u.value];
          i := i + 1;
        }
        assert items[..i] == items;
      case JStr(text) =>
        if text != [] {
          return Err(TypeError), requested';
        }
        references := [];
      case JObj(fields) =>
        if |fields| != 0 {
          return Err(TypeError), requested';
        }
        references := [];
      case _ =>
        return Err(TypeError), requested';
    }
    var readReferences: seq<Json> := [];
    var j := 0;
    while j < |references|
      invariant 0 <= j <= |references|
      invariant Gather(net, references[..j], requested) == Fetched(Ok(readReferences), requested')
    {
      assert references[..j + 1][..j] == references[..j];
      var url := references[j];
      if !url.JStr? {
        GatherStops(net, references, requested, j + 1);
        return Err(RequestError), requested';
      }
      var response := net(|requested'|);
      requested' := requested' + [Reference(url.s)];
      match response {
        case Raised =>
          GatherStops(net, references, requested, j + 1);
          return Err(RequestError), requested';
        case Response(status, body) =>
          readReferences := readReferences + [Pair(url, status, body)];
      }
      j := j + 1;
    }
    assert references[..j] == references;
    match doc {
      case JObj(fields) =>
        r := Ok(JObj(fields[AddedKey := JArr(readReferences)]));
      case _ =>
        r := Err(TypeError);
    }
  }

  // ---------------------------------------------------------------------
  // download_data
  // ---------------------------------------------------------------------

  /** The cursor text written after visiting x: f'{year},{i + 1}'. */
  function CursorText(x: Id): string
  {
    Str(x.year) + "," + Str(x.number + 1)
  }

  /** What a 200 response leads to: decode, add the references, save; any exception is swallowed. */
  function Received(net: Network<Payload>, s: Site, body: Payload): Site
  {
    match body.json
    case None => s
    case Some(doc) =>
      var f := AddReferences(net, doc, s.requested);
      match f.result
      case Err(_) => s.(requested := f.requested)
      case Ok(full) => s.(fs := SaveData(s.fs, full).fs, requested := f.requested)
  }

  /** One turn of the inner loop of download_data for the id x. */
  function Visit(c: Config, net: Network<Payload>, s: Site, x: Id): Site
  {
    var s1 := s.(requested := s.requested + [Record(x)]);
    var s2 :=
      match net(|s.requested|)
      case Raised => s1
      case Response(status, body) =>
        if status == 200 then Received(net, s1, body)
        else if status == 429 then s1.(sleeps := s1.sleeps + [c.retryInterval])
        else s1;
    s2.(cursor := Some(CursorText(x)))
  }

  function Step(c: Config, net: Network<Payload>): (Site, Id) -> Site
  {
    (s: Site, x: Id) => Visit(c, net, s, x)
  }

  /** The ids visited in order, each one once. */
  function Crawl(c: Config, net: Network<Payload>, s: Site, ids: seq<Id>): Site
  {
    Fold<Site, Id>(Step(c, net), s, ids)
  }

  /**
   * One id: the record's URL is the first request issued, and the cursor
   * then names the next id, whatever the response was.
   */
  lemma VisitCursor(c: Config, net: Network<Payload>, s: Site, x: Id)
    ensures var r := Visit(c, net, s, x);
      && r.cursor == Some(CursorText(x))
      && |s.requested| < |r.requested|
      && r.requested[..|s.requested| + 1] == s.requested + [Record(x)]
  {
    var s1 := s.(requested := s.requested + [Record(x)]);
    var o := net(|s.requested|);
    if o.Response? && o.status == 200 {
      ReceivedMeets(net, s1, o.body);
    }
  }

  /** One id: a 429 sleeps retry_interval, and nothing else sleeps. */
  lemma VisitSleeps(c: Config, net: Network<Payload>, s: Site, x: Id)
    ensures var r, o := Visit(c, net, s, x), net(|s.requested|);
      r.sleeps == s.sleeps + (if o.Response? && o.status == 429 then [c.retryInterval] else [])
  {
    var s1 := s.(requested := s.requested + [Record(x)]);
    var o := net(|s.requested|);
    if o.Response? && o.status == 200 {
      ReceivedMeets(net, s1, o.body);
    }
  }

  /**
   * One id: the archive only grows, and only a 200 can touch it; any other
   * outcome issues just the record's request.
   */
  lemma VisitArchive(c: Config, net: Network<Payload>, s: Site, x: Id)
    ensures var r, o := Visit(c, net, s, x), net(|s.requested|);
      && (WellFormed(s.fs) ==> WellFormed(r.fs) && Grows(s.fs, r.fs))
      && (!(o.Response? && o.status == 200) ==> r.fs == s.fs && r.requested == s.requested + [Record(x)])
  {
    var s1 := s.(requested := s.requested + [Record(x)]);
    var o := net(|s.requested|);
    if o.Response? && o.status == 200 {
      ReceivedMeets(net, s1, o.body);
    } else {
      GrowsRefl(s.fs);
    }
  }

  /**
   * After a 200 the archive changes only by saving the record with its
   * references, when the body decodes and the references can be added.
   */
  lemma ReceivedMeets(net: Network<Payload>, s: Site, body: Payload)
    ensures var r := Received(net, s, body);
      && r.sleeps == s.sleeps && r.cursor == s.cursor
      && s.requested <= r.requested
      && (WellFormed(s.fs) ==> WellFormed(r.fs) && Grows(s.fs, r.fs))
      && (body.json.None? ==> r == s)
      && (body.json.Some? && AddReferences(net, body.json.value, s.requested).result.Err? ==> r.fs == s.fs)
      && (body.json.Some? && AddReferences(net, body.json.value, s.requested).result.Ok? ==>
            r.fs == SaveData(s.fs, AddReferences(net, body.json.value, s.requested).result.value).fs)
  {
    match body.json {
      case None =>
        GrowsRefl(s.fs);
      case Some(doc) =>
        AddReferencesMeets(net, doc, s.requested);
        var f := AddReferences(net, doc, s.requested);
        if f.result.Ok? && WellFormed(s.fs) {
          SaveDataMeets(s.fs, f.result.value);
        } else {
          GrowsRefl(s.fs);
        }
    }
  }

  /** Over a whole enumeration the archive only grows. */
  lemma CrawlGrows(c: Config, net: Network<Payload>, s: Site, ids: seq<Id>)
    requires WellFormed(s.fs)
    ensures WellFormed(Crawl(c, net, s, ids).fs) && Grows(s.fs, Crawl(c, net, s, ids).fs)
  {
    var keep := (a: Site, b: Site) => WellFormed(a.fs) ==> WellFormed(b.fs) && Grows(a.fs, b.fs);
    forall a: Site ensures keep(a, a) {
      GrowsRefl(a.fs);
    }
    forall a: Site, b: Site, d: Site | keep(a, b) && keep(b, d) ensures keep(a, d) {
      if WellFormed(a.fs) { GrowsTrans(a.fs, b.fs, d.fs); }
    }
    forall a: Site, x: Id ensures keep(a, Step(c, net)(a, x)) {
      VisitArchive(c, net, a, x);
    }
    FoldKeeps<Site, Id>(Step(c, net), keep, s, ids);
  }

  /** One id keeps the requests made before and sleeps, if at all, retry_interval. */
  lemma VisitKeepsLog(c: Config, net: Network<Payload>, s: Site, x: Id)
    ensures var r := Visit(c, net, s, x);
      s.requested <= r.requested && ExtendsWith(s.sleeps, r.sleeps, c.retryInterval)
  {
    VisitCursor(c, net, s, x);
    VisitSleeps(c, net, s, x);
    var r := Visit(c, net, s, x);
    assert s.requested <= r.requested[..|s.requested| + 1];
  }

  /**
   * Over a whole enumeration the requests made before are kept and every
   * sleep taken is retry_interval.
   */
  lemma CrawlSleeps(c: Config, net: Network<Payload>, s: Site, ids: seq<Id>)
    ensures var r := Crawl(c, net, s, ids);
      s.requested <= r.requested && ExtendsWith(s.sleeps, r.sleeps, c.retryInterval)
  {
    var keep := (a: Site, b: Site) => a.requested <= b.requested && ExtendsWith(a.sleeps, b.sleeps, c.retryInterval);
    forall a: Site, b: Site, d: Site | keep(a, b) && keep(b, d) ensures keep(a, d) {
      ExtendsWithTrans(a.sleeps, b.sleeps, d.sleeps, c.retryInterval);
    }
    forall a: Site, x: Id ensures keep(a, Step(c, net)(a, x)) {
      VisitKeepsLog(c, net, a, x);
    }
    FoldKeeps<Site, Id>(Step(c, net), keep, s, ids);
  }

  /** After an enumeration the cursor names the id after the last one visited. */
  lemma CrawlCursor(c: Config, net: Network<Payload>, s: Site, ids: seq<Id>)
    ensures ids == [] ==> Crawl(c, net, s, ids).cursor == s.cursor
    ensures ids != [] ==> Crawl(c, net, s, ids).cursor == Some(CursorText(ids[|ids| - 1]))
  {
    var f := (a: Site) => a.cursor;
    var g := (x: Id) => Some(CursorText(x));
    forall a: Site, x: Id ensures f(Step(c, net)(a, x)) == g(x) {
      VisitCursor(c, net, a, x);
    }
    FoldLast<Site, Id, Option<string>>(Step(c, net), f, g, s, ids);
  }

  /** One turn of the inner loop, as the program runs it. */
  method TryId(c: Config, net: Network<Payload>, s: Site, x: Id) returns (s': Site)
    ensures s' == Visit(c, net, s, x)
  {
    var response := net(|s.requested|);
    s' := s.(requested := s.requested + [Record(x)]);
    match response {
      case Raised =>
      case Response(status, body) =>
        if status == 200 {
          match body.json {
            case None =>
            case Some(doc) =>
              var complete, requested' := AddReferencesToJson(net, doc, s'.requested);
              s' := s'.(requested := requested');
              match complete {
                case Err(_) =>
                case Ok(full) =>
                  s' := s'.(fs := SaveData(s'.fs, full).fs);
              }
          }
        } else if status == 429 {
          s' := s'.(sleeps := s'.sleeps + [c.retryInterval]);
        }
    }
    s' := s'.(cursor := Some(CursorText(x)));
  }

  /** The inner for-loop: the numbers of one year, from cve_from to 59999. */
  method DownloadYear(c: Config, net: Network<Payload>, year: nat, cveFrom: nat, s: Site)
    returns (s': Site)
    ensures s' == Crawl(c, net, s, Row(year, cveFrom))
  {
    s' := s;
    var i := cveFrom;
    ghost var k: nat := 0;
    while i < Limit
      invariant i == cveFrom + k && (i <= Limit || k == 0)
      invariant s' == Crawl(c, net, s, Row(year, cveFrom)[..k])
      decreases Limit - i
    {
      CrawlRowStep(c, net, s, year, cveFrom, k);
      s' := TryId(c, net, s', Id(year, i));
      i, k := i + 1, k + 1;
    }
    assert Row(year, cveFrom)[..k] == Row(year, cveFrom);
  }

  /** The next prefix of a row is one id longer, so crawling it is one more visit. */
  lemma CrawlRowStep(c: Config, net: Network<Payload>, s: Site, year: nat, from: nat, k: nat)
    requires from + k < Limit
    ensures Crawl(c, net, s, Row(year, from)[..k + 1]) ==
            Visit(c, net, Crawl(c, net, s, Row(year, from)[..k]), Id(year, from + k))
  {
    assert Row(year, from)[..k + 1] == Row(year, from)[..k] + [Id(year, from + k)];
    FoldSnoc<Site, Id>(Step(c, net), s, Row(year, from)[..k], Id(year, from + k));
  }

  /**
   * download_data(year_from, cve_from): the nested for-loops over the
   * years up to this year and the numbers from cve_from to 59999.
   */
  method DownloadData(c: Config, net: Network<Payload>, thisYear: int, yearFrom: nat, cveFrom: nat, s: Site)
    returns (s': Site)
    ensures s' == Crawl(c, net, s, Ids(yearFrom, thisYear, cveFrom))
  {
    s' := s;
    var year: int := yearFrom;
    ghost var last: int := year - 1;
    while year <= thisYear
      invariant yearFrom <= year && (year <= thisYear + 1 || year == yearFrom)
      invariant last == year - 1
      invariant s' == Crawl(c, net, s, Ids(yearFrom, last, cveFrom))
      decreases thisYear - year
    {
      s' := DownloadYear(c, net, year, cveFrom, s');
      FoldAppend<Site, Id>(Step(c, net), s, Ids(yearFrom, last, cveFrom), Row(year, cveFrom));
      last := year;
      year := year + 1;
    }
    IdsEnd(yearFrom, year, thisYear, cveFrom);
  }

  // ---------------------------------------------------------------------
  // run: one cycle
  // ---------------------------------------------------------------------

  /**
   * The cursor file's text: split on ',', the first two fields as
   * integers; fewer than two fields raise IndexError before int() runs.
   */
  function ParseCursor(text: string): Result<(nat, nat)>
  {
    var parts := Split(text, ',');
    if |parts| < 2 then Err(IndexError)
    else
      match ParseNat(parts[0])
      case Err(e) => Err(e)
      case Ok(year) =>
        match ParseNat(parts[1])
        case Err(e) => Err(e)
        case Ok(index) => Ok((year, index))
  }

  /** What is written is read back. */
  lemma CursorReadsBack(year: nat, index: nat)
    ensures ParseCursor(Str(year) + "," + Str(index)) == Ok((year, index))
  {
    var y, n := Str(year), Str(index);
    DigitsHaveNo(y, ',');
    DigitsHaveNo(n, ',');
    SplitWithout(n, ',');
    SplitAt(y, ',', n);
    assert y + "," + n == y + [','] + n;
    ParseStr(year);
    ParseStr(index);
  }

  /** Where a cycle starts: (1999, 1) without a cursor file, else what the file says. */
  function Start(cursor: Option<string>): Result<(nat, nat)>
  {
    match cursor
    case None => Ok((1999, 1))
    case Some(text) => ParseCursor(text)
  }

  /**
   * One turn of run()'s endless loop: a cursor that does not parse ends
   * run() with its exception; otherwise download_data from the cursor,
   * then sleep update_interval.
   */
  function Cycle(c: Config, net: Network<Payload>, thisYear: int, s: Site): Result<Site>
  {
    match Start(s.cursor)
    case Err(e) => Err(e)
    case Ok((year, index)) => Ok(CycleFrom(c, net, thisYear, s, year, index))
  }

  /** A cycle that starts from (year, index). */
  function CycleFrom(c: Config, net: Network<Payload>, thisYear: int, s: Site, year: nat, index: nat): Site
  {
    var r := Crawl(c, net, s, Ids(year, thisYear, index));
    r.(sleeps := r.sleeps + [c.updateInterval])
  }

  method Run(c: Config, net: Network<Payload>, thisYear: int, s: Site) returns (r: Result<Site>)
    ensures r == Cycle(c, net, thisYear, s)
  {
    var from := Start(s.cursor);
    if from.Err? {
      return Err(from.error);
    }
    var (year, index) := from.value;
    var s' := DownloadData(c, net, thisYear, year, index, s);
    r := Ok(s'.(sleeps := s'.sleeps + [c.updateInterval]));
  }

  /**
   * A cycle that follows one that visited x resumes at x's year with the
   * next number -- and that number is where every later year starts too.
   */
  lemma CycleResumes(c: Config, net: Network<Payload>, thisYear: int, s: Site, x: Id)
    requires s.cursor == Some(CursorText(x))
    ensures Cycle(c, net, thisYear, s) == Ok(CycleFrom(c, net, thisYear, s, x.year, x.number + 1))
  {
    StartAfter(x);
  }

  lemma StartAfter(x: Id)
    ensures Start(Some(CursorText(x))) == Ok((x.year, x.number + 1))
  {
    CursorReadsBack(x.year, x.number + 1);
  }

  /** No number is left to visit from 60000 on, in any year. */
  lemma {:induction false} IdsPastLimit(yearFrom: nat, yearTo: int, from: nat)
    requires from >= Limit
    ensures Ids(yearFrom, yearTo, from) == []
    decreases yearTo - yearFrom
  {
    if yearTo >= yearFrom {
      IdsPastLimit(yearFrom, yearTo - 1, from);
    }
  }

  /**
   * Once the id numbered 59999 of any year has been visited, the cursor
   * says 60000, and every later cycle requests nothing and writes nothing:
   * it only sleeps.
   */
  lemma StuckAfterLastNumber(c: Config, net: Network<Payload>, thisYear: int, s: Site, year: nat)
    requires s.cursor == Some(CursorText(Id(year, Limit - 1)))
    ensures Cycle(c, net, thisYear, s) == Ok(s.(sleeps := s.sleeps + [c.updateInterval]))
  {
    CursorReadsBack(year, Limit);
    IdsPastLimit(year, thisYear, Limit);
  }

  /**
   * Resuming from number n skips the numbers below n in every year after
   * the cursor's year, not only in that year.
   */
  lemma ResumeSkips(yearFrom: nat, thisYear: int, from: nat, x: Id)
    requires yearFrom < x.year <= thisYear && x.number < from
    ensures x !in Ids(yearFrom, thisYear, from)
    ensures from < Limit ==> Id(x.year, from) in Ids(yearFrom, thisYear, from)
  {
    IdsEnumerate(yearFrom, thisYear, from);
  }
}
