# ecrawlers in Dafny

A model of the crawlers in ecrawlers. They mirror two public
vulnerability feeds into a local archive of files:

- **The EPSS crawler** (`epss/EPSSCrawler.py`) fetches one gzip file of
  EPSS scores per day.
  - It walks the days from the day after the newest file it already holds
    (or from 2021-04-14) up to yesterday.
  - It shares one retry counter across the whole walk.
  - It writes a day whose attempts ran out to `missing_dates.txt`.
- **The second EPSS crawler** (`epss-crawler/src/EPSSCrawler.py`) has the
  same walk with a different retry policy. Its storage methods are stubs.
- **The resumable CVE crawler** (`src/CVECrawler.py`) enumerates ids
  `CVE-YYYY-NNNN` from a cursor file.
  - It adds the fetched cross-references to each record and appends the
    record to a `.jsonl` file named after the record's reservation date.
  - It rewrites the cursor after every id.
- **The older CVE crawler** (`CVECrawler.py`) bootstraps an empty archive
  with the same enumeration. It also has a helper that reads the highest
  CVE number from the NVD service.

The outside world becomes values:

- **The network** is a function from the number of the request to its
  outcome: a status and a body, or a raised exception.
- **Sleeps** are a trace of durations.
- **The storage directory** is a map from paths to directories and files.
  The file operations fail with `OSError` wherever Python's would.
- **Today's date** and the current year are parameters.
- **Dates** are Python `date` ordinals (0001-01-01 is 1). The calendar is
  written out: the closed form for the days before a year, `str(date)`,
  and a strict `%Y-%m-%d` parser. Both directions are proved.

Each loop of the source is a method with a `while` loop. Each method is
proved to end in the state that a recursive specification function
computes (`Loop`, `Crawl`, `Bootstrap`). The crawlers' promises are
lemmas about those functions.

Modules:

| module | models |
|---|---|
| `Base` | options, results, Python exception classes, request outcomes, folds |
| `Text` | `str.split`, `str(n)`, `int(s)`, `'%0Nd'`, `zfill` and `lstrip` |
| `Calendar` | dates |
| `FileTree` | the storage directory |
| `EpssArchive` | the EPSS archive |
| `EpssCrawler` | the EPSS walk |
| `EpssVariant` | the second EPSS crawler |
| `CveRecord` | JSON records, `save_data` and id enumeration, shared by both CVE crawlers |
| `CveCrawler` | the resumable CVE crawler |
| `CveLegacy` | the older CVE crawler |

## Model

| member | source | states |
|---|---|---|
| Calendar.DaysBeforeYearClosedForm | epss/EPSSCrawler.py:44-46 | the days before year y counted year by year equal Python's closed form 365p + p/4 - p/100 + p/400 with p = y - 1 |
| Calendar.NextDay | epss/EPSSCrawler.py:44-46 | date + timedelta(days=1) is a valid date whose ordinal is one higher |
| Calendar.PrevDay | epss-crawler/src/EPSSCrawler.py:45-47 | date - timedelta(days=1) is a valid date, one ordinal lower, and NextDay of it gives the date back |
| Calendar.FromOrdinal | epss/EPSSCrawler.py:44-46 | date.fromordinal(n), defined by counting days, is a valid date whose ordinal is n |
| Calendar.FromToOrdinal | epss/EPSSCrawler.py:44-46 | converting a valid date to its ordinal and back gives the same date |
| Calendar.OrdinalInRange | epss/EPSSCrawler.py:44-46 | every valid date from 0001-01-01 to 9999-12-31 has an ordinal in 1..3652059 |
| Calendar.OrdinalInjective | epss/EPSSCrawler.py:44-46 | distinct valid dates have distinct ordinals |
| Calendar.LastDay | epss/EPSSCrawler.py:44-46 | 9999-12-31 is valid and has the highest ordinal 3652059 |
| Calendar.FormatDate | epss/EPSSCrawler.py:51 | str(date) is ten characters long |
| Calendar.ParseFormat | epss/EPSSCrawler.py:97 | strptime('%Y-%m-%d') of str(date) gives the same date back |
| Calendar.FormatInjective | epss/EPSSCrawler.py:51 | different days render differently |
| Calendar.ParsedInRange | epss/EPSSCrawler.py:97 | a string that parses names a representable day |
| Calendar.SplitFormat | epss/EPSSCrawler.py:106-108 | str(date).split('-') is the zero-padded year, month and day |
| Text.Str | src/CVECrawler.py:40 | str(n) is a non-empty digit string worth n with no leading zero |
| Text.ParseStr | src/CVECrawler.py:58 | int(str(n)) == n |
| Text.ZFill | src/CVECrawler.py:40 | zfill(w) left-pads with '0' to length w and keeps the whole string as its tail |
| Text.ZFillStr | src/CVECrawler.py:40 | str(i).zfill(4) is never truncated and reads back as i |
| Text.LStrip | src/CVECrawler.py:65 | lstrip(c) removes exactly the leading run of c |
| Text.LStripZerosValue | src/CVECrawler.py:65 | int(s.lstrip('0')) reads a digit string with a nonzero value as that value |
| Text.Split | src/CVECrawler.py:29 | split(c) gives at least one piece and no piece holds c |
| Text.Pad | epss/EPSSCrawler.py:51 | '%0wd' % v, for v below 10^w, is exactly w digits that read back as v |
| FileTree.ListDir | epss/EPSSCrawler.py:88 | os.listdir(p) names exactly the entries directly below p |
| FileTree.MakeDirsSpec | epss/EPSSCrawler.py:110 | os.makedirs fails exactly when a file lies on the way or the target exists without exist_ok; on success the target is a directory and only directories toward it are added |
| FileTree.EnsureDirMeets | src/CVECrawler.py:67-72 | the exists-then-makedirs step fails exactly when a file lies on the way; it only adds directories toward the path |
| FileTree.WriteFileMeets | epss/EPSSCrawler.py:111-112 | open(p, 'wb').write(data) fails exactly when p cannot be opened; on success the file holds data and nothing else changed |
| FileTree.AppendFileMeets | epss/EPSSCrawler.py:71-72 | open(p, 'a').write(data) fails exactly when p cannot be opened; on success data follows the old contents and nothing else changed |
| EpssArchive.DatePath | epss/EPSSCrawler.py:106-111 | a day is stored three levels down: year, month, file |
| EpssArchive.DatePathInjective | epss/EPSSCrawler.py:106-111 | different days are stored at different paths |
| EpssArchive.SaveCompressedData | epss/EPSSCrawler.py:104-114 | saving keeps the storage well formed |
| EpssArchive.SaveDay | epss/EPSSCrawler.py:104-114 | saving day n succeeds exactly when no file blocks storage/YYYY or storage/YYYY/MM and no directory sits at the day's path; the day's file then holds the body, every other entry is kept, and only those two directories are added |
| EpssArchive.SaveInto | epss/EPSSCrawler.py:104-114 | the same for any date_str with at least two '-' fields: the directory is its first two fields and the file is date_str + '.csv.gz' |
| EpssArchive.ArchivedDate | epss/EPSSCrawler.py:97 | the date of an archived file is a representable day |
| EpssArchive.LocalDatesAreOrdinals | epss/EPSSCrawler.py:97 | every archived date is a representable day |
| EpssArchive.LatestLocal | epss/EPSSCrawler.py:86-102 | the newest archived date, None exactly when no file name qualifies |
| EpssArchive.LatestIsUnique | epss/EPSSCrawler.py:86-102 | only LatestLocal meets the contract of retrieve_last_local_date |
| EpssArchive.RetrieveLastLocalDate | epss/EPSSCrawler.py:86-102 | the three nested listdir loops return None exactly when no `Y/M/*.csv.gz` stem parses, and otherwise the maximum of the parsed dates |
| EpssArchive.ScanYear | epss/EPSSCrawler.py:89-101 | the months loop of a year entry leaves the running maximum over the dates seen so far plus the dates below that year |
| EpssArchive.ScanMonth | epss/EPSSCrawler.py:92-101 | the files loop of a month entry leaves the running maximum over the dates seen so far plus the dates in that month; unparseable names are skipped |
| EpssCrawler.FirstDayIsDate | epss/EPSSCrawler.py:46 | ordinal 737894 is 2021-04-14 |
| EpssCrawler.StartAfterArchive | epss/EPSSCrawler.py:45-46 | the walk starts at 2021-04-14 on an archive without dates, else the day after the newest archived date, so after every archived date; only 9999-12-31 overflows |
| EpssCrawler.StartAfter | epss/EPSSCrawler.py:45-46 | the same, for any maximum of a set of days |
| EpssCrawler.Step | epss/EPSSCrawler.py:50-83 | an iteration that raises nothing moves the day on or raises the counter |
| EpssCrawler.Loop | epss/EPSSCrawler.py:50-83 | the loop invariant holds when the walk ends |
| EpssCrawler.StepKeepsInv | epss/EPSSCrawler.py:49-75 | after each iteration the counter stays below retries_for_request, the storage stays well formed and the settled days lie behind the current day |
| EpssCrawler.StepSaves | epss/EPSSCrawler.py:56-60 | a 200 whose body can be stored writes it at storage/YYYY/MM/YYYY-MM-DD.csv.gz and moves one day on; the counter is not reset, missing_dates.txt is untouched, and the sleep is interval_between_requests |
| EpssCrawler.StepRetries | epss/EPSSCrawler.py:61-68 | a non-200, an exception or a failed save keeps the day, adds one to the counter, leaves the storage alone and sleeps retry_interval |
| EpssCrawler.StepGivesUp | epss/EPSSCrawler.py:69-75 | the failure that brings the counter to retries_for_request appends the day as one line to missing_dates.txt, resets the counter, skips the day and sleeps retry_interval |
| EpssCrawler.StepCrashes | epss/EPSSCrawler.py:69-72 | when missing_dates.txt cannot be opened, OSError escapes before the sleep and the storage is unchanged |
| EpssCrawler.StepShapes | epss/EPSSCrawler.py:50-83 | every iteration ends in one of those four ways |
| EpssCrawler.StepFacts | epss/EPSSCrawler.py:50-83 | one iteration requests the current day, moves at most one day, settles the day exactly when it moves, and sleeps once unless it raises |
| EpssCrawler.StepSettles | epss/EPSSCrawler.py:50-75 | one iteration settles the current day as the next entry exactly when it moves on |
| EpssCrawler.StepLogs | epss/EPSSCrawler.py:69-73 | one iteration adds to missing_dates.txt exactly the line of the day it skipped, if any |
| EpssCrawler.StepKeeps | epss/EPSSCrawler.py:56-73 | one iteration keeps every saved day readable |
| EpssCrawler.SaveKeeps | epss/EPSSCrawler.py:104-112 | storing a day keeps the earlier saved days readable and makes it readable |
| EpssCrawler.LogKeeps | epss/EPSSCrawler.py:71-72 | appending to missing_dates.txt keeps every saved day readable |
| EpssCrawler.LoopEnds | epss/EPSSCrawler.py:50 | with retries_for_request >= 1 the walk terminates, and unless an exception escapes it stops exactly at today |
| EpssCrawler.LoopSettles | epss/EPSSCrawler.py:50-75 | the days from the start to where the walk stops are settled once each, in ascending order and without gaps, each either saved or skipped, never both |
| EpssCrawler.LoopLogs | epss/EPSSCrawler.py:69-73 | missing_dates.txt grows by one line per skipped day, in order, and by nothing else |
| EpssCrawler.LoopKeeps | epss/EPSSCrawler.py:56-60 | every day the walk saved is readable at its path when the call returns |
| EpssCrawler.LoopPaces | epss/EPSSCrawler.py:50-83 | requests are for days in ascending order, between the start and today, and the walk sleeps once per request except after the one whose failure could not be logged |
| EpssCrawler.DownloadOrMaintainData | epss/EPSSCrawler.py:42-84 | the method takes its start from the archive, runs the loop to today and ends in the state Loop computes; an overflowing start returns OverflowError with nothing changed |
| EpssCrawler.Attempt | epss/EPSSCrawler.py:51-83 | one pass of the loop body moves the state exactly as Step says |
| EpssCrawler.Fetch | epss/EPSSCrawler.py:54-68 | the try block fails exactly when there is no 200 or the save raises; on success the day is stored, otherwise the storage is unchanged |
| EpssCrawler.RecordMissing | epss/EPSSCrawler.py:69-73 | the day's line is appended to missing_dates.txt, or OSError is returned with nothing changed |
| EpssVariant.RetrieveLastLocalDate | epss-crawler/src/EPSSCrawler.py:79-80 | the stub always answers None |
| EpssVariant.StartDate | epss-crawler/src/EPSSCrawler.py:44-51 | in maintain mode the start is yesterday (OverflowError on 0001-01-01); otherwise it is always 2021-04-14 |
| EpssVariant.Pause | epss-crawler/src/EPSSCrawler.py:65-76 | an attempt ends with interval_between_requests, preceded by retry_interval exactly on a 429 or 503 |
| EpssVariant.Step | epss-crawler/src/EPSSCrawler.py:53-77 | an iteration moves one day on or raises the counter by one on the same day, and keeps the counter below the limit |
| EpssVariant.Loop | epss-crawler/src/EPSSCrawler.py:53 | the walk ends exactly at today when it starts before it |
| EpssVariant.StepMovesOn | epss-crawler/src/EPSSCrawler.py:56-74 | an exception, or a 200 whose one-argument save call raises TypeError, moves on at once with the counter unchanged and nothing stored |
| EpssVariant.StepCounts | epss-crawler/src/EPSSCrawler.py:63-71 | any other status raises the counter; at retries_for_request it is reset and the day is passed over, with no record written |
| EpssVariant.LoopSleeps | epss-crawler/src/EPSSCrawler.py:75-76 | the sleeps of a call are exactly the pauses of its attempts, one attempt per request |
| EpssVariant.LoopPaces | epss-crawler/src/EPSSCrawler.py:53-74 | requests go out in ascending day order from the start to yesterday, and every one of those days is requested |
| EpssVariant.MaintainVisitsYesterday | epss-crawler/src/EPSSCrawler.py:46-53 | in maintain mode every request of a call is for yesterday |
| EpssVariant.FullWalkFromFirstDay | epss-crawler/src/EPSSCrawler.py:49-53 | outside maintain mode every call requests every day from 2021-04-14 to yesterday |
| EpssVariant.DownloadOrMaintainData | epss-crawler/src/EPSSCrawler.py:44-77 | the method ends in the state Loop computes from StartDate; the only exception that escapes is the OverflowError of maintain mode on 0001-01-01 |
| CveRecord.RecordPath | src/CVECrawler.py:67-73 | a record lies three levels down: year, month folder, file |
| CveRecord.PlaceCanonical | src/CVECrawler.py:61-73 | a reservation date YYYY-MM-DDThh:mm:ss goes to storage/YYYY/MM-Mon/YYYY_MM_DD.jsonl, Mon being the first three letters of the English month name |
| CveRecord.MonthField | src/CVECrawler.py:65-70 | a zero-padded month field 01..12 reads back as its number, names a month, and the folder name cut to six characters is MM-Mon |
| CveRecord.YearStep | src/CVECrawler.py:67-69 | storage/YYYY is made only when absent, and an existing entry is left as it is |
| CveRecord.MonthStep | src/CVECrawler.py:70-72 | the month folder is made when absent and fails only below a file |
| CveRecord.SaveBlockedAtYear | src/CVECrawler.py:67-72 | a file at storage/YYYY makes save_data raise OSError with nothing changed |
| CveRecord.SaveDataMeets | src/CVECrawler.py:60-74 | save_data succeeds exactly when no file blocks the two folders and the record's path is not a directory; it appends exactly one line after the earlier ones, never truncates, adds only the two folders and the file, and raises without writing when the date cannot be read |
| CveRecord.GrowsTrans | src/CVECrawler.py:73-74 | appends compose: an archive that grew twice grew |
| CveRecord.Row | src/CVECrawler.py:39 | range(from, 60000) of one year, in order |
| CveRecord.IdsEnumerate | src/CVECrawler.py:38-39 | the nested loops visit exactly the ids with year in range and number in [from, 60000), in every year, in strictly ascending order |
| CveRecord.IdsPrefix | src/CVECrawler.py:38 | the ids up to an earlier year come first |
| CveRecord.CveIdReadsBack | src/CVECrawler.py:40 | the id text splits on '-' into the year and a number of at least four digits, never cut, both reading back as the id |
| CveRecord.CveIdInjective | src/CVECrawler.py:40 | different ids give different id texts |
| CveRecord.RecordUrlsDiffer | src/CVECrawler.py:40 | different ids are fetched from different URLs |
| CveCrawler.UrlsOfItemsMeets | src/CVECrawler.py:78-80 | the first loop collects ref['url'] of every reference, in order, or raises the error of the first reference without one |
| CveCrawler.UrlsOfItemsStops | src/CVECrawler.py:78-80 | the first reference without a 'url' ends the loop with its exception |
| CveCrawler.GatherMeets | src/CVECrawler.py:81-87 | the second loop succeeds exactly when every URL is a string and answers; then pair i holds URL i with its body on a 200 or its status otherwise, and the requests are the URLs in order |
| CveCrawler.GatherStops | src/CVECrawler.py:81-87 | after a failed request, later URLs are neither requested nor paired |
| CveCrawler.AddReferencesMeets | src/CVECrawler.py:76-89 | the record gains 'added_references' holding the pairs, one per URL in order, and every other field keeps its value |
| CveCrawler.AddReferencesToJson | src/CVECrawler.py:76-89 | the two append loops compute AddReferences, the exception and the requests included |
| CveCrawler.VisitCursor | src/CVECrawler.py:56-58 | after every id the cursor reads year,i+1, whatever the status or exception, and the record's request went out first |
| CveCrawler.VisitSleeps | src/CVECrawler.py:50-51 | a 429 sleeps retry_interval, without a retry of the id, and nothing else sleeps |
| CveCrawler.VisitArchive | src/CVECrawler.py:43-53 | only a 200 can write to the archive, and the archive only grows |
| CveCrawler.ReceivedMeets | src/CVECrawler.py:43-47 | a 200 stores the record with its references by save_data when the body decodes and the references can be added, and otherwise writes nothing; every exception is swallowed |
| CveCrawler.CrawlGrows | src/CVECrawler.py:38-58 | over a whole enumeration the archive only grows |
| CveCrawler.VisitKeepsLog | src/CVECrawler.py:42-51 | one id keeps earlier requests and sleeps only retry_interval |
| CveCrawler.CrawlSleeps | src/CVECrawler.py:38-58 | over an enumeration earlier requests are kept and every sleep is retry_interval |
| CveCrawler.CrawlCursor | src/CVECrawler.py:56-58 | after an enumeration the cursor names the id after the last one visited |
| CveCrawler.TryId | src/CVECrawler.py:40-58 | one pass of the inner loop body computes Visit |
| CveCrawler.DownloadYear | src/CVECrawler.py:39-58 | the inner loop visits range(cve_from, 60000) of one year in order |
| CveCrawler.DownloadData | src/CVECrawler.py:37-58 | download_data visits Ids(year_from, this year, cve_from) in order |
| CveCrawler.CursorReadsBack | src/CVECrawler.py:29-32 | the cursor text written as f'{year},{i}' parses back to (year, i) |
| CveCrawler.StartAfter | src/CVECrawler.py:27-32 | the cursor written after id x makes the next cycle start at x's year and number + 1 |
| CveCrawler.Run | src/CVECrawler.py:22-35 | one turn of run(): start at (1999, 1) without a cursor file, else from the cursor (its parse error escapes), enumerate, then sleep update_interval |
| CveCrawler.CycleResumes | src/CVECrawler.py:27-34 | a cycle after one that visited x resumes at x's year with the next number |
| CveCrawler.IdsPastLimit | src/CVECrawler.py:39 | from 60000 on there is nothing to visit in any year |
| CveCrawler.StuckAfterLastNumber | src/CVECrawler.py:39-58 | once number 59999 of any year has been visited, every later cycle requests nothing and only sleeps |
| CveCrawler.ResumeSkips | src/CVECrawler.py:38-39 | resuming from number n skips the numbers below n in every later year, not only in the cursor's year |
| CveLegacy.YearsFolders | CVECrawler.py:30-32 | the result holds exactly the top-level directories whose names do not start with '.' |
| CveLegacy.IsNewInstance | CVECrawler.py:25-28 | an archive is new exactly when every top-level directory is hidden |
| CveLegacy.VisitMeets | CVECrawler.py:38-42 | a failed request or an undecodable body raises; a 200 runs save_data once and raises what it raises; a 429 sleeps retry_interval and moves on; other statuses write nothing; after an exception nothing changes |
| CveLegacy.VisitKeeps | CVECrawler.py:38-42 | one id: the archive only grows, and earlier requests and sleeps stay |
| CveLegacy.VisitLog | CVECrawler.py:38 | one id is requested unless an exception is already in flight, which stays |
| CveLegacy.CrawlKeeps | CVECrawler.py:35-42 | over a run the archive only grows, requests stay and every sleep is retry_interval |
| CveLegacy.CrawlLog | CVECrawler.py:35-42 | the requests of a run are the ids in order up to the one that raised, all of them when nothing raised |
| CveLegacy.Aborted | CVECrawler.py:35-42 | after an exception the remaining ids change nothing |
| CveLegacy.AbortedInYear | CVECrawler.py:35-42 | an exception in some year leaves the later years unvisited |
| CveLegacy.TryId | CVECrawler.py:37-42 | one pass of the inner loop body computes Visit |
| CveLegacy.DownloadYear | CVECrawler.py:36-42 | the inner loop visits numbers 1..59999 of a year in order, and is left at the first exception |
| CveLegacy.NextYear | CVECrawler.py:35-42 | one turn of the outer loop extends the visits by the whole row of that year |
| CveLegacy.DownloadAll | CVECrawler.py:34-42 | download_all visits the years from year_from to this year and the numbers 1..59999 in order, and is left at the first exception |
| CveLegacy.Run | CVECrawler.py:16-23 | one turn of run(): bootstrap a new archive, then sleep update_interval unless the bootstrap raised |
| CveLegacy.OldInstanceOnlySleeps | CVECrawler.py:19-23 | an archive with a visible folder is not touched; the cycle only sleeps, since download_new_data does nothing |
| CveLegacy.NewInstanceBootstraps | CVECrawler.py:19-23 | a new archive gets every id from 1999 to this year requested in order unless one raises; it only grows; the cycle sleeps retry_interval and then update_interval |
| CveLegacy.IdNumbers | CVECrawler.py:72-73 | the list has one number per item |
| CveLegacy.Max | CVECrawler.py:74 | max() of a non-empty list is a member that no member exceeds |
| CveLegacy.IdNumbersMeets | CVECrawler.py:72-73 | the list is the items' third id fields as integers, in order, or the exception of the first item without one |
| CveLegacy.IdNumbersStop | CVECrawler.py:72-73 | the first item without a readable number ends the loop with its exception |
| CveLegacy.LastIdOnlineMeets | CVECrawler.py:63-74 | a 200 whose decoded list of items is non-empty and all of whose items carry a readable id answers Some; any Some is the number of one item that no item exceeds; a non-200 gives None; a failed request raises |
| CveLegacy.NoItemsRaises | CVECrawler.py:71-74 | an empty item list on a 200 makes max() raise ValueError |
| CveLegacy.IdNumberReadsBack | CVECrawler.py:73 | the id text of a record reads back as its number |
| CveLegacy.RetrieveLastCveIdOnline | CVECrawler.py:63-74 | the list-building loop and max() compute LastIdOnline, every exception included |

## Left out

- Text.Pad requires the value to fit in w digits. Python's `'%0wd'` never
  cuts a wider number; every use here (a year up to 9999, a month, a day)
  fits.
- Network and time: HTTP, `request_timeout`, `response.json()` and the
  real clock. A request is one outcome from the network function, and a
  body that does not decode raises ValueError. Today and the current year
  are parameters. Sleeps are recorded, not taken.
- Logging (`logging.basicConfig` and every message). It has no effect on
  the state.
- The endless `while True` loops of every `run()`. The CVE crawlers are
  modelled up to the end of the first turn (`CveCrawler.Run`,
  `CveLegacy.Run`).
- `run()` of the two EPSS crawlers. It only creates the storage root and
  alternates `download_or_maintain_data` with sleeps of `update_interval`.
  It is not part of this model.
- The storage root is always a directory, so its `makedirs` in `run()` is
  not modelled. Paths are lists of names: `os.path.join` with absolute
  names, `..`, `.`, empty names or names holding `/` is not modelled. A CVE
  record whose reservation date has an empty or `.` year field (say
  `-05-01T00:00:00`) is appended below the storage root itself in Python
  (`05-May/_05_01.jsonl`); the model makes a directory named `""` or `.`
  and appends below it.
- Listing order: `os.listdir` is modelled as a set of names. The EPSS scan
  takes the entries in any order, and its result does not depend on the
  order. `retrieve_years_folders` is used only for its emptiness.
- Bytes: a `.csv.gz` body is kept as a string, and a `.jsonl` file as its
  list of documents, one per line. `json.dumps` writes exactly one line.
  JSON numbers are integers; floats are not modelled.
- Request log: it records what was requested (a day, an id or a reference
  URL) rather than the URL text. `CveRecord.RecordUrlsDiffer` shows that
  the id-to-URL map is one-to-one.
- Calendar.ParseDate accepts only four, two and two ASCII digits separated
  by '-'. `strptime` also takes shorter fields such as `2021-4-1`, so a
  file named that way counts as archived in Python but not in this model.
- Text.ParseNat accepts only ASCII digits. `int()` also takes surrounding
  whitespace, a leading `+` or `-`, `_` between digits and non-ASCII
  digits. A hand-edited cursor `2020,-5` reads as -5 in Python, which then
  enumerates `range(-5, 60000)` with ids such as `CVE-2020--005`; the model
  raises ValueError for it.
- EpssCrawler.DownloadOrMaintainData requires `retries_for_request >= 1`.
  With 0 the limit check matches while the counter is still 0: after every
  200 the next day is written to `missing_dates.txt` and skipped without a
  request. The first failure raises the counter to 1. From then on the
  counter never returns to 0, so no day is skipped again, and a day that
  keeps failing is retried forever. A negative limit is never reached
  either.
- EpssVariant.DownloadOrMaintainData requires `retries_for_request >= 1`
  too: with 0 or less the counter, checked only after a non-200, never
  equals the limit, and a day that keeps failing is retried forever.
- The cursor file `.last_cve.txt` of `src/CVECrawler.py` is its own field,
  outside the storage tree. Writing it cannot fail in the model.
- The older crawler's exceptions escape `run()`. They are modelled as an
  error field, after which nothing changes.
- `retrieve_last_CVE_ID_local` (a `pass` stub that nothing calls) is not
  part of this model. `download_new_data` (also `pass`) is modelled as
  doing nothing.
- The archive is assumed well formed: every entry lies below a directory.
  The lemmas that need this take it as a requirement; it is not part of
  the state's type.
- The EPSS variant's stub `save_compressed_data` is modelled only through
  the TypeError that its one-argument call raises.
