/** The on-disk asset cache of flips/flips/StorageCache.swift as a state
    machine. Each block the source runs on one dispatch queue is one atomic
    step; the downloader's progress ticks and completions are external events
    naming one of the downloads in flight. The file system is a set of file
    names in the cache directory and the journal (CacheJournal, whose source
    is not part of this model) an LRU-ordered sequence of names. */
module StorageCache {
  import opened Optionals
  import opened SeqUtil

  type Url = string
  type FileName = string
  type WaiterId = nat

  /** `CacheGetResponse`. `get` never answers `InvalidUrl`. */
  datatype CacheGetResponse = DataIsReady | DownloadWillStart | InvalidUrl

  /** `remoteURL.lastPathComponent`: the characters after the last slash. */
  function LastPathComponent(url: Url): FileName {
    if |url| == 0 || url[|url| - 1] == '/' then ""
    else LastPathComponent(url[..|url| - 1]) + [url[|url| - 1]]
  }

  /** The last path component is the longest suffix of the URL that holds
      no slash. */
  lemma {:induction false} LastPathComponentIsSlashFreeSuffix(url: Url)
    ensures var name := LastPathComponent(url);
      && |name| <= |url| && name == url[|url| - |name|..]
      && (forall i :: 0 <= i < |name| ==> name[i] != '/')
      && (|name| < |url| ==> url[|url| - |name| - 1] == '/')
  {
    if |url| > 0 && url[|url| - 1] != '/' {
      var prefix := url[..|url| - 1];
      LastPathComponentIsSlashFreeSuffix(prefix);
      var p := LastPathComponent(prefix);
      assert url[|url| - |p| - 1..] == prefix[|prefix| - |p|..] + [url[|url| - 1]];
      if |p| < |prefix| {
        assert url[|url| - |p| - 2] == prefix[|prefix| - |p| - 1];
      }
    }
  }

  /** A URL ending in a slash-free name has that name as its last path
      component. */
  lemma {:induction false} LastPathComponentAfterSlash(prefix: Url, name: FileName)
    requires forall i :: 0 <= i < |name| ==> name[i] != '/'
    ensures LastPathComponent(prefix + "/" + name) == name
  {
    var url := prefix + "/" + name;
    if |name| > 0 {
      var shorter := name[..|name| - 1];
      assert url[..|url| - 1] == prefix + "/" + shorter;
      LastPathComponentAfterSlash(prefix, shorter);
      assert name == shorter + [name[|name| - 1]];
    }
  }

  /** `createLocalPath`: the cache directory joined with the URL's last path
      component. */
  function LocalPath(directory: string, url: Url): string {
    directory + "/" + LastPathComponent(url)
  }

  /** A download the cache started and the downloader has not finished. */
  datatype Download = Download(id: nat, url: Url) {
    function Name(): FileName { LastPathComponent(url) }
  }

  datatype Cache = Cache(
    directory: string,
    files: set<FileName>,                      // files present in the cache directory
    journal: seq<FileName>,                    // journal entries, least recently used first
    pending: map<FileName, seq<WaiterId>>,     // `downloadInProgressURLs`
    cacheWasCleared: bool,
    inFlight: seq<Download>,
    nextDownloadId: nat)

  /** What a step does outside the cache's own state: a download handed to the
      downloader, or one of a waiter's callbacks invoked. */
  datatype Effect =
    | StartDownload(download: Download)
    | Progress(waiter: WaiterId)
    | Success(waiter: WaiterId, url: Url, localPath: string)
    | Failure(waiter: WaiterId, url: Url)
    | ScheduleCleanup

  datatype Step = Step(cache: Cache, effects: seq<Effect>)

  datatype GetResult = GetResult(response: CacheGetResponse, cache: Cache, effects: seq<Effect>)

  /** The cache right after construction: the directory's files and the
      journal loaded from disk, nothing pending. */
  function Init(directory: string, files: set<FileName>, journal: seq<FileName>): Cache {
    Cache(directory, files, journal, map[], false, [], 0)
  }

  // ---------------------------------------------------------------- journal

  /** `insertNewEntry`: the name becomes the most recently used entry,
      replacing an older entry for it. */
  function JournalInsert(journal: seq<FileName>, name: FileName): (r: seq<FileName>)
    ensures |r| > 0 && r[|r| - 1] == name
    ensures NoDuplicates(journal) ==> NoDuplicates(r) && (forall n :: n in r <==> n in journal || n == name)
  {
    RemoveFirstNoDuplicatesIfNoDuplicates(journal, name);
    RemoveFirst(journal, name) + [name]
  }

  lemma RemoveFirstNoDuplicatesIfNoDuplicates(journal: seq<FileName>, name: FileName)
    ensures NoDuplicates(journal) ==>
      && NoDuplicates(RemoveFirst(journal, name) + [name])
      && (forall n :: n in RemoveFirst(journal, name) + [name] <==> n in journal || n == name)
  {
    if NoDuplicates(journal) {
      RemoveFirstNoDuplicates(journal, name);
      var r := RemoveFirst(journal, name) + [name];
      forall i, j | 0 <= i < j < |r| ensures r[i] != r[j] {
        if j == |r| - 1 { assert r[i] in RemoveFirst(journal, name); }
      }
    }
  }

  /** `updateEntry`: a journalled name becomes the most recently used entry;
      the journal is otherwise left alone. */
  function JournalTouch(journal: seq<FileName>, name: FileName): (r: seq<FileName>)
    ensures name in journal ==> r == JournalInsert(journal, name)
    ensures name !in journal ==> r == journal
  {
    if name in journal then JournalInsert(journal, name) else journal
  }

  /** How many entries a request for `count` least recently used entries
      covers. */
  function LRUCount(journal: seq<FileName>, count: int): (k: nat)
    ensures k <= |journal|
  {
    if count <= 0 then 0 else if count < |journal| then count else |journal|
  }

  /** `getLRUEntries`: the `count` least recently used names, oldest first. */
  function GetLRUEntries(journal: seq<FileName>, count: int): (r: seq<FileName>)
    ensures r <= journal
    ensures count <= 0 ==> r == []
    ensures 0 <= count <= |journal| ==> |r| == count
    ensures count >= |journal| ==> r == journal
  {
    journal[..LRUCount(journal, count)]
  }

  // ------------------------------------------------------------ operations

  /** `has`: whether the canonical file exists; the journal is not read. */
  function Has(c: Cache, url: Url): bool {
    LastPathComponent(url) in c.files
  }

  /** The callbacks of every waiter of a finished download, in registration
      order: all successes or all failures. */
  function Resolve(waiters: seq<WaiterId>, ok: bool, url: Url, localPath: string): (r: seq<Effect>)
    ensures |r| == |waiters|
    ensures forall k :: 0 <= k < |r| ==>
      r[k] == (if ok then Success(waiters[k], url, localPath) else Failure(waiters[k], url))
  {
    if |waiters| == 0 then []
    else [if ok then Success(waiters[0], url, localPath) else Failure(waiters[0], url)]
         + Resolve(waiters[1..], ok, url, localPath)
  }

  /** `get`. A hit answers `DataIsReady`, reports full progress and success
      and touches the journal, starting nothing. A miss answers
      `DownloadWillStart`: with a download already pending for the same
      file the caller is appended to its waiters; otherwise the caller is its
      only waiter and exactly one download starts. `get` always resets the
      cleared flag. */
  function Get(c: Cache, url: Url, waiter: WaiterId): (r: GetResult)
    ensures r.response != InvalidUrl && !r.cache.cacheWasCleared
    ensures r.cache.directory == c.directory && r.cache.files == c.files
    ensures var name := LastPathComponent(url);
      && (name in c.files ==>
            && r.response == DataIsReady
            && r.cache.pending == c.pending && r.cache.inFlight == c.inFlight
            && r.cache.journal == JournalTouch(c.journal, name)
            && r.effects == [Progress(waiter), Success(waiter, url, LocalPath(c.directory, url))])
      && (name !in c.files ==> r.response == DownloadWillStart && r.cache.journal == c.journal)
      && (name !in c.files && name in c.pending ==>
            && r.cache.pending == c.pending[name := c.pending[name] + [waiter]]
            && r.cache.inFlight == c.inFlight && r.effects == [])
      && (name !in c.files && name !in c.pending ==>
            && r.cache.pending == c.pending[name := [waiter]]
            && |r.cache.inFlight| == |c.inFlight| + 1
            && r.cache.inFlight[..|c.inFlight|] == c.inFlight
            && var d := r.cache.inFlight[|c.inFlight|];
               d.url == url && d.Name() == name && r.effects == [StartDownload(d)])
  {
    var c0 := c.(cacheWasCleared := false);
    var name := LastPathComponent(url);
    if name in c.files then
      GetResult(DataIsReady, c0.(journal := JournalTouch(c.journal, name)),
                [Progress(waiter), Success(waiter, url, LocalPath(c.directory, url))])
    else if name in c.pending then
      GetResult(DownloadWillStart, c0.(pending := c.pending[name := c.pending[name] + [waiter]]), [])
    else
      var d := Download(c.nextDownloadId, url);
      GetResult(DownloadWillStart,
                c0.(pending := c.pending[name := [waiter]],
                    inFlight := c.inFlight + [d],
                    nextDownloadId := c.nextDownloadId + 1),
                [StartDownload(d)])
  }

  /** A progress tick of download `i`. Unless the cache was cleared, every
      waiter registered at this moment gets one progress call; nothing in the
      cache changes. */
  function DownloadProgress(c: Cache, i: nat): (r: Step)
    requires i < |c.inFlight|
    ensures r.cache == c
    ensures c.cacheWasCleared || c.inFlight[i].Name() !in c.pending ==> r.effects == []
    ensures !c.cacheWasCleared && c.inFlight[i].Name() in c.pending ==>
      var waiters := c.pending[c.inFlight[i].Name()];
      |r.effects| == |waiters| && forall k :: 0 <= k < |waiters| ==> r.effects[k] == Progress(waiters[k])
  {
    var name := c.inFlight[i].Name();
    if c.cacheWasCleared || name !in c.pending then Step(c, [])
    else
      var waiters := c.pending[name];
      Step(c, seq(|waiters|, k requires 0 <= k < |waiters| => Progress(waiters[k])))
  }

  /** Completion of download `i`, with the downloader's verdict `ok` and
      whether it managed to move the file into place (it does that before
      the cache sees the result). Unless the cache was cleared, the pending
      entry is removed and every waiter registered at this moment gets
      exactly one success (if `ok`) or one failure; only a success adds a
      journal entry and requests a cleanup. When the flag is set nothing but
      the file move happens. */
  function DownloadComplete(c: Cache, i: nat, ok: bool, moved: bool): (r: Step)
    requires i < |c.inFlight|
    ensures var d := c.inFlight[i];
      && r.cache.inFlight == RemoveAt(c.inFlight, i)
      && r.cache.files == (if ok && moved then c.files + {d.Name()} else c.files)
      && r.cache.cacheWasCleared == c.cacheWasCleared
      && r.cache.directory == c.directory && r.cache.nextDownloadId == c.nextDownloadId
      && (c.cacheWasCleared ==> r.cache.journal == c.journal && r.cache.pending == c.pending && r.effects == [])
      && (!c.cacheWasCleared ==>
            && r.cache.pending == c.pending - {d.Name()}
            && r.cache.journal == (if ok then JournalInsert(c.journal, d.Name()) else c.journal)
            && r.effects == (if ok then [ScheduleCleanup] else [])
                            + (if d.Name() in c.pending
                               then Resolve(c.pending[d.Name()], ok, d.url, LocalPath(c.directory, d.url))
                               else []))
  {
    var d := c.inFlight[i];
    var name := d.Name();
    var c1 := c.(files := if ok && moved then c.files + {name} else c.files,
                 inFlight := RemoveAt(c.inFlight, i));
    if c.cacheWasCleared then Step(c1, [])
    else
      var c2 := if ok then c1.(journal := JournalInsert(c.journal, name)) else c1;
      var cleanup := if ok then [ScheduleCleanup] else [];
      if name !in c.pending then Step(c2, cleanup)
      else
        Step(c2.(pending := c.pending - {name}),
             cleanup + Resolve(c.pending[name], ok, d.url, LocalPath(c.directory, d.url)))
  }

  /** `put(remoteURL, localPath:)`: unless the file is already cached, moves
      the caller's file into the cache (the move may fail) and journals the
      name regardless; resets the cleared flag. */
  function PutFile(c: Cache, url: Url, moved: bool): (r: Step)
    ensures !r.cache.cacheWasCleared && r.cache.pending == c.pending && r.cache.inFlight == c.inFlight
    ensures var name := LastPathComponent(url);
      && (name in c.files ==> r.cache == c.(cacheWasCleared := false) && r.effects == [])
      && (name !in c.files ==>
            && r.cache.files == (if moved then c.files + {name} else c.files)
            && r.cache.journal == JournalInsert(c.journal, name)
            && r.effects == [ScheduleCleanup])
  {
    var c0 := c.(cacheWasCleared := false);
    var name := LastPathComponent(url);
    if name in c.files then Step(c0, [])
    else
      Step(c0.(files := if moved then c.files + {name} else c.files,
               journal := JournalInsert(c.journal, name)),
           [ScheduleCleanup])
  }

  datatype PutResult = PutResult(localPath: string, cache: Cache, effects: seq<Effect>)

  /** `put(remoteURL, data:)`: always returns the canonical path; unless the
      file is already cached, writes it (the write may fail) and journals the
      name; resets the cleared flag. */
  function PutData(c: Cache, url: Url, written: bool): (r: PutResult)
    ensures r.localPath == LocalPath(c.directory, url)
    ensures !r.cache.cacheWasCleared && r.cache.pending == c.pending && r.cache.inFlight == c.inFlight
    ensures var name := LastPathComponent(url);
      && (name in c.files ==> r.cache == c.(cacheWasCleared := false) && r.effects == [])
      && (name !in c.files ==>
            && r.cache.files == (if written then c.files + {name} else c.files)
            && r.cache.journal == JournalInsert(c.journal, name)
            && r.effects == [ScheduleCleanup])
  {
    var localPath := LocalPath(c.directory, url);
    var name := LastPathComponent(url);
    var c0 := c.(cacheWasCleared := false);
    if name in c.files then PutResult(localPath, c0, [])
    else
      PutResult(localPath,
                c0.(files := if written then c.files + {name} else c.files,
                    journal := JournalInsert(c.journal, name)),
                [ScheduleCleanup])
  }

  /** `removeLRUEntries`: deletes the files of the entries `getLRUEntries`
      returns, then drops exactly that many entries from the old end of the
      journal. */
  function RemoveLRUEntries(c: Cache, count: int): (r: Cache)
    ensures var lru := GetLRUEntries(c.journal, count);
      && r.files == c.files - set n | n in lru
      && c.journal == lru + r.journal
      && r == c.(files := r.files, journal := r.journal)
  {
    var lru := GetLRUEntries(c.journal, count);
    assert c.journal == lru + c.journal[|lru|..];
    c.(files := c.files - (set n | n in lru), journal := c.journal[|lru|..])
  }

  /** `clear`: deletes every journalled file, empties the journal and the
      pending table and sets the cleared flag. Downloads in flight go on. */
  function Clear(c: Cache): (r: Cache)
    ensures r.files == c.files - set n | n in c.journal
    ensures r.journal == [] && r.pending == map[] && r.cacheWasCleared
    ensures r.inFlight == c.inFlight
  {
    c.(files := c.files - (set n | n in c.journal), journal := [], pending := map[], cacheWasCleared := true)
  }
}
