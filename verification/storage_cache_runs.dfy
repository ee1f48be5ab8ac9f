/** Histories of the storage cache: sequences of calls and downloader events
    applied one atomic step at a time, and what holds along them. */
module StorageCacheRuns {
  import opened Optionals
  import opened SeqUtil
  import SC = StorageCache

  /** One call into the cache or one event from the downloader. Progress and
      completion name a download in flight by its position; an event naming
      no download in flight does nothing. */
  datatype Event =
    | Get(url: SC.Url, waiter: SC.WaiterId)
    | PutFile(url: SC.Url, moved: bool)
    | PutData(url: SC.Url, written: bool)
    | RemoveLRUEntries(count: int)
    | Clear
    | DownloadProgress(index: nat)
    | DownloadComplete(index: nat, ok: bool, moved: bool)

  function Apply(c: SC.Cache, e: Event): SC.Step {
    match e
    case Get(url, waiter) =>
      var r := SC.Get(c, url, waiter);
      SC.Step(r.cache, r.effects)
    case PutFile(url, moved) => SC.PutFile(c, url, moved)
    case PutData(url, written) =>
      var r := SC.PutData(c, url, written);
      SC.Step(r.cache, r.effects)
    case RemoveLRUEntries(count) => SC.Step(SC.RemoveLRUEntries(c, count), [])
    case Clear => SC.Step(SC.Clear(c), [])
    case DownloadProgress(i) =>
      if i < |c.inFlight| then SC.DownloadProgress(c, i) else SC.Step(c, [])
    case DownloadComplete(i, ok, moved) =>
      if i < |c.inFlight| then SC.DownloadComplete(c, i, ok, moved) else SC.Step(c, [])
  }

  /** The final state and all effects, in order, of a history. */
  function Run(c: SC.Cache, events: seq<Event>): SC.Step
    decreases |events|
  {
    if |events| == 0 then SC.Step(c, [])
    else
      var first := Apply(c, events[0]);
      var rest := Run(first.cache, events[1..]);
      SC.Step(rest.cache, first.effects + rest.effects)
  }

  // ------------------------------------------------- one download per path

  /** The file names of the downloads in flight. */
  function Names(inFlight: seq<SC.Download>): (r: seq<SC.FileName>)
    ensures |r| == |inFlight|
    ensures forall k :: 0 <= k < |r| ==> r[k] == inFlight[k].Name()
  {
    seq(|inFlight|, k requires 0 <= k < |inFlight| => inFlight[k].Name())
  }

  /** The coalescing invariant: a file name is pending exactly when a
      download for it is in flight, and no file is downloaded twice at once. */
  ghost predicate Coalesced(c: SC.Cache) {
    && !c.cacheWasCleared
    && NoDuplicates(Names(c.inFlight))
    && (forall name :: name in c.pending <==> name in Names(c.inFlight))
  }

  lemma NamesRemoveAt(inFlight: seq<SC.Download>, i: nat)
    requires i < |inFlight| && NoDuplicates(Names(inFlight))
    ensures NoDuplicates(Names(RemoveAt(inFlight, i)))
    ensures forall n :: n in Names(RemoveAt(inFlight, i)) <==> n in Names(inFlight) && n != inFlight[i].Name()
  {
    assert Names(RemoveAt(inFlight, i)) == RemoveAt(Names(inFlight), i);
    RemoveAtNoDuplicates(Names(inFlight), i);
  }

  lemma NamesAppend(inFlight: seq<SC.Download>, d: SC.Download)
    requires NoDuplicates(Names(inFlight)) && d.Name() !in Names(inFlight)
    ensures NoDuplicates(Names(inFlight + [d]))
    ensures forall n :: n in Names(inFlight + [d]) <==> n in Names(inFlight) || n == d.Name()
  {
    var before := Names(inFlight);
    var after := Names(inFlight + [d]);
    assert after == before + [d.Name()];
  }

  /** Every step except `clear` keeps the coalescing invariant. */
  lemma ApplyKeepsCoalesced(c: SC.Cache, e: Event)
    requires Coalesced(c) && !e.Clear?
    ensures Coalesced(Apply(c, e).cache)
  {
    match e
    case Get(url, waiter) =>
      var name := SC.LastPathComponent(url);
      if name !in c.files && name !in c.pending {
        var r := SC.Get(c, url, waiter);
        NamesAppend(c.inFlight, r.cache.inFlight[|c.inFlight|]);
        assert r.cache.inFlight == c.inFlight + [r.cache.inFlight[|c.inFlight|]];
      }
    case DownloadComplete(i, ok, moved) =>
      if i < |c.inFlight| {
        NamesRemoveAt(c.inFlight, i);
      }
    case _ =>
  }

  /** Along a history without `clear`, at most one download per file is in
      flight at any time and the pending table holds exactly those files. */
  lemma {:induction false} RunKeepsCoalesced(c: SC.Cache, events: seq<Event>)
    requires Coalesced(c)
    requires forall k :: 0 <= k < |events| ==> !events[k].Clear?
    ensures Coalesced(Run(c, events).cache)
    decreases |events|
  {
    if |events| > 0 {
      var first := Apply(c, events[0]);
      ApplyKeepsCoalesced(c, events[0]);
      RunKeepsCoalesced(first.cache, events[1..]);
      assert Run(c, events).cache == Run(first.cache, events[1..]).cache;
    }
  }

  lemma InitCoalesced(directory: string, files: set<SC.FileName>, journal: seq<SC.FileName>)
    ensures Coalesced(SC.Init(directory, files, journal))
  {
  }

  // ------------------------------------------------ every waiter resolved once

  /** The waiters registered for a file name. */
  function Waiting(c: SC.Cache, name: SC.FileName): seq<SC.WaiterId> {
    if name in c.pending then c.pending[name] else []
  }

  /** The waiters whose success or failure callback an effect sequence
      invokes for a file name, in order. */
  function ResolvedFor(effects: seq<SC.Effect>, name: SC.FileName): seq<SC.WaiterId> {
    if |effects| == 0 then []
    else
      (match effects[0]
       case Success(w, url, _) => if SC.LastPathComponent(url) == name then [w] else []
       case Failure(w, url) => if SC.LastPathComponent(url) == name then [w] else []
       case _ => [])
      + ResolvedFor(effects[1..], name)
  }

  /** The waiters of the `get` calls of a history for a file name, in order. */
  function RequestedFor(events: seq<Event>, name: SC.FileName): seq<SC.WaiterId> {
    if |events| == 0 then []
    else
      (if events[0].Get? && SC.LastPathComponent(events[0].url) == name then [events[0].waiter] else [])
      + RequestedFor(events[1..], name)
  }

  lemma {:induction false} ResolvedForConcat(a: seq<SC.Effect>, b: seq<SC.Effect>, name: SC.FileName)
    ensures ResolvedFor(a + b, name) == ResolvedFor(a, name) + ResolvedFor(b, name)
  {
    if |a| == 0 {
      assert a + b == b;
    } else {
      assert (a + b)[1..] == a[1..] + b;
      ResolvedForConcat(a[1..], b, name);
    }
  }

  lemma {:induction false} ResolveResolves(waiters: seq<SC.WaiterId>, ok: bool, url: SC.Url, localPath: string, name: SC.FileName)
    ensures ResolvedFor(SC.Resolve(waiters, ok, url, localPath), name)
         == (if SC.LastPathComponent(url) == name then waiters else [])
  {
    if |waiters| > 0 {
      var r := SC.Resolve(waiters, ok, url, localPath);
      assert r == [r[0]] + r[1..];
      ResolvedForConcat([r[0]], r[1..], name);
      ResolveResolves(waiters[1..], ok, url, localPath, name);
      assert waiters == [waiters[0]] + waiters[1..];
    }
  }

  lemma {:induction false} NoneResolved(effects: seq<SC.Effect>, name: SC.FileName)
    requires forall k :: 0 <= k < |effects| ==> !effects[k].Success? && !effects[k].Failure?
    ensures ResolvedFor(effects, name) == []
  {
    if |effects| > 0 {
      NoneResolved(effects[1..], name);
    }
  }

  /** The waiters of a file name that a state and an effect sequence
      account for: still registered, or resolved by one of the effects. */
  ghost function Accounted(c: SC.Cache, effects: seq<SC.Effect>, name: SC.FileName): multiset<SC.WaiterId> {
    multiset(Waiting(c, name)) + multiset(ResolvedFor(effects, name))
  }

  /** A step that leaves the pending table alone and invokes no success or
      failure callback accounts for the same waiters. */
  lemma QuietStepConservesWaiters(c: SC.Cache, s: SC.Step, name: SC.FileName)
    requires s.cache.pending == c.pending
    requires forall k :: 0 <= k < |s.effects| ==> !s.effects[k].Success? && !s.effects[k].Failure?
    ensures Accounted(s.cache, s.effects, name) == Accounted(c, [], name)
  {
    NoneResolved(s.effects, name);
  }

  /** The effects of a cache hit resolve the caller for its own file name
      and nobody for any other. */
  lemma HitEffectsResolve(waiter: SC.WaiterId, url: SC.Url, localPath: string, name: SC.FileName)
    ensures ResolvedFor([SC.Progress(waiter), SC.Success(waiter, url, localPath)], name)
         == (if SC.LastPathComponent(url) == name then [waiter] else [])
  {
    var effects := [SC.Progress(waiter), SC.Success(waiter, url, localPath)];
    var tail := [SC.Success(waiter, url, localPath)];
    assert effects[1..] == tail && tail[1..] == [];
    var mine: seq<SC.WaiterId> := if SC.LastPathComponent(url) == name then [waiter] else [];
    assert ResolvedFor(tail, name) == mine + ResolvedFor([], name);
    assert ResolvedFor(effects, name) == [] + ResolvedFor(tail, name);
  }

  /** `get` accounts for every waiter it found plus its caller (for the
      caller's file): answered at once on a hit, registered on a miss. */
  lemma GetConservesWaiters(c: SC.Cache, url: SC.Url, waiter: SC.WaiterId, name: SC.FileName)
    ensures var r := SC.Get(c, url, waiter);
      Accounted(r.cache, r.effects, name)
      == Accounted(c, [], name) + multiset(if SC.LastPathComponent(url) == name then [waiter] else [])
  {
    if SC.LastPathComponent(url) in c.files {
      GetHitConservesWaiters(c, url, waiter, name);
    } else {
      GetMissConservesWaiters(c, url, waiter, name);
    }
  }

  lemma GetHitConservesWaiters(c: SC.Cache, url: SC.Url, waiter: SC.WaiterId, name: SC.FileName)
    requires SC.LastPathComponent(url) in c.files
    ensures var r := SC.Get(c, url, waiter);
      && Waiting(r.cache, name) == Waiting(c, name)
      && ResolvedFor(r.effects, name) == (if SC.LastPathComponent(url) == name then [waiter] else [])
  {
    HitEffectsResolve(waiter, url, SC.LocalPath(c.directory, url), name);
  }

  lemma GetMissConservesWaiters(c: SC.Cache, url: SC.Url, waiter: SC.WaiterId, name: SC.FileName)
    requires SC.LastPathComponent(url) !in c.files
    ensures var r := SC.Get(c, url, waiter);
      && Waiting(r.cache, name) == Waiting(c, name) + (if SC.LastPathComponent(url) == name then [waiter] else [])
      && ResolvedFor(r.effects, name) == []
  {
    NoneResolved(SC.Get(c, url, waiter).effects, name);
  }

  /** The effects of a completion outside the cleared state resolve its
      waiters for its own file name and nobody for any other. */
  lemma CompletionEffectsResolve(ok: bool, waiters: seq<SC.WaiterId>, url: SC.Url, localPath: string, name: SC.FileName)
    ensures ResolvedFor((if ok then [SC.ScheduleCleanup] else []) + SC.Resolve(waiters, ok, url, localPath), name)
         == (if SC.LastPathComponent(url) == name then waiters else [])
  {
    var cleanup: seq<SC.Effect> := if ok then [SC.ScheduleCleanup] else [];
    NoneResolved(cleanup, name);
    ResolvedForConcat(cleanup, SC.Resolve(waiters, ok, url, localPath), name);
    ResolveResolves(waiters, ok, url, localPath, name);
  }

  /** A completion outside the cleared state hands every waiter of its file
      exactly one callback and unregisters them; in the cleared state
      nothing is registered or resolved. Either way the same waiters are
      accounted for. */
  lemma CompleteConservesWaiters(c: SC.Cache, i: nat, ok: bool, moved: bool, name: SC.FileName)
    requires i < |c.inFlight|
    ensures var r := SC.DownloadComplete(c, i, ok, moved);
      Accounted(r.cache, r.effects, name) == Accounted(c, [], name)
  {
    var r := SC.DownloadComplete(c, i, ok, moved);
    if c.cacheWasCleared {
      NoneResolved(r.effects, name);
    } else {
      LiveCompletionHandsOver(c, i, ok, moved, name);
    }
  }

  /** Outside the cleared state, a completion moves the waiters of its own
      file from the pending table into its callbacks. */
  lemma LiveCompletionHandsOver(c: SC.Cache, i: nat, ok: bool, moved: bool, name: SC.FileName)
    requires i < |c.inFlight| && !c.cacheWasCleared
    ensures var r := SC.DownloadComplete(c, i, ok, moved);
      var mine := c.inFlight[i].Name() == name;
      && Waiting(r.cache, name) == (if mine then [] else Waiting(c, name))
      && ResolvedFor(r.effects, name) == (if mine then Waiting(c, name) else [])
  {
    var d := c.inFlight[i];
    CompletionEffectsResolve(ok, Waiting(c, d.Name()), d.url, SC.LocalPath(c.directory, d.url), name);
  }

  /** One step other than `clear` neither loses nor duplicates a waiter:
      whoever was waiting, plus the caller of a `get`, is afterwards either
      still waiting or resolved by this step, exactly once. */
  lemma ApplyConservesWaiters(c: SC.Cache, e: Event, name: SC.FileName)
    requires !e.Clear?
    ensures var s := Apply(c, e);
      Accounted(s.cache, s.effects, name) == Accounted(c, [], name) + multiset(RequestedFor([e], name))
  {
    assert RequestedFor([e], name) == (if e.Get? && SC.LastPathComponent(e.url) == name then [e.waiter] else []);
    if e.Get? {
      GetConservesWaiters(c, e.url, e.waiter, name);
    } else if e.DownloadComplete? && e.index < |c.inFlight| {
      CompleteConservesWaiters(c, e.index, e.ok, e.moved, name);
    } else {
      QuietEventConservesWaiters(c, e, name);
    }
  }

  /** Events other than `get`, `clear` and the completion of a download in
      flight leave the pending table alone and resolve nobody. */
  lemma QuietEventConservesWaiters(c: SC.Cache, e: Event, name: SC.FileName)
    requires !e.Clear? && !e.Get? && !(e.DownloadComplete? && e.index < |c.inFlight|)
    ensures var s := Apply(c, e);
      Accounted(s.cache, s.effects, name) == Accounted(c, [], name)
  {
    QuietStepConservesWaiters(c, Apply(c, e), name);
  }

  lemma RequestedForCons(events: seq<Event>, name: SC.FileName)
    requires |events| > 0
    ensures multiset(RequestedFor(events, name))
         == multiset(RequestedFor([events[0]], name)) + multiset(RequestedFor(events[1..], name))
  {
    var e := events[0];
    var head := if e.Get? && SC.LastPathComponent(e.url) == name then [e.waiter] else [];
    assert RequestedFor([e], name) == head + RequestedFor([], name);
    assert RequestedFor(events, name) == head + RequestedFor(events[1..], name);
  }

  /** Two balanced steps in a row balance. */
  lemma ChainBalances<T>(w0: multiset<T>, w1: multiset<T>, w2: multiset<T>, f1: multiset<T>, f2: multiset<T>, q1: multiset<T>, q2: multiset<T>)
    requires w1 + f1 == w0 + q1 && w2 + f2 == w1 + q2
    ensures w2 + (f1 + f2) == w0 + (q1 + q2)
  {
    forall x ensures (w2 + (f1 + f2))[x] == (w0 + (q1 + q2))[x] {
      assert (w1 + f1)[x] == (w0 + q1)[x];
      assert (w2 + f2)[x] == (w1 + q2)[x];
    }
  }

  /** Along a history without `clear`, every waiter of every file is at the
      end either still registered or was resolved exactly once: the waiters
      at the start plus every `get` caller equal, as a multiset, the waiters
      at the end plus every success or failure callback invoked. */
  lemma {:induction false} RunConservesWaiters(c: SC.Cache, events: seq<Event>, name: SC.FileName)
    requires forall k :: 0 <= k < |events| ==> !events[k].Clear?
    ensures var s := Run(c, events);
      Accounted(s.cache, s.effects, name) == Accounted(c, [], name) + multiset(RequestedFor(events, name))
    decreases |events|
  {
    if |events| == 0 {
      assert Run(c, events) == SC.Step(c, []);
      assert RequestedFor(events, name) == [];
    } else {
      var first := Apply(c, events[0]);
      var rest := Run(first.cache, events[1..]);
      var s := Run(c, events);
      assert s.cache == rest.cache && s.effects == first.effects + rest.effects;
      ApplyConservesWaiters(c, events[0], name);
      RunConservesWaiters(first.cache, events[1..], name);
      ResolvedForConcat(first.effects, rest.effects, name);
      assert ResolvedFor([], name) == [];
      var w0, w1, w2 := multiset(Waiting(c, name)), multiset(Waiting(first.cache, name)), multiset(Waiting(s.cache, name));
      var f1, f2 := multiset(ResolvedFor(first.effects, name)), multiset(ResolvedFor(rest.effects, name));
      var q1, q2 := multiset(RequestedFor([events[0]], name)), multiset(RequestedFor(events[1..], name));
      RequestedForCons(events, name);
      assert Accounted(c, [], name) == w0;
      assert Accounted(s.cache, s.effects, name) == w2 + (f1 + f2);
      ChainBalances(w0, w1, w2, f1, f2, q1, q2);
    }
  }

  /** Once every download in flight has completed (in any outcome), no
      waiter is left registered: with the conservation lemma, every `get`
      caller of a history without `clear` is resolved exactly once. */
  lemma {:induction false} DrainingResolvesAll(c: SC.Cache, events: seq<Event>)
    requires Coalesced(c)
    requires |events| == |c.inFlight|
    requires forall k :: 0 <= k < |events| ==> events[k].DownloadComplete? && events[k].index == 0
    ensures Run(c, events).cache.pending == map[]
    ensures Run(c, events).cache.inFlight == []
    decreases |events|
  {
    if |events| == 0 {
      assert forall name :: name !in c.pending;
    } else {
      ApplyKeepsCoalesced(c, events[0]);
      DrainingResolvesAll(Apply(c, events[0]).cache, events[1..]);
    }
  }

  // ------------------------------------------------------------- the journal

  /** The journal never lists a name twice. */
  predicate JournalValid(c: SC.Cache) {
    NoDuplicates(c.journal)
  }

  /** Every step keeps the journal free of duplicates. */
  lemma ApplyKeepsJournalValid(c: SC.Cache, e: Event)
    requires JournalValid(c)
    ensures JournalValid(Apply(c, e).cache)
  {
    match e
    case RemoveLRUEntries(count) =>
      var r := SC.RemoveLRUEntries(c, count);
      SplitNoDuplicates(SC.GetLRUEntries(c.journal, count), r.journal);
    case _ =>
  }

  /** `removeLRUEntries(n)` removes the `n` oldest names (or all, when fewer)
      from both the journal and the cache directory, and nothing else from
      the journal. */
  lemma EvictionRemovesEntriesAndFiles(c: SC.Cache, count: int)
    requires JournalValid(c)
    ensures var r := SC.RemoveLRUEntries(c, count);
      var evicted := SC.GetLRUEntries(c.journal, count);
      && |evicted| == (if count <= 0 then 0 else if count < |c.journal| then count else |c.journal|)
      && (forall n :: n in evicted ==> n !in r.journal && n !in r.files)
      && (forall n :: n in c.journal && n !in evicted ==> n in r.journal)
  {
    var r := SC.RemoveLRUEntries(c, count);
    SplitNoDuplicates(SC.GetLRUEntries(c.journal, count), r.journal);
  }

  /** After `clear` no journalled file is cached any more and the journal is
      empty. */
  lemma ClearEmpties(c: SC.Cache, url: SC.Url)
    requires SC.LastPathComponent(url) in c.journal
    ensures !SC.Has(SC.Clear(c), url)
    ensures SC.Clear(c).journal == []
  {
  }

  // ------------------------------------------------------------------ put

  /** `put(remoteURL, data:)` is idempotent once the write succeeded: a
      second call returns the same path and changes nothing. */
  lemma PutDataIdempotent(c: SC.Cache, url: SC.Url, written: bool)
    ensures var first := SC.PutData(c, url, true);
      var second := SC.PutData(first.cache, url, written);
      second.localPath == first.localPath && second.cache == first.cache && second.effects == []
  {
  }

  // ------------------------------------------------------- canonical paths

  /** Two URLs share a local path exactly when they share their last path
      component. */
  lemma LocalPathOnlyDependsOnLastComponent(directory: string, u1: SC.Url, u2: SC.Url)
    ensures SC.LocalPath(directory, u1) == SC.LocalPath(directory, u2)
        <==> SC.LastPathComponent(u1) == SC.LastPathComponent(u2)
  {
    var p1, p2 := SC.LocalPath(directory, u1), SC.LocalPath(directory, u2);
    var prefix := directory + "/";
    if p1 == p2 {
      assert SC.LastPathComponent(u1) == p1[|prefix|..];
      assert SC.LastPathComponent(u2) == p2[|prefix|..];
    }
  }

  // ------------------------------------------------------------- scenarios

  /** Unfolding a history by its first event. */
  lemma RunCons(c: SC.Cache, e: Event, rest: seq<Event>)
    ensures var first := Apply(c, e);
      var tail := Run(first.cache, rest);
      Run(c, [e] + rest) == SC.Step(tail.cache, first.effects + tail.effects)
  {
    assert ([e] + rest)[1..] == rest;
  }

  /** The state after the three `get` calls of `ThreeGetsOneDownload`. */
  lemma ThreeGetsRegister(directory: string, host: SC.Url, otherHost: SC.Url, name: SC.FileName)
    requires forall i :: 0 <= i < |name| ==> name[i] != '/'
    ensures var url := host + "/" + name;
      var d := SC.Download(0, url);
      var s := Run(SC.Init(directory, {}, []), [Get(url, 1), Get(url, 2), Get(otherHost + "/" + name, 3)]);
      s == SC.Step(SC.Cache(directory, {}, [], map[name := [1, 2, 3]], false, [d], 1), [SC.StartDownload(d)])
  {
    var url := host + "/" + name;
    SC.LastPathComponentAfterSlash(host, name);
    SC.LastPathComponentAfterSlash(otherHost, name);
    var d := SC.Download(0, url);
    var c0 := SC.Init(directory, {}, []);
    var e1, e2, e3 := Get(url, 1), Get(url, 2), Get(otherHost + "/" + name, 3);
    var s1 := Apply(c0, e1);
    assert s1 == SC.Step(SC.Cache(directory, {}, [], map[name := [1]], false, [d], 1), [SC.StartDownload(d)]);
    var s2 := Apply(s1.cache, e2);
    assert [1] + [2] == [1, 2];
    assert s1.cache.pending[name := [1, 2]] == map[name := [1, 2]];
    var s3 := Apply(s2.cache, e3);
    assert [1, 2] + [3] == [1, 2, 3];
    assert s2.cache.pending[name := [1, 2, 3]] == map[name := [1, 2, 3]];
    RunCons(s2.cache, e3, []);
    RunCons(s1.cache, e2, [e3]);
    RunCons(c0, e1, [e2, e3]);
  }

  /** Three `get` calls for one missing file followed by its successful
      completion: one download starts, each caller gets exactly one success
      with the same local path, and the journal holds the file once. The
      third caller asked under a different URL with the same last path
      component: it joins the download and its success carries the first
      caller's URL. */
  lemma ThreeGetsOneDownload(directory: string, host: SC.Url, otherHost: SC.Url, name: SC.FileName)
    requires forall i :: 0 <= i < |name| ==> name[i] != '/'
    ensures var url := host + "/" + name;
      var path := directory + "/" + name;
      var gets := Run(SC.Init(directory, {}, []), [Get(url, 1), Get(url, 2), Get(otherHost + "/" + name, 3)]);
      var done := Apply(gets.cache, DownloadComplete(0, true, true));
      && gets.effects + done.effects
         == [SC.StartDownload(SC.Download(0, url)), SC.ScheduleCleanup,
             SC.Success(1, url, path), SC.Success(2, url, path), SC.Success(3, url, path)]
      && done.cache.journal == [name] && done.cache.files == {name}
      && done.cache.pending == map[] && done.cache.inFlight == []
  {
    var url := host + "/" + name;
    SC.LastPathComponentAfterSlash(host, name);
    ThreeGetsRegister(directory, host, otherHost, name);
    ThreeWaitersComplete(directory, url, name);
    var gets := Run(SC.Init(directory, {}, []), [Get(url, 1), Get(url, 2), Get(otherHost + "/" + name, 3)]);
    assert Apply(gets.cache, DownloadComplete(0, true, true)) == SC.DownloadComplete(gets.cache, 0, true, true);
  }

  /** The successful completion of the one download the three callers wait
      for. */
  lemma ThreeWaitersComplete(directory: string, url: SC.Url, name: SC.FileName)
    requires SC.LastPathComponent(url) == name
    ensures var d := SC.Download(0, url);
      var path := directory + "/" + name;
      var done := SC.DownloadComplete(SC.Cache(directory, {}, [], map[name := [1, 2, 3]], false, [d], 1), 0, true, true);
      && done.effects == [SC.ScheduleCleanup, SC.Success(1, url, path), SC.Success(2, url, path), SC.Success(3, url, path)]
      && done.cache.journal == [name] && done.cache.files == {name}
      && done.cache.pending == map[] && done.cache.inFlight == []
  {
    var path := directory + "/" + name;
    var d := SC.Download(0, url);
    var c := SC.Cache(directory, {}, [], map[name := [1, 2, 3]], false, [d], 1);
    assert SC.LocalPath(directory, url) == path;
    var done := SC.DownloadComplete(c, 0, true, true);
    assert RemoveFirst([], name) == [];
    assert done.cache.journal == [name];
    assert done.cache.pending == map[];
    assert SC.Resolve([1, 2, 3], true, url, path) == [SC.Success(1, url, path), SC.Success(2, url, path), SC.Success(3, url, path)];
  }

  /** A download that completes after `clear` still moves its file into the
      cache directory, but the file is in no journal entry, and the waiter
      registered before the `clear` never hears back. */
  lemma ClearedCompletionOrphansFile(directory: string, host: SC.Url, name: SC.FileName)
    requires forall i :: 0 <= i < |name| ==> name[i] != '/'
    ensures var url := host + "/" + name;
      var s := Run(SC.Init(directory, {}, []), [Get(url, 1), Clear, DownloadComplete(0, true, true)]);
      && s.effects == [SC.StartDownload(SC.Download(0, url))]
      && name in s.cache.files && name !in s.cache.journal
      && s.cache.pending == map[] && s.cache.inFlight == []
  {
    var url := host + "/" + name;
    SC.LastPathComponentAfterSlash(host, name);
    var d := SC.Download(0, url);
    var c0 := SC.Init(directory, {}, []);
    var e1, e2, e3 := Get(url, 1), Clear, DownloadComplete(0, true, true);
    var s1 := Apply(c0, e1);
    assert s1 == SC.Step(SC.Cache(directory, {}, [], map[name := [1]], false, [d], 1), [SC.StartDownload(d)]);
    var s2 := Apply(s1.cache, e2);
    assert s2 == SC.Step(SC.Cache(directory, {}, [], map[], true, [d], 1), []);
    var s3 := Apply(s2.cache, e3);
    assert s3 == SC.Step(SC.Cache(directory, {name}, [], map[], true, [], 1), []);
    RunCons(s2.cache, e3, []);
    RunCons(s1.cache, e2, [e3]);
    RunCons(c0, e1, [e2, e3]);
  }

  /** `get` after `clear` starts a second download of a file whose first
      download is still in flight, so the coalescing invariant no longer
      holds; the caller registered before the `clear` is forgotten. */
  lemma ClearThenGetDownloadsTwice(directory: string, host: SC.Url, name: SC.FileName)
    requires forall i :: 0 <= i < |name| ==> name[i] != '/'
    ensures var url := host + "/" + name;
      var s := Run(SC.Init(directory, {}, []), [Get(url, 1), Clear, Get(url, 2)]);
      && s.effects == [SC.StartDownload(SC.Download(0, url)), SC.StartDownload(SC.Download(1, url))]
      && s.cache.inFlight == [SC.Download(0, url), SC.Download(1, url)]
      && s.cache.pending == map[name := [2]]
      && !Coalesced(s.cache)
  {
    var url := host + "/" + name;
    SC.LastPathComponentAfterSlash(host, name);
    var d0, d1 := SC.Download(0, url), SC.Download(1, url);
    var c0 := SC.Init(directory, {}, []);
    var e1, e2, e3 := Get(url, 1), Clear, Get(url, 2);
    var s1 := Apply(c0, e1);
    assert s1 == SC.Step(SC.Cache(directory, {}, [], map[name := [1]], false, [d0], 1), [SC.StartDownload(d0)]);
    var s2 := Apply(s1.cache, e2);
    assert s2 == SC.Step(SC.Cache(directory, {}, [], map[], true, [d0], 1), []);
    var s3 := Apply(s2.cache, e3);
    assert s3 == SC.Step(SC.Cache(directory, {}, [], map[name := [2]], false, [d0, d1], 2), [SC.StartDownload(d1)]);
    RunCons(s2.cache, e3, []);
    RunCons(s1.cache, e2, [e3]);
    RunCons(c0, e1, [e2, e3]);
    assert Names(s3.cache.inFlight)[0] == Names(s3.cache.inFlight)[1];
  }
}
