/** TestApplication/Main.cpp run under the current injected DLL: five
    `LeakyFunction` calls of 5 MiB each from one call site, then one
    `NonLeakyFunction` that allocates 1 MiB from another site and frees it.
    The pointers the C runtime hands out and the stacks captured at each site
    are inputs. */
module TestApplication {
  import opened StackTraces
  import opened Profiler
  import opened Hooks
  import opened HeapyInject

  const MiB: nat := 1024 * 1024

  /** The allocations held by site `h`, or none when there is no such site. */
  ghost function Live(t: Tables, h: StackHash): map<Ptr, nat>
  {
    if h in t.stackTraces then t.stackTraces[h].allocations else map[]
  }

  /** The application's main thread after injection: its own depth counter
      at 0, and the profiler the entry point created. */
  method InjectedMainThread() returns (inj: Injector)
    ensures fresh(inj) && fresh(inj.heapProfiler)
    ensures inj.Valid() && inj.depthCount == 0
    ensures inj.heapProfiler != null && inj.heapProfiler.Valid()
    ensures inj.heapProfiler.stackTraces == map[] && inj.heapProfiler.ptrs == map[]
  {
    inj := new Injector();
    inj.heapProfiler := new HeapProfiler();
  }

  /** `LeakyFunction()` five times: five 5 MiB blocks filed under the leaking
      site, none of them freed. */
  method LeakFiveTimes(inj: Injector, leaks: seq<Ptr>, leakCapture: seq<Addr>, leakHash: StackHash)
    requires inj.Valid() && inj.depthCount == 0
    requires inj.heapProfiler != null && inj.heapProfiler.Valid()
    requires inj.heapProfiler.stackTraces == map[] && inj.heapProfiler.ptrs == map[]
    requires |leaks| == 5 && forall i, j :: 0 <= i < j < 5 ==> leaks[i] != leaks[j]
    requires |leakCapture| <= BacktraceSize
    modifies inj, inj.heapProfiler
    ensures inj.depthCount == 0 && inj.heapProfiler == old(inj.heapProfiler) && inj.heapProfiler.Valid()
    ensures inj.heapProfiler.stackTraces.Keys == {leakHash}
    ensures inj.heapProfiler.ptrs.Keys == set k | 0 <= k < 5 :: leaks[k]
    ensures Total(Live(inj.heapProfiler.State(), leakHash)) == 5 * (5 * MiB)
  {
    var i := 0;
    while i < 5
      invariant 0 <= i <= 5
      invariant inj.depthCount == 0 && inj.heapProfiler == old(inj.heapProfiler) && inj.heapProfiler.Valid()
      invariant inj.heapProfiler.stackTraces.Keys == if i == 0 then {} else {leakHash}
      invariant inj.heapProfiler.ptrs.Keys == set k | 0 <= k < i :: leaks[k]
      invariant forall q :: q in Live(inj.heapProfiler.State(), leakHash) ==> q in leaks[..i]
      invariant Total(Live(inj.heapProfiler.State(), leakHash)) == i * (5 * MiB)
    {
      ghost var before := Live(inj.heapProfiler.State(), leakHash);
      assert leaks[i] !in before;
      TotalInsert(before, leaks[i], 5 * MiB);
      var _, _ := inj.MallocHook(0, 5 * MiB, leaks[i], leakCapture, leakHash);
      assert Live(inj.heapProfiler.State(), leakHash) == before[leaks[i] := 5 * MiB];
      assert leaks[..i + 1] == leaks[..i] + [leaks[i]];
      i := i + 1;
    }
  }

  /** A report of two sites, read off entry by entry. */
  lemma TwoSiteReport(t: Tables, report: seq<SiteReport>, leakHash: StackHash, hash: StackHash)
    requires IsSiteReport(t, report)
    requires t.stackTraces.Keys == {leakHash, hash} && leakHash != hash
    ensures |report| == 2
    ensures forall i :: 0 <= i < |report| ==> report[i].trace.hash in {leakHash, hash}
    ensures forall i :: 0 <= i < |report| && report[i].trace.hash == leakHash ==> report[i].size == Total(Live(t, leakHash))
    ensures forall i :: 0 <= i < |report| && report[i].trace.hash == hash ==> report[i].size == Total(Live(t, hash))
  {
    assert |t.stackTraces.Keys| == 2;
  }

  /** `NonLeakyFunction()`'s allocation: 1 MiB filed under a second site. */
  method AllocateOnce(inj: Injector, p: Ptr, capture: seq<Addr>, hash: StackHash, leakHash: StackHash)
    requires inj.Valid() && inj.depthCount == 0
    requires inj.heapProfiler != null && inj.heapProfiler.Valid()
    requires inj.heapProfiler.stackTraces.Keys == {leakHash} && leakHash != hash
    requires p !in inj.heapProfiler.ptrs && |capture| <= BacktraceSize
    modifies inj, inj.heapProfiler
    ensures inj.depthCount == 0 && inj.heapProfiler == old(inj.heapProfiler) && inj.heapProfiler.Valid()
    ensures inj.heapProfiler.stackTraces.Keys == {leakHash, hash}
    ensures p in inj.heapProfiler.ptrs && inj.heapProfiler.ptrs[p] == hash
    ensures Live(inj.heapProfiler.State(), leakHash) == old(Live(inj.heapProfiler.State(), leakHash))
    ensures Live(inj.heapProfiler.State(), hash) == map[p := MiB]
  {
    var _, _ := inj.MallocHook(0, MiB, p, capture, hash);
  }

  /** `NonLeakyFunction()`'s `free`, through the wrapper that records it:
      the second site stays, with nothing live. */
  method FreeOnceRecorded(inj: Injector, p: Ptr, capture: seq<Addr>, hash: StackHash, leakHash: StackHash)
    requires inj.Valid() && inj.depthCount == 0
    requires inj.heapProfiler != null && inj.heapProfiler.Valid()
    requires inj.heapProfiler.stackTraces.Keys == {leakHash, hash} && leakHash != hash
    requires p in inj.heapProfiler.ptrs && inj.heapProfiler.ptrs[p] == hash
    requires Live(inj.heapProfiler.State(), hash) == map[p := MiB] && |capture| <= BacktraceSize
    modifies inj, inj.heapProfiler
    ensures inj.depthCount == 0 && inj.heapProfiler == old(inj.heapProfiler) && inj.heapProfiler.Valid()
    ensures inj.heapProfiler.stackTraces.Keys == {leakHash, hash}
    ensures Live(inj.heapProfiler.State(), leakHash) == old(Live(inj.heapProfiler.State(), leakHash))
    ensures Live(inj.heapProfiler.State(), hash) == map[]
  {
    var _ := inj.FreeHookRecording(0, p, capture, hash);
    assert map[p := MiB] - {p} == map[];
  }

  /** The whole run with the free wrapper as written: the report still
      charges the freed 1 MiB to the non-leaking site. */
  method RunWithFreeHook(leaks: seq<Ptr>, p: Ptr, leakCapture: seq<Addr>, leakHash: StackHash,
                         capture: seq<Addr>, hash: StackHash)
    returns (report: seq<SiteReport>)
    requires |leaks| == 5 && (forall i, j :: 0 <= i < j < 5 ==> leaks[i] != leaks[j]) && p !in leaks
    requires |leakCapture| <= BacktraceSize && |capture| <= BacktraceSize && leakHash != hash
    ensures |report| == 2
    ensures forall i :: 0 <= i < |report| ==> report[i].trace.hash in {leakHash, hash}
    ensures forall i :: 0 <= i < |report| && report[i].trace.hash == leakHash ==> report[i].size == 25 * MiB
    ensures forall i :: 0 <= i < |report| && report[i].trace.hash == hash ==> report[i].size == MiB
  {
    var inj := InjectedMainThread();
    LeakFiveTimes(inj, leaks, leakCapture, leakHash);
    AllocateOnce(inj, p, capture, hash, leakHash);
    var _ := inj.FreeHook(0, p, capture, hash);
    TotalInsert(map[], p, MiB);
    report := inj.heapProfiler.GetAllocationSiteReport();
    TwoSiteReport(inj.heapProfiler.State(), report, leakHash, hash);
  }

  /** The whole run with the free wrapper that records frees: the leaking
      site reports its 25 MiB and the non-leaking site nothing. */
  method RunWithRecordingFreeHook(leaks: seq<Ptr>, p: Ptr, leakCapture: seq<Addr>, leakHash: StackHash,
                                  capture: seq<Addr>, hash: StackHash)
    returns (report: seq<SiteReport>)
    requires |leaks| == 5 && (forall i, j :: 0 <= i < j < 5 ==> leaks[i] != leaks[j]) && p !in leaks
    requires |leakCapture| <= BacktraceSize && |capture| <= BacktraceSize && leakHash != hash
    ensures |report| == 2
    ensures forall i :: 0 <= i < |report| ==> report[i].trace.hash in {leakHash, hash}
    ensures forall i :: 0 <= i < |report| && report[i].trace.hash == leakHash ==> report[i].size == 25 * MiB
    ensures forall i :: 0 <= i < |report| && report[i].trace.hash == hash ==> report[i].size == 0
  {
    var inj := InjectedMainThread();
    LeakFiveTimes(inj, leaks, leakCapture, leakHash);
    AllocateOnce(inj, p, capture, hash, leakHash);
    FreeOnceRecorded(inj, p, capture, hash, leakHash);
    report := inj.heapProfiler.GetAllocationSiteReport();
    TwoSiteReport(inj.heapProfiler.State(), report, leakHash, hash);
  }
}
