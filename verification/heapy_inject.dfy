/** The current injected DLL, HeapyInject/HeapyInject.cpp: the self-profiling
    guard, the malloc/free wrappers that feed the HeapProfiler, the hook
    tables and the callbacks that fill them, and the top-N report. */
module HeapyInject {
  import opened StackTraces
  import opened Profiler
  import opened Hooks

  /** `size_t` on the 64-bit build: conversions wrap modulo 2^64. */
  const SizeTModulus: int := 0x1_0000_0000_0000_0000

  /** `size_t(n)` for an `int` n. */
  function SizeT(n: int): (r: nat)
    ensures r < SizeTModulus
    ensures 0 <= n < SizeTModulus ==> r == n
    ensures -SizeTModulus <= n < 0 ==> r == n + SizeTModulus
  {
    n % SizeTModulus
  }

  function Min(a: nat, b: nat): nat
  {
    if a < b then a else b
  }

  /** One entry written by `PrintTopAllocationReport`: the site's size and
      trace, and the frames its `print` writes. */
  datatype PrintedSite = PrintedSite(site: SiteReport, frames: seq<Addr>)

  /** The order `PrintTopAllocationReport` sorts in: `a.second > b.second`. */
  ghost predicate SortedBySizeDescending(s: seq<SiteReport>)
  {
    forall i, j :: 0 <= i < j < |s| ==> s[i].size >= s[j].size
  }

  /** Putting an entry no smaller than the head in front keeps the order. */
  lemma ConsKeepsSorted(a: SiteReport, s: seq<SiteReport>)
    requires SortedBySizeDescending(s)
    requires |s| > 0 ==> a.size >= s[0].size
    ensures SortedBySizeDescending([a] + s)
  {
    forall i, j | 0 <= i < j < |[a] + s|
      ensures ([a] + s)[i].size >= ([a] + s)[j].size
    {
      if i > 0 {
        assert ([a] + s)[i] == s[i - 1];
      }
    }
  }

  /** Insert `x` into a list sorted by size, largest first. */
  function InsertBySize(x: SiteReport, s: seq<SiteReport>): (r: seq<SiteReport>)
    requires SortedBySizeDescending(s)
    ensures multiset(r) == multiset(s) + multiset{x} && |r| == |s| + 1
    ensures r[0] == x || (|s| > 0 && r[0] == s[0])
    ensures SortedBySizeDescending(r)
  {
    if s == [] || s[0].size <= x.size then
      ConsKeepsSorted(x, s);
      [x] + s
    else
      assert s == [s[0]] + s[1..];
      var rest := InsertBySize(x, s[1..]);
      ConsKeepsSorted(s[0], rest);
      [s[0]] + rest
  }

  /** The effect of `std::sort` with the comparator `a.second > b.second`:
      a permutation of the report, largest size first. `std::sort` is not
      stable, so nothing more about the order of equal sizes is promised. */
  function SortBySizeDescending(s: seq<SiteReport>): (r: seq<SiteReport>)
    ensures multiset(r) == multiset(s) && |r| == |s|
    ensures SortedBySizeDescending(r)
  {
    if s == [] then []
    else
      assert s == [s[0]] + s[1..];
      InsertBySize(s[0], SortBySizeDescending(s[1..]))
  }

  /** No two entries of `s` are about the same site. */
  ghost predicate DistinctSites(s: seq<SiteReport>)
  {
    forall i, j :: 0 <= i < j < |s| ==> s[i].trace.hash != s[j].trace.hash
  }

  lemma {:induction false} DistinctOccursOnce(s: seq<SiteReport>, v: SiteReport)
    requires DistinctSites(s)
    ensures multiset(s)[v] <= 1
  {
    if s != [] {
      assert s == [s[0]] + s[1..];
      DistinctOccursOnce(s[1..], v);
      assert forall j :: 0 <= j < |s[1..]| ==> s[1..][j].trace.hash != s[0].trace.hash;
      assert s[0] == v ==> v !in s[1..];
    }
  }

  lemma TwoOccurrences(s: seq<SiteReport>, i: nat, j: nat)
    requires i < j < |s|
    ensures s[i] == s[j] ==> multiset(s)[s[i]] >= 2
  {
    assert s == s[..i] + [s[i]] + s[i + 1..j] + [s[j]] + s[j + 1..];
  }

  /** Sorting a report cannot make two entries name the same site. */
  lemma PermutationKeepsDistinct(a: seq<SiteReport>, b: seq<SiteReport>)
    requires multiset(a) == multiset(b) && DistinctSites(a)
    ensures DistinctSites(b)
  {
    forall i, j | 0 <= i < j < |b|
      ensures b[i].trace.hash != b[j].trace.hash
    {
      assert b[i] in multiset(b) && b[j] in multiset(b);
      var x :| 0 <= x < |a| && a[x] == b[i];
      var y :| 0 <= y < |a| && a[y] == b[j];
      DistinctOccursOnce(a, b[i]);
      TwoOccurrences(b, i, j);
    }
  }

  /** `sites` is what a top-N report of `t` shows: each entry is a site of
      `t` with its total, no site twice, largest first, and no site left out
      is larger than a site shown. */
  ghost predicate IsTopReport(t: Tables, sites: seq<SiteReport>)
  {
    && (forall i :: 0 <= i < |sites| ==>
          sites[i].trace.hash in t.stackTraces && sites[i] == SiteEntry(t, sites[i].trace.hash))
    && (forall i, j :: 0 <= i < j < |sites| ==>
          sites[i].size >= sites[j].size && sites[i].trace.hash != sites[j].trace.hash)
    && (forall h, i :: h in t.stackTraces && 0 <= i < |sites| && Unlisted(sites, h) ==>
          Total(t.stackTraces[h].allocations) <= sites[i].size)
  }

  /** No entry of `sites` is about the site with hash `h`. */
  ghost predicate Unlisted(sites: seq<SiteReport>, h: StackHash)
  {
    forall i :: 0 <= i < |sites| ==> sites[i].trace.hash != h
  }

  /** A site left out of a prefix of the sorted report is no larger than
      any site in it. */
  lemma UnlistedIsNoLarger(t: Tables, report: seq<SiteReport>, sorted: seq<SiteReport>, n: nat, h: StackHash)
    requires IsSiteReport(t, report)
    requires multiset(sorted) == multiset(report) && SortedBySizeDescending(sorted)
    requires n <= |sorted| && h in t.stackTraces && Unlisted(sorted[..n], h)
    ensures forall i :: 0 <= i < n ==> Total(t.stackTraces[h].allocations) <= sorted[i].size
  {
    var x :| 0 <= x < |report| && report[x].trace.hash == h;
    assert report[x] in multiset(sorted);
    var j :| 0 <= j < |sorted| && sorted[j] == report[x];
    assert forall k :: 0 <= k < n ==> sorted[..n][k] == sorted[k];
    assert forall k :: 0 <= k < n ==> sorted[k].trace.hash != h;
  }

  /** Every prefix of the sorted site report is a top report. */
  lemma SortedReportPrefixIsTop(t: Tables, report: seq<SiteReport>, sorted: seq<SiteReport>, n: nat)
    requires IsSiteReport(t, report)
    requires multiset(sorted) == multiset(report) && SortedBySizeDescending(sorted)
    requires n <= |sorted|
    ensures IsTopReport(t, sorted[..n])
  {
    PermutationKeepsDistinct(report, sorted);
    var top := sorted[..n];
    forall k | 0 <= k < |top|
      ensures top[k].trace.hash in t.stackTraces && top[k] == SiteEntry(t, top[k].trace.hash)
    {
      assert sorted[k] in multiset(report);
    }
    forall h | h in t.stackTraces && Unlisted(top, h)
      ensures forall i :: 0 <= i < |top| ==> Total(t.stackTraces[h].allocations) <= top[i].size
    {
      UnlistedIsNoLarger(t, report, sorted, n, h);
    }
  }

  /** The sites of the printed entries. */
  function SitesOf(printed: seq<PrintedSite>): (r: seq<SiteReport>)
    ensures |r| == |printed| && forall i :: 0 <= i < |r| ==> r[i] == printed[i].site
  {
    seq(|printed|, i requires 0 <= i < |printed| => printed[i].site)
  }

  /** The loop of `PrintTopAllocationReport`: the first `limit` sites, each
      written with the frames its trace prints. */
  method PrintFirst(sites: seq<SiteReport>, limit: nat) returns (printed: seq<PrintedSite>)
    requires limit <= |sites|
    ensures SitesOf(printed) == sites[..limit]
    ensures forall i :: 0 <= i < |printed| ==> IsPrintSelection(printed[i].site.trace, printed[i].frames)
  {
    printed := [];
    var i := 0;
    while i < limit
      invariant 0 <= i <= limit
      invariant |printed| == i
      invariant forall k :: 0 <= k < i ==> printed[k].site == sites[k]
      invariant forall k :: 0 <= k < i ==> IsPrintSelection(printed[k].site.trace, printed[k].frames)
    {
      var frames := PrintedFrames(sites[i].trace);
      printed := printed + [PrintedSite(sites[i], frames)];
      i := i + 1;
    }
    assert SitesOf(printed) == sites[..limit];
  }

  class Injector {
    var nUsedMallocHooks: int
    var nUsedFreeHooks: int
    const mallocHooks: array<Wrapper>
    const freeHooks: array<Wrapper>
    const originalMallocs: array<FnPtr>
    const originalFrees: array<FnPtr>
    var heapProfiler: HeapProfiler?
    /** `_depthCount` of the one thread modelled. */
    var depthCount: int
    /** The MH_CreateHook calls made so far. */
    var hookRequests: seq<HookRequest>

    ghost predicate Valid()
      reads this
    {
      && mallocHooks.Length == NumHooks && freeHooks.Length == NumHooks
      && originalMallocs.Length == NumHooks && originalFrees.Length == NumHooks
      && mallocHooks != freeHooks && originalMallocs != originalFrees
      && depthCount >= 0
    }

    /** The hook bookkeeping the symbol callback updates, as a value. */
    ghost function Tables(): HookTables
      reads this, originalMallocs, originalFrees
    {
      HookTables(nUsedMallocHooks, nUsedFreeHooks, originalMallocs[..], originalFrees[..], hookRequests)
    }

    /** The wrapper tables the symbol callback reads, as a value. */
    ghost function Wrappers(): Detours
      reads this, mallocHooks, freeHooks
    {
      Detours(mallocHooks[..], freeHooks[..])
    }

    /** The DLL's static initialisation: counters, depth and tables zero. */
    constructor ()
      ensures Valid()
      ensures fresh(mallocHooks) && fresh(freeHooks) && fresh(originalMallocs) && fresh(originalFrees)
      ensures nUsedMallocHooks == 0 && nUsedFreeHooks == 0 && depthCount == 0
      ensures heapProfiler == null && hookRequests == []
      ensures forall i :: 0 <= i < NumHooks ==>
        mallocHooks[i] == Unset && freeHooks[i] == Unset && originalMallocs[i] == 0 && originalFrees[i] == 0
    {
      nUsedMallocHooks, nUsedFreeHooks := 0, 0;
      mallocHooks := new Wrapper[NumHooks](_ => Unset);
      freeHooks := new Wrapper[NumHooks](_ => Unset);
      originalMallocs := new FnPtr[NumHooks](_ => 0);
      originalFrees := new FnPtr[NumHooks](_ => 0);
      heapProfiler := null;
      depthCount := 0;
      hookRequests := [];
    }

    /** `PreventSelfProfile::PreventSelfProfile()`. */
    method EnterSelfProfileGuard()
      modifies this`depthCount
      ensures depthCount == old(depthCount) + 1
    {
      depthCount := depthCount + 1;
    }

    /** `PreventSelfProfile::~PreventSelfProfile()`: it only ever closes a
        guard that was opened, so the depth never drops below 0. */
    method LeaveSelfProfileGuard()
      requires depthCount >= 1
      modifies this`depthCount
      ensures depthCount == old(depthCount) - 1
    {
      depthCount := depthCount - 1;
    }

    /** `PreventSelfProfile::shouldProfile`: only the outermost hooked call on
        a thread is recorded. */
    predicate ShouldProfile()
      reads this
    {
      depthCount <= 1
    }

    /** `PreventEverProfilingThisThread`: a guard that is never left. */
    method PreventEverProfilingThisThread()
      modifies this`depthCount
      ensures depthCount == old(depthCount) + 1
    {
      depthCount := depthCount + 1;
    }

    /** Once `PreventEverProfilingThisThread` has run on a thread, a hooked
        malloc and a hooked free on that thread leave the profiler as it was,
        even with the free wrapper that records frees. */
    method NothingRecordedAfterPrevent(n: int, size: nat, returned: Ptr, ptr: Ptr, captured: seq<Addr>, hash: StackHash)
      requires Valid() && 0 <= n < NumHooks && |captured| <= BacktraceSize && heapProfiler != null
      modifies this`depthCount, heapProfiler
      ensures depthCount == old(depthCount) + 1
      ensures heapProfiler.State() == old(heapProfiler.State())
    {
      PreventEverProfilingThisThread();
      var _, _ := MallocHook(n, size, returned, captured, hash);
      var _ := FreeHookRecording(n, ptr, captured, hash);
    }

    /** `mallocHook<n>(size)`. The original returns `returned`; the stack
        capture yields `captured` and `hash`. */
    method MallocHook(n: int, size: nat, returned: Ptr, captured: seq<Addr>, hash: StackHash)
      returns (p: Ptr, call: OriginalCall)
      requires Valid() && 0 <= n < NumHooks && |captured| <= BacktraceSize
      requires depthCount + 1 <= 1 ==> heapProfiler != null
      modifies this`depthCount, heapProfiler
      ensures depthCount == old(depthCount)
      ensures p == returned
      ensures call == CallMalloc(originalMallocs[n], size, old(depthCount) + 1)
      ensures old(depthCount) + 1 <= 1 ==>
        heapProfiler.State() == Malloced(old(heapProfiler.State()), returned, size, Trace(NewStackTrace(), captured, hash))
      ensures old(depthCount) + 1 > 1 && heapProfiler != null ==> heapProfiler.State() == old(heapProfiler.State())
    {
      EnterSelfProfileGuard();
      p := returned;
      call := CallMalloc(originalMallocs[n], size, depthCount);
      if ShouldProfile() {
        var trace := Trace(NewStackTrace(), captured, hash);
        heapProfiler.Malloc(p, size, trace);
      }
      LeaveSelfProfileGuard();
    }

    /** `freeHook<n>(p)` as written: it captures a trace but records nothing,
        so the profiler is left alone (it is outside the frame). */
    method FreeHook(n: int, ptr: Ptr, captured: seq<Addr>, hash: StackHash) returns (call: OriginalCall)
      requires Valid() && 0 <= n < NumHooks && |captured| <= BacktraceSize
      modifies this`depthCount
      ensures depthCount == old(depthCount)
      ensures call == CallFree(originalFrees[n], ptr, old(depthCount) + 1)
    {
      EnterSelfProfileGuard();
      call := CallFree(originalFrees[n], ptr, depthCount);
      if ShouldProfile() {
        var t := Trace(NewStackTrace(), captured, hash);
      }
      LeaveSelfProfileGuard();
    }

    /** `freeHook<n>(p)` as evidently intended: the outermost free is handed
        to `heapProfiler->free`, as the outermost malloc is handed to
        `heapProfiler->malloc`. */
    method FreeHookRecording(n: int, ptr: Ptr, captured: seq<Addr>, hash: StackHash) returns (call: OriginalCall)
      requires Valid() && 0 <= n < NumHooks && |captured| <= BacktraceSize
      requires depthCount + 1 <= 1 ==> heapProfiler != null
      modifies this`depthCount, heapProfiler
      ensures depthCount == old(depthCount)
      ensures call == CallFree(originalFrees[n], ptr, old(depthCount) + 1)
      ensures old(depthCount) + 1 <= 1 ==> heapProfiler.State() == Freed(old(heapProfiler.State()), ptr)
      ensures old(depthCount) + 1 > 1 && heapProfiler != null ==> heapProfiler.State() == old(heapProfiler.State())
    {
      EnterSelfProfileGuard();
      call := CallFree(originalFrees[n], ptr, depthCount);
      if ShouldProfile() {
        var t := Trace(NewStackTrace(), captured, hash);
        heapProfiler.Free(ptr, t);
      }
      LeaveSelfProfileGuard();
    }

    /** `InitNHooks<numHooks>::initHook()`: the compile-time recursion runs its
        steps N = 1 .. numHooks in order, step N setting slot N-1 to instance
        N-1; `InitNHooks<0>` does nothing. */
    method InitHooks()
      requires Valid()
      modifies mallocHooks, freeHooks
      ensures forall i :: 0 <= i < NumHooks ==> mallocHooks[i] == Instance(i)
      ensures forall i :: 0 <= i < NumHooks ==> freeHooks[i] == Instance(i)
    {
      var n := 1;
      while n <= NumHooks
        invariant 1 <= n <= NumHooks + 1
        invariant forall i :: 0 <= i < n - 1 ==> mallocHooks[i] == Instance(i)
        invariant forall i :: 0 <= i < n - 1 ==> freeHooks[i] == Instance(i)
      {
        mallocHooks[n - 1] := Instance(n - 1);
        freeHooks[n - 1] := Instance(n - 1);
        n := n + 1;
      }
    }

    /** `enumSymbolsCallback`: a symbol named exactly "malloc" (or "free")
        takes the next malloc (free) slot, whatever MinHook answers; any other
        symbol changes nothing. There is no check against `numHooks`. */
    method EnumSymbolsCallback(moduleName: string, symbol: Symbol) returns (cont: bool)
      requires Valid()
      requires symbol.name == "malloc" ==> 0 <= nUsedMallocHooks < NumHooks
      requires symbol.name == "free" ==> 0 <= nUsedFreeHooks < NumHooks
      modifies this`nUsedMallocHooks, this`nUsedFreeHooks, this`hookRequests, this`depthCount
      modifies originalMallocs, originalFrees
      ensures cont
      ensures depthCount == old(depthCount)
      ensures nUsedMallocHooks == old(nUsedMallocHooks) + (if symbol.name == "malloc" then 1 else 0)
      ensures nUsedFreeHooks == old(nUsedFreeHooks) + (if symbol.name == "free" then 1 else 0)
      ensures hookRequests == old(hookRequests) +
        if symbol.name == "malloc" then
          [HookRequest(MallocFn, moduleName, symbol.address, old(nUsedMallocHooks), mallocHooks[old(nUsedMallocHooks)])]
        else if symbol.name == "free" then
          [HookRequest(FreeFn, moduleName, symbol.address, old(nUsedFreeHooks), freeHooks[old(nUsedFreeHooks)])]
        else []
      ensures originalMallocs[..] ==
        if symbol.name == "malloc" && symbol.create == MhOk
        then old(originalMallocs[..])[old(nUsedMallocHooks) := symbol.trampoline]
        else old(originalMallocs[..])
      ensures originalFrees[..] ==
        if symbol.name == "free" && symbol.create == MhOk
        then old(originalFrees[..])[old(nUsedFreeHooks) := symbol.trampoline]
        else old(originalFrees[..])
      ensures Tables() == HookOne(old(Tables()), Wrappers(), Target(moduleName, symbol))
    {
      EnterSelfProfileGuard();
      if symbol.name == "malloc" {
        hookRequests := hookRequests + [HookRequest(MallocFn, moduleName, symbol.address, nUsedMallocHooks, mallocHooks[nUsedMallocHooks])];
        if symbol.create == MhOk {
          originalMallocs[nUsedMallocHooks] := symbol.trampoline;
        }
        nUsedMallocHooks := nUsedMallocHooks + 1;
      }
      if symbol.name == "free" {
        hookRequests := hookRequests + [HookRequest(FreeFn, moduleName, symbol.address, nUsedFreeHooks, freeHooks[nUsedFreeHooks])];
        if symbol.create == MhOk {
          originalFrees[nUsedFreeHooks] := symbol.trampoline;
        }
        nUsedFreeHooks := nUsedFreeHooks + 1;
      }
      LeaveSelfProfileGuard();
      cont := true;
    }

    /** `SymEnumSymbols(process, base, mask, enumSymbolsCallback, moduleName)`:
        the debug-help library calls the callback on each reported symbol in
        turn. */
    method SymEnumSymbols(moduleName: string, reported: seq<Symbol>)
      requires Valid()
      requires Fits(Tables(), Wrappers(), Tagged(moduleName, reported))
      modifies this`nUsedMallocHooks, this`nUsedFreeHooks, this`hookRequests, this`depthCount
      modifies originalMallocs, originalFrees
      ensures depthCount == old(depthCount)
      ensures Tables() == HookAll(old(Tables()), Wrappers(), Tagged(moduleName, reported))
    {
      var i := 0;
      while i < |reported|
        invariant 0 <= i <= |reported|
        invariant depthCount == old(depthCount)
        invariant Fits(old(Tables()), Wrappers(), Tagged(moduleName, reported[..i]))
        invariant Tables() == HookAll(old(Tables()), Wrappers(), Tagged(moduleName, reported[..i]))
      {
        assert Tagged(moduleName, reported[..i + 1]) == Tagged(moduleName, reported)[..i + 1];
        FitsPrefix(old(Tables()), Wrappers(), Tagged(moduleName, reported), i + 1);
        TaggedStep(moduleName, reported, i);
        var _ := EnumSymbolsCallback(moduleName, reported[i]);
        i := i + 1;
      }
      assert reported[..i] == reported;
    }

    /** `enumModulesCallback`: "msvcrt" is skipped; any other module has its
        "malloc" symbols and then its "free" symbols hooked. */
    method EnumModulesCallback(m: Module) returns (cont: bool)
      requires Valid()
      requires m.name != "msvcrt" ==> Fits(Tables(), Wrappers(), ModuleTargets(m, {"msvcrt"}))
      modifies this`nUsedMallocHooks, this`nUsedFreeHooks, this`hookRequests, this`depthCount
      modifies originalMallocs, originalFrees
      ensures cont
      ensures depthCount == old(depthCount)
      ensures m.name == "msvcrt" ==> Tables() == old(Tables())
      ensures m.name != "msvcrt" ==>
        Tables() == HookAll(old(Tables()), Wrappers(), ModuleTargets(m, {"msvcrt"}))
    {
      if m.name == "msvcrt" {
        return true;
      }
      ghost var mallocs, frees := Tagged(m.name, Named(m.symbols, "malloc")), Tagged(m.name, Named(m.symbols, "free"));
      ghost var t0, w := Tables(), Wrappers();
      ModuleTargetsKept(m, {"msvcrt"});
      HookAllAppend(t0, w, mallocs, frees);
      SymEnumSymbols(m.name, Named(m.symbols, "malloc"));
      assert Tables() == HookAll(t0, w, mallocs);
      SymEnumSymbols(m.name, Named(m.symbols, "free"));
      return true;
    }

    /** `SymEnumerateModules(process, enumModulesCallback, NULL)`: the
        callback runs on each loaded module in turn. */
    method SymEnumerateModules(modules: seq<Module>)
      requires Valid()
      requires 0 <= nUsedMallocHooks && nUsedMallocHooks + CountInModules(modules, "malloc", {"msvcrt"}) <= NumHooks
      requires 0 <= nUsedFreeHooks && nUsedFreeHooks + CountInModules(modules, "free", {"msvcrt"}) <= NumHooks
      modifies this`nUsedMallocHooks, this`nUsedFreeHooks, this`hookRequests, this`depthCount
      modifies originalMallocs, originalFrees
      ensures depthCount == old(depthCount)
      ensures Fits(old(Tables()), Wrappers(), MaskedTargets(modules, {"msvcrt"}))
      ensures Tables() == HookAll(old(Tables()), Wrappers(), MaskedTargets(modules, {"msvcrt"}))
    {
      ghost var t0, w, all := Tables(), Wrappers(), MaskedTargets(modules, {"msvcrt"});
      MaskedTargetsCount(modules, {"msvcrt"}, "malloc");
      MaskedTargetsCount(modules, {"msvcrt"}, "free");
      FitsMaskedPrefix(t0, w, modules, 0, {"msvcrt"});
      var i := 0;
      while i < |modules|
        invariant 0 <= i <= |modules|
        invariant depthCount == old(depthCount)
        invariant Wrappers() == w
        invariant Fits(t0, w, MaskedTargets(modules[..i], {"msvcrt"}))
        invariant Tables() == HookAll(t0, w, MaskedTargets(modules[..i], {"msvcrt"}))
      {
        FitsMaskedPrefix(t0, w, modules, i + 1, {"msvcrt"});
        MaskedTargetsStep(modules, i, {"msvcrt"});
        HookAllAppend(t0, w, MaskedTargets(modules[..i], {"msvcrt"}), ModuleTargets(modules[i], {"msvcrt"}));
        var _ := EnumModulesCallback(modules[i]);
        i := i + 1;
      }
      assert modules[..i] == modules;
    }

    /** `NativeInjectionEntryPoint` up to `RhWakeUpProcess`: reset the
        counters, never profile this thread, fill the hook tables, create the
        profiler and hook every module's mallocs and frees. */
    method NativeInjectionEntryPoint(modules: seq<Module>)
      requires Valid()
      requires CountInModules(modules, "malloc", {"msvcrt"}) <= NumHooks
      requires CountInModules(modules, "free", {"msvcrt"}) <= NumHooks
      modifies this, mallocHooks, freeHooks, originalMallocs, originalFrees
      ensures nUsedMallocHooks == CountInModules(modules, "malloc", {"msvcrt"})
      ensures nUsedFreeHooks == CountInModules(modules, "free", {"msvcrt"})
      ensures depthCount == old(depthCount) + 1 && depthCount >= 1
      ensures heapProfiler != null && fresh(heapProfiler)
      ensures heapProfiler.Valid() && heapProfiler.stackTraces == map[] && heapProfiler.ptrs == map[]
      ensures forall i :: 0 <= i < NumHooks ==> mallocHooks[i] == Instance(i)
      ensures forall i :: 0 <= i < NumHooks ==> freeHooks[i] == Instance(i)
      ensures |old(hookRequests)| <= |hookRequests| && hookRequests[..|old(hookRequests)|] == old(hookRequests)
      ensures forall k :: |old(hookRequests)| <= k < |hookRequests| ==>
        0 <= hookRequests[k].slot < NumHooks && hookRequests[k].detour == Instance(hookRequests[k].slot)
      ensures Fits(HookTables(0, 0, old(originalMallocs[..]), old(originalFrees[..]), old(hookRequests)),
                   Wrappers(), MaskedTargets(modules, {"msvcrt"}))
      ensures Tables() == HookAll(HookTables(0, 0, old(originalMallocs[..]), old(originalFrees[..]), old(hookRequests)),
                                  Wrappers(), MaskedTargets(modules, {"msvcrt"}))
    {
      nUsedMallocHooks := 0;
      nUsedFreeHooks := 0;
      PreventEverProfilingThisThread();
      InitHooks();
      // MH_Initialize and SymInitialize set up foreign libraries only.
      heapProfiler := new HeapProfiler();
      SymEnumerateModules(modules);
      MaskedTargetsCount(modules, {"msvcrt"}, "malloc");
      MaskedTargetsCount(modules, {"msvcrt"}, "free");
      HookAllDetours(HookTables(0, 0, old(originalMallocs[..]), old(originalFrees[..]), old(hookRequests)), Wrappers(), MaskedTargets(modules, {"msvcrt"}));
    }

    /** `PrintTopAllocationReport(numToPrint)`: the sites sorted by size,
        largest first, and the first `min(size_t(numToPrint), #sites)` of
        them written out with their frames. */
    method PrintTopAllocationReport(numToPrint: int) returns (printed: seq<PrintedSite>)
      requires heapProfiler != null && heapProfiler.Valid()
      ensures |printed| == Min(SizeT(numToPrint), |heapProfiler.stackTraces|)
      ensures IsTopReport(heapProfiler.State(), SitesOf(printed))
      ensures forall i :: 0 <= i < |printed| ==> IsPrintSelection(printed[i].site.trace, printed[i].frames)
    {
      var allocsSortedBySize := heapProfiler.GetAllocationSiteReport();
      ghost var report := allocsSortedBySize;
      allocsSortedBySize := SortBySizeDescending(allocsSortedBySize);
      var limit := Min(SizeT(numToPrint), |allocsSortedBySize|);
      printed := PrintFirst(allocsSortedBySize, limit);
      SortedReportPrefixIsTop(heapProfiler.State(), report, allocsSortedBySize, limit);
    }

    /** `CatchExit::~CatchExit()`: at process exit, the top ten sites are
        written under a self-profile guard. */
    method CatchExit() returns (printed: seq<PrintedSite>)
      requires Valid() && heapProfiler != null && heapProfiler.Valid()
      modifies this`depthCount
      ensures depthCount == old(depthCount)
      ensures |printed| == Min(10, |heapProfiler.stackTraces|)
      ensures IsTopReport(heapProfiler.State(), SitesOf(printed))
      ensures forall i :: 0 <= i < |printed| ==> IsPrintSelection(printed[i].site.trace, printed[i].frames)
    {
      EnterSelfProfileGuard();
      printed := PrintTopAllocationReport(10);
      LeaveSelfProfileGuard();
    }
  }

  /** Two "malloc" symbols hooked one after the other, both accepted by
      MinHook: each is redirected to the wrapper of its own slot, and the
      wrapper installed for the second forwards to the trampoline stored for
      it. */
  method SecondMallocForwardsToItsOriginal()
    returns (firstDetour: Wrapper, secondDetour: Wrapper, stored: FnPtr, forwardedTo: FnPtr)
    ensures firstDetour == Instance(0)
    ensures secondDetour == Instance(1)
    ensures stored == 0x6000 && forwardedTo == stored
  {
    var inj := new Injector();
    inj.InitHooks();
    inj.heapProfiler := new HeapProfiler();
    var _ := inj.EnumSymbolsCallback("app", Symbol("malloc", 0x1000, MhOk, 0x5000));
    var _ := inj.EnumSymbolsCallback("app", Symbol("malloc", 0x2000, MhOk, 0x6000));
    firstDetour := inj.hookRequests[0].detour;
    secondDetour := inj.hookRequests[1].detour;
    stored := inj.originalMallocs[1];
    var _, call := inj.MallocHook(1, 16, 0, [], 0);
    forwardedTo := call.callee;
  }
}
