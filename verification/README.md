# Heapy in Dafny

Heapy is a heap profiler for Windows. A launcher starts the target process
suspended and injects a DLL into it. The DLL hooks every exported `malloc` and
`free` outside the C runtime module "msvcrt", and files each live allocation under the call site that made it. Call
sites are identified by the hash of a captured stack trace. The DLL also
reports the call sites holding the most live bytes.

This project models the DLL's bookkeeping:

- `StackTraces` (`stack_trace.dfy`): the fixed-size captured backtrace and
  the frames `StackTrace::print` writes.
- `Profiler` (`heap_profiler.dfy`): the `HeapProfiler` class with its two
  maps. One maps a stack hash to a site. The other maps a live pointer to its
  site's hash. The model has `malloc`, `free` and the allocation-site report.
  `Malloced` and `Freed` are pure transition functions that specify the
  methods. The invariants `Consistent` and `OneSitePerPointer` are proved
  about those functions.
- `Hooks` (`hooks.dfy`): what the three versions of the injected DLL share.
  That is the size of the hook tables, what a table slot holds, and the
  modules and symbols the debug-help library reports.
- `HeapyInject` (`heapy_inject.dfy`): the current DLL,
  HeapyInject/HeapyInject.cpp. It covers:
  - the self-profiling depth guard;
  - the malloc and free wrappers;
  - the `InitNHooks` table fill;
  - the symbol and module callbacks;
  - the entry point;
  - the top-N report, including the sort it relies on.
- `HeapyInjectLegacy` (`heapy_inject_legacy.dfy`): an intermediate, earlier
  version, HeapyInject.cpp at the repository root, later than inject_dll.cpp
  and older than the current DLL. It has no profiler, fills its
  tables one slot off, and skips no module.
- `InjectDll` (`inject_dll.dfy`): the earliest version, inject_dll.cpp. Depth
  counting is inline, the free wrapper calls the original before raising the
  depth, and every symbol of a module goes to the callback.
- `TestApplication` (`test_application.dfy`): TestApplication/Main.cpp run
  under the current DLL's wrappers.

Each version of the DLL keeps its globals in its own `Injector` class:
- the two slot counters;
- the four fixed tables, as arrays of `NumHooks` entries;
- the depth counter of the one thread that is modelled;
- the log of `MH_CreateHook` requests made so far.

The foreign libraries are modelled by their inputs and outputs. A module and
its symbols are given as lists, in the order the debug-help library reports
them. What MinHook answers for a symbol is part of that symbol. The original
`malloc` or `free` is not run. A wrapper returns an `OriginalCall` record
instead. It says which table entry was called and what the thread's depth is
while the original runs.

The code hooks only `malloc` and `free`, does not check for running out of
slots, files null results like any other pointer, and keeps no running totals
per site; the model follows the code. Running out of slots becomes a
precondition, and totals are summed when the report is made.

The symbol callback is specified once, on values, in `Hooks`: `HookOne` is
one call of it on a `HookTables` value (the two counters, the two originals
tables and the request log), and `HookAll` is its run over a list of
`Target`s, each a symbol with the module it was reported for. Every
enumeration method of every version states its new state as `HookAll` of
its old state over exactly the targets the debug-help library offers it.

## Model

| member | source | states |
|---|---|---|
| StackTraces.NewStackTrace | HeapyInject/HeapProfiler.cpp:10-12 | a new trace has hash 0 and every one of its 256 frames null |
| StackTraces.Trace | HeapyInject/HeapProfiler.cpp:14-16 | the captured frames are written from slot 0 and the hash is stored; slots past the capture keep their old value |
| StackTraces.PrintedFrames | HeapyInject/HeapProfiler.cpp:27-51 | the frames printed are frames 1, 2, … in order: frame 0 never, none at or after the first null frame, and fewer than 256 |
| StackTraces.PrintSelectionIsUnique | HeapyInject/HeapProfiler.cpp:28-50 | the printed frames are determined by the trace alone |
| StackTraces.NewTracePrintsNothing | HeapyInject/HeapProfiler.cpp:10-12 | a default-constructed trace prints no frame |
| StackTraces.PrintsFramesAfterFirst | HeapyInject/HeapProfiler.cpp:14-29 | after capturing non-null frames into a new trace, print writes every captured frame except frame 0, the frame that made the capture |
| Profiler.Malloced | HeapyInject/HeapProfiler.cpp:54-67 | after malloc(p, s, t): ptrs[p] is t.hash and the site's allocations[p] is s; a site keeps the first trace stored under its hash; other allocations of the site, other sites and other pointers are unchanged; one site key is added at most |
| Profiler.Freed | HeapyInject/HeapProfiler.cpp:69-82 | free of an unknown pointer changes nothing; free of a live p removes p from ptrs and from its site; the site keys become exactly the old keys plus p's hash (`operator[]` creates the site if it was missing); nothing else changes |
| Profiler.MallocKeepsConsistent | HeapyInject/HeapProfiler.cpp:54-67 | malloc keeps every live pointer listed in the site it names, whatever pointer it is given |
| Profiler.MallocKeepsOneSitePerPointer | HeapyInject/HeapProfiler.cpp:54-67 | if the pointer is not live, malloc keeps every listed pointer live and naming the site that lists it |
| Profiler.RemallocLeavesStaleEntry | HeapyInject/HeapProfiler.cpp:58-66 | malloc of a live pointer under a new hash leaves it listed in its old site, so OneSitePerPointer breaks |
| Profiler.FreeKeepsConsistent | HeapyInject/HeapProfiler.cpp:69-82 | free keeps every live pointer listed in the site it names |
| Profiler.FreeKeepsOneSitePerPointer | HeapyInject/HeapProfiler.cpp:69-82 | free keeps every listed pointer live and naming its site |
| Profiler.TotalRemove | HeapyInject/HeapProfiler.cpp:91-93 | a site's byte total does not depend on the order its entries are added in |
| Profiler.TotalInsert | HeapyInject/HeapProfiler.cpp:91-93 | a new allocation adds exactly its size to its site's total |
| Profiler.HeapProfiler.constructor | HeapyInject/HeapyInject.cpp:195 | a new profiler has empty tables and satisfies both invariants |
| Profiler.HeapProfiler.Malloc | HeapyInject/HeapProfiler.cpp:54-67 | the new tables are Malloced of the old; Consistent is kept; OneSitePerPointer is kept when the pointer was not live |
| Profiler.HeapProfiler.Free | HeapyInject/HeapProfiler.cpp:69-82 | the new tables are Freed of the old, and both invariants are kept |
| Profiler.HeapProfiler.SumOfAllocations | HeapyInject/HeapProfiler.cpp:91-93 | the loop's sum equals the total of the site's live allocation sizes |
| Profiler.HeapProfiler.GetAllocationSiteReport | HeapyInject/HeapProfiler.cpp:84-97 | one entry per site and no site twice; each entry is the site's stored trace with the sum of its live sizes, which is 0 for a site with none |
| Hooks.Named | HeapyInject/HeapyInject.cpp:141-142 | the symbols a mask enumeration reports all carry the mask's name |
| Hooks.HookAll | HeapyInject/HeapyInject.cpp:97-133 | the symbol callback run over a list of targets: each counter rises by the number of targets of its name, one request per such target is appended, and the earlier requests are kept |
| Hooks.HookAllRequests | HeapyInject/HeapyInject.cpp:103-126 | the j-th new request for a table is for the j-th target of that name, with its module and address, in slot (old counter + j), redirected to the wrapper that slot holds |
| Hooks.HookAllOriginals | HeapyInject/HeapyInject.cpp:103-126 | slot (old counter + j) of an originals table receives the j-th target's trampoline when MinHook creates its hook and keeps its old value when it refuses; every other slot is unchanged |
| Hooks.HookAllDetours | HeapyInject/HeapyInject.cpp:106-120 | every new request names a slot inside its table and redirects to the wrapper that slot holds |
| Hooks.HookAllAppend | HeapyInject/HeapyInject.cpp:141-142 | running the callback over a + b is running it over a and then over b |
| Hooks.HookedTagged | HeapyInject/HeapyInject.cpp:141-142 | the targets of one name among a module's symbols are that module's symbols of that name, as many as the count of the name |
| Hooks.ModuleTargetsCount | HeapyInject/HeapyInject.cpp:136-144 | a skipped module offers no target; any other offers as many targets to the malloc (free) table as it has symbols named "malloc" ("free") |
| Hooks.MaskedTargetsCount | HeapyInject/HeapyInject.cpp:136-144 | over a list of modules, each table is offered exactly as many targets as there are symbols of its name outside the skipped modules |
| Hooks.AllTargetsCount | inject_dll.cpp:89-94 | when every symbol of every module is offered, each table is offered exactly as many targets as there are symbols of its name |
| Hooks.NamedKeepsCount | HeapyInject/HeapyInject.cpp:141-142 | enumerating with mask "malloc" reports every symbol named "malloc" |
| Hooks.NamedDropsOthers | HeapyInject/HeapyInject.cpp:141-142 | enumerating with one mask reports no symbol of another name |
| HeapyInject.SizeT | HeapyInject/HeapyInject.cpp:157 | size_t(numToPrint) is numToPrint when it is in range, and 2^64 + numToPrint when it is negative |
| HeapyInject.InsertBySize | HeapyInject/HeapyInject.cpp:151-154 | inserting into a list sorted by size, largest first, gives a sorted permutation with one more entry |
| HeapyInject.SortBySizeDescending | HeapyInject/HeapyInject.cpp:151-154 | the sort's result is a permutation of the report, ordered by size, largest first |
| HeapyInject.PermutationKeepsDistinct | HeapyInject/HeapyInject.cpp:151-154 | sorting cannot make two entries name the same site |
| HeapyInject.UnlistedIsNoLarger | HeapyInject/HeapyInject.cpp:151-160 | a site left out of the first n sorted entries has no more live bytes than any site among them |
| HeapyInject.SortedReportPrefixIsTop | HeapyInject/HeapyInject.cpp:151-160 | each of the first n sorted entries is a site with its total, no site appears twice, sizes do not increase, and no site left out is larger |
| HeapyInject.PrintFirst | HeapyInject/HeapyInject.cpp:157-160 | the first limit sites are written in order, each with exactly the frames print selects for its trace |
| HeapyInject.Injector.constructor | HeapyInject/HeapyInject.cpp:21-31 | zero-initialised statics: counters and depth 0, empty tables, no profiler |
| HeapyInject.Injector.EnterSelfProfileGuard | HeapyInject/HeapyInject.cpp:34-36 | a guard raises the thread's depth by one |
| HeapyInject.Injector.LeaveSelfProfileGuard | HeapyInject/HeapyInject.cpp:37-39 | leaving a guard lowers the depth by one |
| HeapyInject.Injector.PreventEverProfilingThisThread | HeapyInject/HeapyInject.cpp:49-51 | the depth is raised by one with no matching decrement, so it stays at least 1 |
| HeapyInject.Injector.NothingRecordedAfterPrevent | HeapyInject/HeapyInject.cpp:49-78 | after PreventEverProfilingThisThread, a hooked malloc and a recording free on the thread leave the profiler's tables exactly as they were |
| HeapyInject.Injector.MallocHook | HeapyInject/HeapyInject.cpp:54-66 | returns the original's pointer, null included; calls originalMallocs[n] at the raised depth; records with heapProfiler->malloc exactly when the raised depth is ≤ 1, and otherwise leaves the profiler unchanged; restores the depth |
| HeapyInject.Injector.FreeHook | HeapyInject/HeapyInject.cpp:69-78 | calls originalFrees[n] at the raised depth and restores the depth; the profiler is outside its frame, so frees never reach it |
| HeapyInject.Injector.FreeHookRecording | HeapyInject/HeapyInject.cpp:69-78 | the corrected wrapper: the outermost free updates the profiler to Freed of its old tables, and a nested free leaves it alone |
| HeapyInject.Injector.InitHooks | HeapyInject/HeapyInject.cpp:81-94 | after InitNHooks<128>, slot i of both tables holds instance i for every i in 0..127 |
| HeapyInject.Injector.EnumSymbolsCallback | HeapyInject/HeapyInject.cpp:97-133 | "malloc" gets slot nUsedMallocHooks and the counter rises by exactly 1 whatever MinHook answers; the trampoline goes into the same slot of originalMallocs only when the hook is created; "free" likewise; any other name changes nothing; depth restored; the new state is HookOne of the old |
| HeapyInject.Injector.SymEnumSymbols | HeapyInject/HeapyInject.cpp:141-142 | counters, originals tables and request log become HookAll of their old values over the reported symbols of the module, in order; depth restored |
| HeapyInject.Injector.EnumModulesCallback | HeapyInject/HeapyInject.cpp:136-144 | "msvcrt" leaves counters, originals and requests unchanged; any other module's state becomes HookAll over its "malloc" symbols and then its "free" symbols |
| HeapyInject.Injector.SymEnumerateModules | HeapyInject/HeapyInject.cpp:198 | the state becomes HookAll over the targets of every loaded module except "msvcrt", module by module |
| HeapyInject.Injector.NativeInjectionEntryPoint | HeapyInject/HeapyInject.cpp:175-198 | from counters reset to 0, the state becomes HookAll over the targets outside "msvcrt", so each counter equals the matching symbols outside "msvcrt"; the depth is one higher and at least 1; a fresh, empty profiler exists; each new request redirects to the wrapper of its own slot |
| HeapyInject.Injector.PrintTopAllocationReport | HeapyInject/HeapyInject.cpp:146-161 | writes min(size_t(numToPrint), #sites) entries; they are a top report of the profiler, largest first; each comes with the frames print selects |
| HeapyInject.Injector.CatchExit | HeapyInject/HeapyInject.cpp:164-170 | at exit the top ten sites are written inside a guard, and the depth is restored |
| HeapyInject.SecondMallocForwardsToItsOriginal | HeapyInject/HeapyInject.cpp:81-94 | two mallocs hooked in turn get the wrappers for slots 0 and 1; the second forwards to the trampoline stored for it |
| HeapyInjectLegacy.Injector.constructor | HeapyInject.cpp:15-24 | zero-initialised statics: counters and depth 0, empty tables |
| HeapyInjectLegacy.Injector.MallocHook | HeapyInject.cpp:47-57 | returns the original's pointer; calls originalMallocs[n] at the raised depth; reports only for the outermost call; restores the depth |
| HeapyInjectLegacy.Injector.FreeHook | HeapyInject.cpp:60-68 | calls originalFrees[n] at the raised depth, reports only for the outermost call, and restores the depth |
| HeapyInjectLegacy.Injector.InitHooks | HeapyInject.cpp:71-85 | InitNHooks<127> stopped at <1> puts instance i+1 in slot i for 1 ≤ i ≤ 126, and never writes slots 0 and 127 |
| HeapyInjectLegacy.Injector.EnumSymbolsCallback | HeapyInject.cpp:88-124 | as in the current version: the named slot is used, the counter rises by 1 whatever MinHook answers, the trampoline is stored in the same slot, and the new state is HookOne of the old |
| HeapyInjectLegacy.Injector.SymEnumSymbols | HeapyInject.cpp:129-130 | the state becomes HookAll of the old over the reported symbols, in order |
| HeapyInjectLegacy.Injector.EnumModulesCallback | HeapyInject.cpp:127-132 | with no module skipped, the state becomes HookAll over the module's "malloc" symbols and then its "free" symbols |
| HeapyInjectLegacy.Injector.SymEnumerateModules | HeapyInject.cpp:152 | the state becomes HookAll over the targets of all modules, module by module |
| HeapyInjectLegacy.Injector.NativeInjectionEntryPoint | HeapyInject.cpp:136-152 | the counters are not reset: the state becomes HookAll of the old over the targets of all modules, so each counter rises by all matching symbols; the depth is one higher; the tables are filled one slot off, with slots 0 and 127 unchanged; each new request redirects to the wrapper its slot holds |
| HeapyInjectLegacy.SecondMallocForwardsToWrongOriginal | HeapyInject.cpp:71-85 | two mallocs hooked in turn, the first refused by MinHook and the second accepted: the first request names the never-written slot 0; the second names instance 2, which forwards to originalMallocs[2] (null), not to the trampoline stored in slot 1 |
| InjectDll.Injector.constructor | inject_dll.cpp:16-25 | zero-initialised statics: counters and depth 0, empty tables |
| InjectDll.Injector.MallocHook | inject_dll.cpp:26-37 | returns the original's pointer; calls the original at the raised depth; reports iff the raised depth is below 2; restores the depth |
| InjectDll.Injector.FreeHook | inject_dll.cpp:39-49 | calls the original at the caller's unraised depth; reports iff the raised depth is below 2; restores the depth |
| InjectDll.Injector.InitHooks | inject_dll.cpp:97-112 | InitNHooks<127> stopped at <-1> puts instance i in slot i for every i in 0..127 |
| InjectDll.Injector.EnumSymbols | inject_dll.cpp:51-85 | the depth is raised for the call and restored; "malloc" and "free" each take their next slot and bump only their own counter by 1, whatever MinHook answers; the new state is HookOne of the old |
| InjectDll.Injector.EnumModules | inject_dll.cpp:89-94 | every symbol of the module goes to the callback in order: the state becomes HookAll of the old over all of the module's symbols |
| InjectDll.Injector.SymEnumerateModules | inject_dll.cpp:131 | the state becomes HookAll over every symbol of every module, module by module |
| InjectDll.Injector.NativeInjectionEntryPoint | inject_dll.cpp:115-131 | the counters are not reset: the state becomes HookAll of the old over every symbol of every module; the thread's depth is set to 2, at which MallocHook and FreeHook never report; the tables hold instance i in slot i; each new request redirects to its own slot's wrapper |
| TestApplication.InjectedMainThread | HeapyInject/HeapyInject.cpp:195 | the application's main thread after injection: depth 0 and an empty profiler |
| TestApplication.LeakFiveTimes | TestApplication/Main.cpp:4-20 | five 5 MiB mallocs from one site leave one site, holding five live pointers and 25 MiB |
| TestApplication.AllocateOnce | TestApplication/Main.cpp:8-9 | the 1 MiB malloc adds a second site holding just that block, and the leaking site is untouched |
| TestApplication.FreeOnceRecorded | TestApplication/Main.cpp:12 | the recorded free empties the second site, which stays in the table |
| TestApplication.TwoSiteReport | HeapyInject/HeapProfiler.cpp:84-97 | a report of two sites has exactly two entries, each carrying its own site's total |
| TestApplication.RunWithFreeHook | TestApplication/Main.cpp:15-24 | with the free wrapper as written, the report shows 25 MiB for the leaking site and still 1 MiB for the freed one |
| TestApplication.RunWithRecordingFreeHook | TestApplication/Main.cpp:15-24 | with frees recorded, the report shows 25 MiB for the leaking site and 0 for the other |

## Left out

- Heapy/Heapy.cpp, the launcher, is not part of this model. It creates the process, writes the DLL path into it and starts the remote thread, all through OS calls.
- MinHook, EasyHook and the debug-help library are foreign code, so their results are inputs:
  - symbols and modules are given as lists;
  - the `MH_CreateHook` status and trampoline belong to each symbol;
  - the captured frames and hash are parameters.
- `MH_Initialize`, `SymInitialize` and `RhWakeUpProcess` are left out because they only set up foreign libraries. The `MH_EnableHook` status is also left out, since the source only prints it.
- Mutexes and thread-local storage are left out: the model is one thread making sequential calls.
- Other threads' depth counters are left out, and so are hooked calls that the original `malloc` or `free` makes. Only the depth those calls would see is recorded, in `OriginalCall`.
- `printf` and `ostream` output is left out: the message texts, symbol and line lookup in `StackTrace::print`, and hex formatting. Only the choice of frames is modelled, and the legacy and inject_dll wrappers' `printf` becomes a `reported` result.
- The endless report and `Sleep` loops after `RhWakeUpProcess` are left out, in all three versions. They never return.
- `realloc` and `calloc` are left out: no version hooks them.
- Hooks.Named: dbghelp's mask is a wildcard pattern that is matched case-insensitively. The model matches names exactly, which agrees with the `strcmp` in the callbacks for the masks "malloc" and "free".
- HeapyInject.Injector.EnumSymbolsCallback: requires a free slot. The source does not check `numHooks` and would write past the tables. The same holds for HeapyInjectLegacy.Injector.EnumSymbolsCallback and InjectDll.Injector.EnumSymbols, and for the enumeration and entry-point methods built on them.
- HeapyInject.Injector.EnumSymbolsCallback: assumes MinHook writes the trampoline only when `MH_CreateHook` succeeds. The same assumption is made in the other two versions.
- HeapyInject.Injector.MallocHook: requires the profiler to exist before an outermost call. The source installs the hooks only after creating it. The same holds for HeapyInject.Injector.FreeHookRecording.
- HeapyInject.Injector.CatchExit: requires the profiler to exist. The source would dereference a null pointer if the DLL exited without having been injected.
- Profiler.HeapProfiler.SumOfAllocations: does not model 64-bit wrap-around of `sumOfAlloced`. The total is unbounded.
- HeapyInject.SizeT: assumes a 64-bit `size_t`.
- HeapyInject.Injector.PrintTopAllocationReport:
  - its `int` loop index is unbounded in the model;
  - `std::sort` is not stable, so the order of sites with equal sizes is not promised; the model's contracts only state sorted order and permutation.
- HeapyInject/HeapProfiler.h is out of date with HeapProfiler.cpp. Only `backtraceSize` (HeapyInject/HeapProfiler.h:3) is taken from it.

## Findings

| source | as written | input that shows it | evidently intended | confidence | as-written member | corrected member |
|---|---|---|---|---|---|---|
| HeapyInject.cpp:71-85 | `InitNHooks<numHooks-1>` stops at `<1>` and stores `mallocHook<N>` in slot N-1. `enumSymbolsCallback` gives a symbol slot k and stores its trampoline in `originalMallocs[k]`. | Two "malloc" symbols, the first refused by MinHook and the second accepted. The first request names slot 0, which was never written. The second is redirected to `mallocHook<2>`, which calls `originalMallocs[2]` (still null) instead of the trampoline in slot 1. | Slot i holds the wrapper that forwards to `originalMallocs[i]`, for every i, as HeapyInject/HeapyInject.cpp:81-94 does. | high; not executed | HeapyInjectLegacy.SecondMallocForwardsToWrongOriginal | HeapyInject.SecondMallocForwardsToItsOriginal |
| HeapyInject/HeapyInject.cpp:69-78 | `freeHook` captures a stack trace but never calls `heapProfiler->free`, so frees are never recorded. | TestApplication: five 5 MiB leaks, then 1 MiB allocated and freed. The report still charges 1 MiB to the freed site. | The outermost free is passed to `heapProfiler->free`, as the outermost malloc is passed to `heapProfiler->malloc`. | medium; not executed | TestApplication.RunWithFreeHook | TestApplication.RunWithRecordingFreeHook |
