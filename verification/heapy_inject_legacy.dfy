/** An earlier version of the injected DLL, HeapyInject.cpp at the root of
    the repository, later than inject_dll.cpp and older than the current
    one: the same hook tables and callbacks as the current version,
    but no profiler (the wrappers only announce themselves), no module
    skipped, and a hook table filled one slot off. */
module HeapyInjectLegacy {
  import opened Hooks

  class Injector {
    var nUsedMallocHooks: int
    var nUsedFreeHooks: int
    const mallocHooks: array<Wrapper>
    const freeHooks: array<Wrapper>
    const originalMallocs: array<FnPtr>
    const originalFrees: array<FnPtr>
    /** `_depthCount` of the one thread modelled. */
    var depthCount: int
    /** The MH_CreateHook calls made so far. */
    var hookRequests: seq<HookRequest>

    ghost predicate Valid()
      reads this
    {
      && mallocHooks.Length == NumHooks && freeHooks.Length == NumHooks
      && originalMallocs.Length == NumHooks && originalFrees.Length == NumHooks
      && mallocHooks != freeHooks && originalMallocs != originalFrees
    }

    /** The hook bookkeeping the symbol callback updates, as a value. */
    ghost function Tables(): HookTables
      reads this, originalMallocs, originalFrees
    {
      HookTables(nUsedMallocHooks, nUsedFreeHooks, originalMallocs[..], originalFrees[..], hookRequests)
    }

    /** The wrapper tables the symbol callback reads, as a value. */
    ghost function Wrappers(): Detours
      reads this, mallocHooks, freeHooks
    {
      Detours(mallocHooks[..], freeHooks[..])
    }

    /** Request `r` passed the wrapper its table holds at its slot. */
    ghost predicate UsesTable(r: HookRequest)
      reads this, mallocHooks, freeHooks
    {
      && 0 <= r.slot < mallocHooks.Length && r.slot < freeHooks.Length
      && r.detour == (if r.fn == MallocFn then mallocHooks[r.slot] else freeHooks[r.slot])
    }

    /** The DLL's static initialisation: counters, depth and tables zero. */
    constructor ()
      ensures Valid()
      ensures fresh(mallocHooks) && fresh(freeHooks) && fresh(originalMallocs) && fresh(originalFrees)
      ensures nUsedMallocHooks == 0 && nUsedFreeHooks == 0 && depthCount == 0 && hookRequests == []
      ensures forall i :: 0 <= i < NumHooks ==>
        mallocHooks[i] == Unset && freeHooks[i] == Unset && originalMallocs[i] == 0 && originalFrees[i] == 0
    {
      nUsedMallocHooks, nUsedFreeHooks := 0, 0;
      mallocHooks := new Wrapper[NumHooks](_ => Unset);
      freeHooks := new Wrapper[NumHooks](_ => Unset);
      originalMallocs := new FnPtr[NumHooks](_ => 0);
      originalFrees := new FnPtr[NumHooks](_ => 0);
      depthCount := 0;
      hookRequests := [];
    }

    /** `mallocHook<n>(size)`: forwards to `originalMallocs[n]` inside a
        self-profile guard and announces the call (`reported`) only when it
        is the outermost hooked call of the thread. */
    method MallocHook(n: int, size: nat, returned: nat) returns (p: nat, call: OriginalCall, reported: bool)
      requires Valid() && 0 <= n < NumHooks
      modifies this`depthCount
      ensures depthCount == old(depthCount)
      ensures p == returned
      ensures call == CallMalloc(originalMallocs[n], size, old(depthCount) + 1)
      ensures reported <==> old(depthCount) < 1
    {
      depthCount := depthCount + 1;
      p := returned;
      call := CallMalloc(originalMallocs[n], size, depthCount);
      reported := depthCount <= 1;
      depthCount := depthCount - 1;
    }

    /** `freeHook<n>(p)`: as `MallocHook`, for `originalFrees[n]`. */
    method FreeHook(n: int, ptr: nat) returns (call: OriginalCall, reported: bool)
      requires Valid() && 0 <= n < NumHooks
      modifies this`depthCount
      ensures depthCount == old(depthCount)
      ensures call == CallFree(originalFrees[n], ptr, old(depthCount) + 1)
      ensures reported <==> old(depthCount) < 1
    {
      depthCount := depthCount + 1;
      call := CallFree(originalFrees[n], ptr, depthCount);
      reported := depthCount <= 1;
      depthCount := depthCount - 1;
    }

    /** `InitNHooks<numHooks-1>::initHook()` with the recursion stopped at
        `InitNHooks<1>`: steps N = 2 .. numHooks-1 run in order, step N
        setting slot N-1 to instance N. Slot i (1 <= i < numHooks-1) thus
        holds the wrapper that forwards to `originalMallocs[i+1]`, and slots
        0 and numHooks-1 are never written. */
    method InitHooks()
      requires Valid()
      modifies mallocHooks, freeHooks
      ensures forall i :: 1 <= i < NumHooks - 1 ==> mallocHooks[i] == Instance(i + 1)
      ensures forall i :: 1 <= i < NumHooks - 1 ==> freeHooks[i] == Instance(i + 1)
      ensures mallocHooks[0] == old(mallocHooks[0]) && mallocHooks[NumHooks - 1] == old(mallocHooks[NumHooks - 1])
      ensures freeHooks[0] == old(freeHooks[0]) && freeHooks[NumHooks - 1] == old(freeHooks[NumHooks - 1])
    {
      var n := 2;
      while n <= NumHooks - 1
        invariant 2 <= n <= NumHooks
        invariant forall i :: 1 <= i < n - 1 ==> mallocHooks[i] == Instance(i + 1)
        invariant forall i :: 1 <= i < n - 1 ==> freeHooks[i] == Instance(i + 1)
        invariant mallocHooks[0] == old(mallocHooks[0]) && mallocHooks[NumHooks - 1] == old(mallocHooks[NumHooks - 1])
        invariant freeHooks[0] == old(freeHooks[0]) && freeHooks[NumHooks - 1] == old(freeHooks[NumHooks - 1])
      {
        mallocHooks[n - 1] := Instance(n);
        freeHooks[n - 1] := Instance(n);
        n := n + 1;
      }
    }

    /** `enumSymbolsCallback`: a symbol named exactly "malloc" (or "free")
        takes the next malloc (free) slot, whatever MinHook answers; any other
        symbol changes nothing. */
    method EnumSymbolsCallback(moduleName: string, symbol: Symbol) returns (cont: bool)
      requires Valid()
      requires symbol.name == "malloc" ==> 0 <= nUsedMallocHooks < NumHooks
      requires symbol.name == "free" ==> 0 <= nUsedFreeHooks < NumHooks
      modifies this`nUsedMallocHooks, this`nUsedFreeHooks, this`hookRequests, this`depthCount
      modifies originalMallocs, originalFrees
      ensures cont
      ensures depthCount == old(depthCount)
      ensures nUsedMallocHooks == old(nUsedMallocHooks) + (if symbol.name == "malloc" then 1 else 0)
      ensures nUsedFreeHooks == old(nUsedFreeHooks) + (if symbol.name == "free" then 1 else 0)
      ensures hookRequests == old(hookRequests) +
        if symbol.name == "malloc" then
          [HookRequest(MallocFn, moduleName, symbol.address, old(nUsedMallocHooks), mallocHooks[old(nUsedMallocHooks)])]
        else if symbol.name == "free" then
          [HookRequest(FreeFn, moduleName, symbol.address, old(nUsedFreeHooks), freeHooks[old(nUsedFreeHooks)])]
        else []
      ensures originalMallocs[..] ==
        if symbol.name == "malloc" && symbol.create == MhOk
        then old(originalMallocs[..])[old(nUsedMallocHooks) := symbol.trampoline]
        else old(originalMallocs[..])
      ensures originalFrees[..] ==
        if symbol.name == "free" && symbol.create == MhOk
        then old(originalFrees[..])[old(nUsedFreeHooks) := symbol.trampoline]
        else old(originalFrees[..])
      ensures Tables() == HookOne(old(Tables()), Wrappers(), Target(moduleName, symbol))
    {
      depthCount := depthCount + 1;
      if symbol.name == "malloc" {
        hookRequests := hookRequests + [HookRequest(MallocFn, moduleName, symbol.address, nUsedMallocHooks, mallocHooks[nUsedMallocHooks])];
        if symbol.create == MhOk {
          originalMallocs[nUsedMallocHooks] := symbol.trampoline;
        }
        nUsedMallocHooks := nUsedMallocHooks + 1;
      }
      if symbol.name == "free" {
        hookRequests := hookRequests + [HookRequest(FreeFn, moduleName, symbol.address, nUsedFreeHooks, freeHooks[nUsedFreeHooks])];
        if symbol.create == MhOk {
          originalFrees[nUsedFreeHooks] := symbol.trampoline;
        }
        nUsedFreeHooks := nUsedFreeHooks + 1;
      }
      depthCount := depthCount - 1;
      cont := true;
    }

    /** `SymEnumSymbols(process, base, mask, enumSymbolsCallback, moduleName)`:
        the callback runs on each reported symbol in turn. */
    method SymEnumSymbols(moduleName: string, reported: seq<Symbol>)
      requires Valid()
      requires Fits(Tables(), Wrappers(), Tagged(moduleName, reported))
      modifies this`nUsedMallocHooks, this`nUsedFreeHooks, this`hookRequests, this`depthCount
      modifies originalMallocs, originalFrees
      ensures depthCount == old(depthCount)
      ensures Tables() == HookAll(old(Tables()), Wrappers(), Tagged(moduleName, reported))
    {
      var i := 0;
      while i < |reported|
        invariant 0 <= i <= |reported|
        invariant depthCount == old(depthCount)
        invariant Fits(old(Tables()), Wrappers(), Tagged(moduleName, reported[..i]))
        invariant Tables() == HookAll(old(Tables()), Wrappers(), Tagged(moduleName, reported[..i]))
      {
        assert Tagged(moduleName, reported[..i + 1]) == Tagged(moduleName, reported)[..i + 1];
        FitsPrefix(old(Tables()), Wrappers(), Tagged(moduleName, reported), i + 1);
        TaggedStep(moduleName, reported, i);
        var _ := EnumSymbolsCallback(moduleName, reported[i]);
        i := i + 1;
      }
      assert reported[..i] == reported;
    }

    /** `enumModulesCallback`: every module has its "malloc" symbols and then
        its "free" symbols hooked. */
    method EnumModulesCallback(m: Module) returns (cont: bool)
      requires Valid()
      requires Fits(Tables(), Wrappers(), ModuleTargets(m, {}))
      modifies this`nUsedMallocHooks, this`nUsedFreeHooks, this`hookRequests, this`depthCount
      modifies originalMallocs, originalFrees
      ensures cont
      ensures depthCount == old(depthCount)
      ensures Tables() == HookAll(old(Tables()), Wrappers(), ModuleTargets(m, {}))
    {
      ghost var mallocs, frees := Tagged(m.name, Named(m.symbols, "malloc")), Tagged(m.name, Named(m.symbols, "free"));
      ghost var t0, w := Tables(), Wrappers();
      ModuleTargetsKept(m, {});
      HookAllAppend(t0, w, mallocs, frees);
      SymEnumSymbols(m.name, Named(m.symbols, "malloc"));
      assert Tables() == HookAll(t0, w, mallocs);
      SymEnumSymbols(m.name, Named(m.symbols, "free"));
      return true;
    }

    /** `SymEnumerateModules(process, enumModulesCallback, NULL)`: the
        callback runs on each loaded module in turn. */
    method SymEnumerateModules(modules: seq<Module>)
      requires Valid()
      requires 0 <= nUsedMallocHooks && nUsedMallocHooks + CountInModules(modules, "malloc", {}) <= NumHooks
      requires 0 <= nUsedFreeHooks && nUsedFreeHooks + CountInModules(modules, "free", {}) <= NumHooks
      modifies this`nUsedMallocHooks, this`nUsedFreeHooks, this`hookRequests, this`depthCount
      modifies originalMallocs, originalFrees
      ensures depthCount == old(depthCount)
      ensures Fits(old(Tables()), Wrappers(), MaskedTargets(modules, {}))
      ensures Tables() == HookAll(old(Tables()), Wrappers(), MaskedTargets(modules, {}))
    {
      ghost var t0, w := Tables(), Wrappers();
      MaskedTargetsCount(modules, {}, "malloc");
      MaskedTargetsCount(modules, {}, "free");
      FitsMaskedPrefix(t0, w, modules, 0, {});
      var i := 0;
      while i < |modules|
        invariant 0 <= i <= |modules|
        invariant depthCount == old(depthCount)
        invariant Wrappers() == w
        invariant Fits(t0, w, MaskedTargets(modules[..i], {}))
        invariant Tables() == HookAll(t0, w, MaskedTargets(modules[..i], {}))
      {
        FitsMaskedPrefix(t0, w, modules, i + 1, {});
        MaskedTargetsStep(modules, i, {});
        HookAllAppend(t0, w, MaskedTargets(modules[..i], {}), ModuleTargets(modules[i], {}));
        var _ := EnumModulesCallback(modules[i]);
        i := i + 1;
      }
      assert modules[..i] == modules;
    }

    /** `NativeInjectionEntryPoint` up to `RhWakeUpProcess`: never profile
        this thread, fill the hook tables and hook every module's mallocs
        and frees. The counters are not reset. */
    method NativeInjectionEntryPoint(modules: seq<Module>)
      requires Valid()
      requires 0 <= nUsedMallocHooks && nUsedMallocHooks + CountInModules(modules, "malloc", {}) <= NumHooks
      requires 0 <= nUsedFreeHooks && nUsedFreeHooks + CountInModules(modules, "free", {}) <= NumHooks
      modifies this, mallocHooks, freeHooks, originalMallocs, originalFrees
      ensures nUsedMallocHooks == old(nUsedMallocHooks) + CountInModules(modules, "malloc", {})
      ensures nUsedFreeHooks == old(nUsedFreeHooks) + CountInModules(modules, "free", {})
      ensures depthCount == old(depthCount) + 1
      ensures forall i :: 1 <= i < NumHooks - 1 ==> mallocHooks[i] == Instance(i + 1)
      ensures forall i :: 1 <= i < NumHooks - 1 ==> freeHooks[i] == Instance(i + 1)
      ensures mallocHooks[0] == old(mallocHooks[0]) && mallocHooks[NumHooks - 1] == old(mallocHooks[NumHooks - 1])
      ensures freeHooks[0] == old(freeHooks[0]) && freeHooks[NumHooks - 1] == old(freeHooks[NumHooks - 1])
      ensures |old(hookRequests)| <= |hookRequests| && hookRequests[..|old(hookRequests)|] == old(hookRequests)
      ensures forall k :: |old(hookRequests)| <= k < |hookRequests| ==> UsesTable(hookRequests[k])
      ensures Fits(old(Tables()), Wrappers(), MaskedTargets(modules, {}))
      ensures Tables() == HookAll(old(Tables()), Wrappers(), MaskedTargets(modules, {}))
    {
      depthCount := depthCount + 1;
      InitHooks();
      SymEnumerateModules(modules);
      MaskedTargetsCount(modules, {}, "malloc");
      MaskedTargetsCount(modules, {}, "free");
      HookAllDetours(old(Tables()), Wrappers(), MaskedTargets(modules, {}));
    }
  }

  /** Two "malloc" symbols hooked one after the other, the first refused by
      MinHook and the second accepted: the first request names an empty
      slot, and the second the wrapper for instance 2, which forwards to
      `originalMallocs[2]` (still null) rather than to the trampoline stored
      at slot 1. */
  method SecondMallocForwardsToWrongOriginal()
    returns (firstDetour: Wrapper, secondDetour: Wrapper, stored: FnPtr, forwardedTo: FnPtr)
    ensures firstDetour == Unset
    ensures secondDetour == Instance(2)
    ensures stored == 0x6000 && forwardedTo == 0
  {
    var inj := new Injector();
    inj.InitHooks();
    var _ := inj.EnumSymbolsCallback("app", Symbol("malloc", 0x1000, MhError, 0x5000));
    var _ := inj.EnumSymbolsCallback("app", Symbol("malloc", 0x2000, MhOk, 0x6000));
    firstDetour := inj.hookRequests[0].detour;
    secondDetour := inj.hookRequests[1].detour;
    stored := inj.originalMallocs[1];
    var _, call, _ := inj.MallocHook(2, 16, 0);
    forwardedTo := call.callee;
  }
}
