/** The earliest injected DLL, inject_dll.cpp: depth counting written inline
    instead of a guard object, a free wrapper that calls the original before
    raising the depth, and every symbol of every module offered to the
    symbol callback. */
module InjectDll {
  import opened Hooks

  class Injector {
    var nUsedMallocHooks: int
    var nUsedFreeHooks: int
    const mallocHooks: array<Wrapper>
    const freeHooks: array<Wrapper>
    const originalMallocs: array<FnPtr>
    const originalFrees: array<FnPtr>
    /** `depthCount` of the one thread modelled. */
    var depthCount: int
    /** The MH_CreateHook calls made so far. */
    var hookRequests: seq<HookRequest>

    ghost predicate Valid()
      reads this
    {
      && mallocHooks.Length == NumHooks && freeHooks.Length == NumHooks
      && originalMallocs.Length == NumHooks && originalFrees.Length == NumHooks
      && mallocHooks != freeHooks && originalMallocs != originalFrees
    }

    /** The hook bookkeeping the symbol callback updates, as a value. */
    ghost function Tables(): HookTables
      reads this, originalMallocs, originalFrees
    {
      HookTables(nUsedMallocHooks, nUsedFreeHooks, originalMallocs[..], originalFrees[..], hookRequests)
    }

    /** The wrapper tables the symbol callback reads, as a value. */
    ghost function Wrappers(): Detours
      reads this, mallocHooks, freeHooks
    {
      Detours(mallocHooks[..], freeHooks[..])
    }

    /** The DLL's static initialisation: counters, depth and tables zero. */
    constructor ()
      ensures Valid()
      ensures fresh(mallocHooks) && fresh(freeHooks) && fresh(originalMallocs) && fresh(originalFrees)
      ensures nUsedMallocHooks == 0 && nUsedFreeHooks == 0 && depthCount == 0 && hookRequests == []
      ensures forall i :: 0 <= i < NumHooks ==>
        mallocHooks[i] == Unset && freeHooks[i] == Unset && originalMallocs[i] == 0 && originalFrees[i] == 0
    {
      nUsedMallocHooks, nUsedFreeHooks := 0, 0;
      mallocHooks := new Wrapper[NumHooks](_ => Unset);
      freeHooks := new Wrapper[NumHooks](_ => Unset);
      originalMallocs := new FnPtr[NumHooks](_ => 0);
      originalFrees := new FnPtr[NumHooks](_ => 0);
      depthCount := 0;
      hookRequests := [];
    }

    /** `mallocHook<n>(size)`: raises the depth, forwards to
        `originalMallocs[n]`, announces the call (`reported`) when the
        raised depth is below 2, and lowers the depth again. */
    method MallocHook(n: int, size: nat, returned: nat) returns (p: nat, call: OriginalCall, reported: bool)
      requires Valid() && 0 <= n < NumHooks
      modifies this`depthCount
      ensures depthCount == old(depthCount)
      ensures p == returned
      ensures call == CallMalloc(originalMallocs[n], size, old(depthCount) + 1)
      ensures reported <==> old(depthCount) + 1 < 2
    {
      depthCount := depthCount + 1;
      p := returned;
      call := CallMalloc(originalMallocs[n], size, depthCount);
      reported := depthCount < 2;
      depthCount := depthCount - 1;
    }

    /** `freeHook<n>(p)`: forwards to `originalFrees[n]` BEFORE raising the
        depth, so hooked calls made inside the original free see the
        caller's depth, not a raised one. */
    method FreeHook(n: int, ptr: nat) returns (call: OriginalCall, reported: bool)
      requires Valid() && 0 <= n < NumHooks
      modifies this`depthCount
      ensures depthCount == old(depthCount)
      ensures call == CallFree(originalFrees[n], ptr, old(depthCount))
      ensures reported <==> old(depthCount) + 1 < 2
    {
      call := CallFree(originalFrees[n], ptr, depthCount);
      depthCount := depthCount + 1;
      reported := depthCount < 2;
      depthCount := depthCount - 1;
    }

    /** `InitNHooks<numHooks-1>::initHook()` with the recursion stopped at
        `InitNHooks<-1>`: steps N = 0 .. numHooks-1 run in order, step N
        setting slot N to instance N. */
    method InitHooks()
      requires Valid()
      modifies mallocHooks, freeHooks
      ensures forall i :: 0 <= i < NumHooks ==> mallocHooks[i] == Instance(i)
      ensures forall i :: 0 <= i < NumHooks ==> freeHooks[i] == Instance(i)
    {
      var n := 0;
      while n <= NumHooks - 1
        invariant 0 <= n <= NumHooks
        invariant forall i :: 0 <= i < n ==> mallocHooks[i] == Instance(i)
        invariant forall i :: 0 <= i < n ==> freeHooks[i] == Instance(i)
      {
        mallocHooks[n] := Instance(n);
        freeHooks[n] := Instance(n);
        n := n + 1;
      }
    }

    /** `enumSymbols`: with the depth raised, a symbol named exactly
        "malloc" (or "free") takes the next malloc (free) slot, whatever
        MinHook answers; any other symbol changes nothing. */
    method EnumSymbols(moduleName: string, symbol: Symbol) returns (cont: bool)
      requires Valid()
      requires symbol.name == "malloc" ==> 0 <= nUsedMallocHooks < NumHooks
      requires symbol.name == "free" ==> 0 <= nUsedFreeHooks < NumHooks
      modifies this`nUsedMallocHooks, this`nUsedFreeHooks, this`hookRequests, this`depthCount
      modifies originalMallocs, originalFrees
      ensures cont
      ensures depthCount == old(depthCount)
      ensures nUsedMallocHooks == old(nUsedMallocHooks) + (if symbol.name == "malloc" then 1 else 0)
      ensures nUsedFreeHooks == old(nUsedFreeHooks) + (if symbol.name == "free" then 1 else 0)
      ensures hookRequests == old(hookRequests) +
        if symbol.name == "malloc" then
          [HookRequest(MallocFn, moduleName, symbol.address, old(nUsedMallocHooks), mallocHooks[old(nUsedMallocHooks)])]
        else if symbol.name == "free" then
          [HookRequest(FreeFn, moduleName, symbol.address, old(nUsedFreeHooks), freeHooks[old(nUsedFreeHooks)])]
        else []
      ensures originalMallocs[..] ==
        if symbol.name == "malloc" && symbol.create == MhOk
        then old(originalMallocs[..])[old(nUsedMallocHooks) := symbol.trampoline]
        else old(originalMallocs[..])
      ensures originalFrees[..] ==
        if symbol.name == "free" && symbol.create == MhOk
        then old(originalFrees[..])[old(nUsedFreeHooks) := symbol.trampoline]
        else old(originalFrees[..])
      ensures Tables() == HookOne(old(Tables()), Wrappers(), Target(moduleName, symbol))
    {
      depthCount := depthCount + 1;
      if symbol.name == "malloc" {
        hookRequests := hookRequests + [HookRequest(MallocFn, moduleName, symbol.address, nUsedMallocHooks, mallocHooks[nUsedMallocHooks])];
        if symbol.create == MhOk {
          originalMallocs[nUsedMallocHooks] := symbol.trampoline;
        }
        nUsedMallocHooks := nUsedMallocHooks + 1;
      }
      if symbol.name == "free" {
        hookRequests := hookRequests + [HookRequest(FreeFn, moduleName, symbol.address, nUsedFreeHooks, freeHooks[nUsedFreeHooks])];
        if symbol.create == MhOk {
          originalFrees[nUsedFreeHooks] := symbol.trampoline;
        }
        nUsedFreeHooks := nUsedFreeHooks + 1;
      }
      depthCount := depthCount - 1;
      cont := true;
    }

    /** `enumModules`: `SymEnumerateSymbols` offers every symbol of the
        module to `enumSymbols`, in order. */
    method EnumModules(m: Module) returns (cont: bool)
      requires Valid()
      requires Fits(Tables(), Wrappers(), Tagged(m.name, m.symbols))
      modifies this`nUsedMallocHooks, this`nUsedFreeHooks, this`hookRequests, this`depthCount
      modifies originalMallocs, originalFrees
      ensures cont
      ensures depthCount == old(depthCount)
      ensures Tables() == HookAll(old(Tables()), Wrappers(), Tagged(m.name, m.symbols))
    {
      var i := 0;
      while i < |m.symbols|
        invariant 0 <= i <= |m.symbols|
        invariant depthCount == old(depthCount)
        invariant Fits(old(Tables()), Wrappers(), Tagged(m.name, m.symbols[..i]))
        invariant Tables() == HookAll(old(Tables()), Wrappers(), Tagged(m.name, m.symbols[..i]))
      {
        assert Tagged(m.name, m.symbols[..i + 1]) == Tagged(m.name, m.symbols)[..i + 1];
        FitsPrefix(old(Tables()), Wrappers(), Tagged(m.name, m.symbols), i + 1);
        TaggedStep(m.name, m.symbols, i);
        var _ := EnumSymbols(m.name, m.symbols[i]);
        i := i + 1;
      }
      assert m.symbols[..i] == m.symbols;
      return true;
    }

    /** `SymEnumerateModules(process, enumModules, NULL)`: the callback runs
        on each loaded module in turn. */
    method SymEnumerateModules(modules: seq<Module>)
      requires Valid()
      requires 0 <= nUsedMallocHooks && nUsedMallocHooks + CountInModules(modules, "malloc", {}) <= NumHooks
      requires 0 <= nUsedFreeHooks && nUsedFreeHooks + CountInModules(modules, "free", {}) <= NumHooks
      modifies this`nUsedMallocHooks, this`nUsedFreeHooks, this`hookRequests, this`depthCount
      modifies originalMallocs, originalFrees
      ensures depthCount == old(depthCount)
      ensures Fits(old(Tables()), Wrappers(), AllTargets(modules))
      ensures Tables() == HookAll(old(Tables()), Wrappers(), AllTargets(modules))
    {
      ghost var t0, w := Tables(), Wrappers();
      AllTargetsCount(modules, "malloc");
      AllTargetsCount(modules, "free");
      FitsAllPrefix(t0, w, modules, 0);
      var i := 0;
      while i < |modules|
        invariant 0 <= i <= |modules|
        invariant depthCount == old(depthCount)
        invariant Wrappers() == w
        invariant Fits(t0, w, AllTargets(modules[..i]))
        invariant Tables() == HookAll(t0, w, AllTargets(modules[..i]))
      {
        FitsAllPrefix(t0, w, modules, i + 1);
        AllTargetsStep(modules, i);
        HookAllAppend(t0, w, AllTargets(modules[..i]), Tagged(modules[i].name, modules[i].symbols));
        var _ := EnumModules(modules[i]);
        i := i + 1;
      }
      assert modules[..i] == modules;
    }

    /** `NativeInjectionEntryPoint` up to `RhWakeUpProcess`: pin this
        thread's depth at 2, fill the hook tables and hook every module's
        mallocs and frees. The counters are not reset. */
    method NativeInjectionEntryPoint(modules: seq<Module>)
      requires Valid()
      requires 0 <= nUsedMallocHooks && nUsedMallocHooks + CountInModules(modules, "malloc", {}) <= NumHooks
      requires 0 <= nUsedFreeHooks && nUsedFreeHooks + CountInModules(modules, "free", {}) <= NumHooks
      modifies this, mallocHooks, freeHooks, originalMallocs, originalFrees
      ensures nUsedMallocHooks == old(nUsedMallocHooks) + CountInModules(modules, "malloc", {})
      ensures nUsedFreeHooks == old(nUsedFreeHooks) + CountInModules(modules, "free", {})
      ensures depthCount == 2
      ensures forall i :: 0 <= i < NumHooks ==> mallocHooks[i] == Instance(i)
      ensures forall i :: 0 <= i < NumHooks ==> freeHooks[i] == Instance(i)
      ensures |old(hookRequests)| <= |hookRequests| && hookRequests[..|old(hookRequests)|] == old(hookRequests)
      ensures forall k :: |old(hookRequests)| <= k < |hookRequests| ==>
        0 <= hookRequests[k].slot < NumHooks && hookRequests[k].detour == Instance(hookRequests[k].slot)
      ensures Fits(old(Tables()), Wrappers(), AllTargets(modules))
      ensures Tables() == HookAll(old(Tables()), Wrappers(), AllTargets(modules))
    {
      depthCount := 2;
      InitHooks();
      SymEnumerateModules(modules);
      AllTargetsCount(modules, "malloc");
      AllTargetsCount(modules, "free");
      HookAllDetours(old(Tables()), Wrappers(), AllTargets(modules));
    }
  }
}
