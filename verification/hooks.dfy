/** What the three versions of the injected DLL share: the size of the hook
    tables, what a table slot holds, and the symbols and modules the debug-help
    library reports to the DLL's callbacks. */
module Hooks {

  /** Number of slots in each hook table (`numHooks`). */
  const NumHooks: nat := 128

  /** A code address; 0 is null. */
  type FnPtr = nat

  /** What a slot of `mallocHooks` / `freeHooks` holds: nothing yet (the
      tables are zero-initialised statics), or the address of the template
      instance `mallocHook<n>` / `freeHook<n>`, which forwards to
      `originalMallocs[n]` / `originalFrees[n]`. */
  datatype Wrapper = Unset | Instance(n: int)

  /** A MinHook status code, reduced to success or failure. */
  datatype MhStatus = MhOk | MhError

  /** An exported symbol as the debug-help library reports it, with what
      MinHook answers when the DLL hooks it: the status of MH_CreateHook and
      the trampoline it hands back on success. */
  datatype Symbol = Symbol(name: string, address: FnPtr, create: MhStatus, trampoline: FnPtr)

  /** A loaded module and its exported symbols, in the order they are reported. */
  datatype Module = Module(name: string, symbols: seq<Symbol>)

  datatype AllocFn = MallocFn | FreeFn

  /** One MH_CreateHook call: redirect `target` to `detour`, storing the
      trampoline into slot `slot` of the originals table of `fn`. */
  datatype HookRequest = HookRequest(fn: AllocFn, moduleName: string, target: FnPtr, slot: int, detour: Wrapper)

  /** A wrapper's call to the original function: which address it called and
      the thread's depth counter while the original runs (a hooked call the
      original makes sees that depth). */
  datatype OriginalCall =
    | CallMalloc(callee: FnPtr, size: nat, depth: int)
    | CallFree(callee: FnPtr, ptr: nat, depth: int)

  /** The number of symbols in `syms` named exactly `name` (the `strcmp` test). */
  function CountNamed(syms: seq<Symbol>, name: string): nat
  {
    if syms == [] then 0
    else CountNamed(syms[..|syms| - 1], name) + (if syms[|syms| - 1].name == name then 1 else 0)
  }

  /** The symbols SymEnumSymbols reports for mask `mask`: those named `mask`, in order. */
  function Named(syms: seq<Symbol>, mask: string): (r: seq<Symbol>)
    ensures forall i :: 0 <= i < |r| ==> r[i].name == mask
  {
    if syms == [] then []
    else Named(syms[..|syms| - 1], mask) + (if syms[|syms| - 1].name == mask then [syms[|syms| - 1]] else [])
  }

  /** Filtering by a mask keeps every symbol of that name ... */
  lemma {:induction false} NamedKeepsCount(syms: seq<Symbol>, name: string)
    ensures CountNamed(Named(syms, name), name) == CountNamed(syms, name)
  {
    if syms != [] {
      var init := syms[..|syms| - 1];
      NamedKeepsCount(init, name);
      if syms[|syms| - 1].name == name {
        assert (Named(init, name) + [syms[|syms| - 1]])[..|Named(init, name)|] == Named(init, name);
      } else {
        assert Named(syms, name) == Named(init, name) + [] == Named(init, name);
      }
    }
  }

  /** ... and none of another name. */
  lemma {:induction false} NamedDropsOthers(syms: seq<Symbol>, mask: string, name: string)
    requires mask != name
    ensures CountNamed(Named(syms, mask), name) == 0
  {
    if syms != [] {
      var init := syms[..|syms| - 1];
      NamedDropsOthers(init, mask, name);
      if syms[|syms| - 1].name == mask {
        assert (Named(init, mask) + [syms[|syms| - 1]])[..|Named(init, mask)|] == Named(init, mask);
      } else {
        assert Named(syms, mask) == Named(init, mask) + [] == Named(init, mask);
      }
    }
  }

  /** The number of symbols named `name` over all modules whose name is not
      in `skipped`. */
  function CountInModules(modules: seq<Module>, name: string, skipped: set<string>): nat
  {
    if modules == [] then 0
    else
      var last := modules[|modules| - 1];
      CountInModules(modules[..|modules| - 1], name, skipped)
      + (if last.name in skipped then 0 else CountNamed(last.symbols, name))
  }

  /** `Named` and `CountNamed` agree. */
  lemma {:induction false} NamedLength(syms: seq<Symbol>, name: string)
    ensures |Named(syms, name)| == CountNamed(syms, name)
  {
    if syms != [] {
      NamedLength(syms[..|syms| - 1], name);
    }
  }

  /** A symbol offered to the symbol callback, with the name of the module it
      was reported for (the callback's user context). */
  datatype Target = Target(moduleName: string, symbol: Symbol)

  /** The symbols `syms` as reported for module `moduleName`. */
  function Tagged(moduleName: string, syms: seq<Symbol>): (r: seq<Target>)
    ensures |r| == |syms| && forall i :: 0 <= i < |r| ==> r[i] == Target(moduleName, syms[i])
  {
    seq(|syms|, i requires 0 <= i < |syms| => Target(moduleName, syms[i]))
  }

  /** The targets of `t` whose symbol is named exactly `name`, in order: the
      ones the callback hooks into the table for `name`. */
  function Hooked(t: seq<Target>, name: string): (r: seq<Target>)
    ensures |r| <= |t|
    ensures forall i :: 0 <= i < |r| ==> r[i].symbol.name == name
  {
    if t == [] then []
    else Hooked(t[..|t| - 1], name) + (if t[|t| - 1].symbol.name == name then [t[|t| - 1]] else [])
  }

  /** Tagging one more symbol. */
  lemma TaggedStep(moduleName: string, syms: seq<Symbol>, i: nat)
    requires i < |syms|
    ensures Tagged(moduleName, syms[..i + 1]) == Tagged(moduleName, syms[..i]) + [Target(moduleName, syms[i])]
    ensures Tagged(moduleName, syms[..i + 1])[..i] == Tagged(moduleName, syms[..i])
  {
  }

  /** Filtering distributes over concatenation. */
  lemma {:induction false} HookedAppend(a: seq<Target>, b: seq<Target>, name: string)
    ensures Hooked(a + b, name) == Hooked(a, name) + Hooked(b, name)
    decreases |b|
  {
    if b != [] {
      assert (a + b)[..|a + b| - 1] == a + b[..|b| - 1];
      HookedAppend(a, b[..|b| - 1], name);
    } else {
      assert a + b == a;
    }
  }

  /** Filtering the symbols of one module by name, before or after tagging
      them with the module's name, gives the same targets. */
  lemma {:induction false} HookedTagged(moduleName: string, syms: seq<Symbol>, name: string)
    ensures Hooked(Tagged(moduleName, syms), name) == Tagged(moduleName, Named(syms, name))
    ensures |Hooked(Tagged(moduleName, syms), name)| == CountNamed(syms, name)
  {
    NamedLength(syms, name);
    if syms != [] {
      var t := Tagged(moduleName, syms);
      assert t[..|t| - 1] == Tagged(moduleName, syms[..|syms| - 1]);
      HookedTagged(moduleName, syms[..|syms| - 1], name);
      if syms[|syms| - 1].name == name {
        assert Tagged(moduleName, Named(syms, name))
            == Tagged(moduleName, Named(syms[..|syms| - 1], name)) + [Target(moduleName, syms[|syms| - 1])];
      } else {
        assert Named(syms, name) == Named(syms[..|syms| - 1], name);
      }
    }
  }

  /** The library function a table belongs to, by the symbol name it hooks. */
  function NameOf(fn: AllocFn): string
  {
    if fn == MallocFn then "malloc" else "free"
  }

  /** The hook bookkeeping the symbol callback updates: the two slot counters,
      the two tables of originals and the MH_CreateHook requests made so far. */
  datatype HookTables = HookTables(nUsedMallocHooks: int, nUsedFreeHooks: int,
                                   originalMallocs: seq<FnPtr>, originalFrees: seq<FnPtr>,
                                   requests: seq<HookRequest>)
  {
    /** The counter of the table for `fn`. */
    function Used(fn: AllocFn): int
    {
      if fn == MallocFn then nUsedMallocHooks else nUsedFreeHooks
    }

    /** The originals table for `fn`. */
    function Originals(fn: AllocFn): seq<FnPtr>
    {
      if fn == MallocFn then originalMallocs else originalFrees
    }
  }

  /** The wrapper tables the callback reads, `mallocHooks` and `freeHooks`. */
  datatype Detours = Detours(mallocHooks: seq<Wrapper>, freeHooks: seq<Wrapper>)
  {
    /** The wrapper table for `fn`. */
    function Of(fn: AllocFn): seq<Wrapper>
    {
      if fn == MallocFn then mallocHooks else freeHooks
    }
  }

  /** The tables have room for every target of `t` that gets hooked. */
  ghost predicate Fits(h: HookTables, d: Detours, t: seq<Target>)
  {
    && |d.mallocHooks| == NumHooks && |d.freeHooks| == NumHooks
    && |h.originalMallocs| == NumHooks && |h.originalFrees| == NumHooks
    && 0 <= h.nUsedMallocHooks && h.nUsedMallocHooks + |Hooked(t, "malloc")| <= NumHooks
    && 0 <= h.nUsedFreeHooks && h.nUsedFreeHooks + |Hooked(t, "free")| <= NumHooks
  }

  /** The tables have room for target `x` if it gets hooked. */
  ghost predicate HasRoom(h: HookTables, d: Detours, x: Target)
  {
    && |d.mallocHooks| == NumHooks && |d.freeHooks| == NumHooks
    && |h.originalMallocs| == NumHooks && |h.originalFrees| == NumHooks
    && (x.symbol.name == "malloc" ==> 0 <= h.nUsedMallocHooks < NumHooks)
    && (x.symbol.name == "free" ==> 0 <= h.nUsedFreeHooks < NumHooks)
  }

  /** The symbol callback's effect on one target: a symbol named exactly
      "malloc" (or "free") is requested into the next slot of its table, its
      trampoline is stored there when MH_CreateHook succeeds, and the counter
      moves on; any other symbol changes nothing. */
  ghost function HookOne(h: HookTables, d: Detours, x: Target): HookTables
    requires HasRoom(h, d, x)
  {
    var sym := x.symbol;
    if sym.name == "malloc" then
      var n := h.nUsedMallocHooks;
      h.(nUsedMallocHooks := n + 1,
         originalMallocs := if sym.create == MhOk then h.originalMallocs[n := sym.trampoline] else h.originalMallocs,
         requests := h.requests + [HookRequest(MallocFn, x.moduleName, sym.address, n, d.mallocHooks[n])])
    else if sym.name == "free" then
      var n := h.nUsedFreeHooks;
      h.(nUsedFreeHooks := n + 1,
         originalFrees := if sym.create == MhOk then h.originalFrees[n := sym.trampoline] else h.originalFrees,
         requests := h.requests + [HookRequest(FreeFn, x.moduleName, sym.address, n, d.freeHooks[n])])
    else
      h
  }

  /** The symbol callback run on each target of `t` in turn. */
  ghost function HookAll(h: HookTables, d: Detours, t: seq<Target>): (r: HookTables)
    requires Fits(h, d, t)
    ensures r.nUsedMallocHooks == h.nUsedMallocHooks + |Hooked(t, "malloc")|
    ensures r.nUsedFreeHooks == h.nUsedFreeHooks + |Hooked(t, "free")|
    ensures |r.originalMallocs| == NumHooks && |r.originalFrees| == NumHooks
    ensures |r.requests| == |h.requests| + |Hooked(t, "malloc")| + |Hooked(t, "free")|
    ensures r.requests[..|h.requests|] == h.requests
    decreases |t|
  {
    if t == [] then h
    else
      var x := t[|t| - 1];
      var mid := HookAll(h, d, t[..|t| - 1]);
      HookOne(mid, d, x)
  }

  /** Every request made over `t` names a slot of its table and passes the
      wrapper that slot holds. */
  lemma {:induction false} HookAllDetours(h: HookTables, d: Detours, t: seq<Target>)
    requires Fits(h, d, t)
    ensures forall k :: |h.requests| <= k < |HookAll(h, d, t).requests| ==>
      var q := HookAll(h, d, t).requests[k];
      0 <= q.slot < NumHooks && q.detour == d.Of(q.fn)[q.slot]
    decreases |t|
  {
    if t != [] {
      HookAllDetours(h, d, t[..|t| - 1]);
    }
  }

  /** Running the callback over `a + b` is running it over `a`, then `b`. */
  lemma {:induction false} HookAllAppend(h: HookTables, d: Detours, a: seq<Target>, b: seq<Target>)
    requires Fits(h, d, a + b)
    ensures Fits(h, d, a) && Fits(HookAll(h, d, a), d, b)
    ensures HookAll(h, d, a + b) == HookAll(HookAll(h, d, a), d, b)
    decreases |b|
  {
    HookedAppend(a, b, "malloc");
    HookedAppend(a, b, "free");
    if b == [] {
      assert a + b == a;
    } else {
      var init := b[..|b| - 1];
      assert (a + b)[..|a + b| - 1] == a + init;
      HookedAppend(a, init, "malloc");
      HookedAppend(a, init, "free");
      HookAllAppend(h, d, a, init);
    }
  }

  /** Room for all of `t` is room for any prefix of it. */
  lemma FitsPrefix(h: HookTables, d: Detours, t: seq<Target>, k: nat)
    requires Fits(h, d, t) && k <= |t|
    ensures Fits(h, d, t[..k])
  {
    assert t == t[..k] + t[k..];
    HookedAppend(t[..k], t[k..], "malloc");
    HookedAppend(t[..k], t[k..], "free");
  }

  /** The requests of `rs` for table `fn`, in order. */
  function RequestsFor(rs: seq<HookRequest>, fn: AllocFn): (r: seq<HookRequest>)
    ensures forall i :: 0 <= i < |r| ==> r[i].fn == fn
  {
    if rs == [] then []
    else RequestsFor(rs[..|rs| - 1], fn) + (if rs[|rs| - 1].fn == fn then [rs[|rs| - 1]] else [])
  }

  /** `added` holds one request per target of `hooked`, in order: the j-th
      asks for that target's symbol to be redirected to the wrapper in slot
      `n + j` of `detours`, its original going to slot `n + j` of the table
      for `fn`. */
  ghost predicate RequestsMatch(added: seq<HookRequest>, hooked: seq<Target>, fn: AllocFn, n: int, detours: seq<Wrapper>)
  {
    && |added| == |hooked|
    && 0 <= n && n + |hooked| <= |detours|
    && forall j :: 0 <= j < |hooked| ==>
         added[j] == HookRequest(fn, hooked[j].moduleName, hooked[j].symbol.address, n + j, detours[n + j])
  }

  /** One more hooked target, one more matching request. */
  lemma RequestsMatchSnoc(added: seq<HookRequest>, hooked: seq<Target>, fn: AllocFn, n: int, detours: seq<Wrapper>,
                          q: HookRequest, x: Target)
    requires RequestsMatch(added, hooked, fn, n, detours)
    requires n + |hooked| < |detours|
    requires q == HookRequest(fn, x.moduleName, x.symbol.address, n + |hooked|, detours[n + |hooked|])
    ensures RequestsMatch(added + [q], hooked + [x], fn, n, detours)
  {
    var added', hooked' := added + [q], hooked + [x];
    forall j | 0 <= j < |hooked'|
      ensures added'[j] == HookRequest(fn, hooked'[j].moduleName, hooked'[j].symbol.address, n + j, detours[n + j])
    {
      if j < |hooked| {
        assert added'[j] == added[j] && hooked'[j] == hooked[j];
      }
    }
  }

  /** Over `t`, the callback makes one request per target it hooks into the
      table for `fn`, in order, starting at the table's counter before. */
  lemma {:induction false} HookAllRequests(h: HookTables, d: Detours, t: seq<Target>, fn: AllocFn)
    requires Fits(h, d, t)
    ensures RequestsMatch(RequestsFor(HookAll(h, d, t).requests[|h.requests|..], fn), Hooked(t, NameOf(fn)),
                          fn, h.Used(fn), d.Of(fn))
    decreases |t|
  {
    if t != [] {
      var init, x := t[..|t| - 1], t[|t| - 1];
      HookAllRequests(h, d, init, fn);
      var mid := HookAll(h, d, init);
      var added, hooked := RequestsFor(mid.requests[|h.requests|..], fn), Hooked(init, NameOf(fn));
      assert mid.Used(fn) == h.Used(fn) + |hooked|;
      HookOneRequests(mid, d, x, fn, |h.requests|);
      if x.symbol.name == NameOf(fn) {
        assert Hooked(t, NameOf(fn)) == hooked + [x];
        RequestsMatchSnoc(added, hooked, fn, h.Used(fn), d.Of(fn),
                          HookRequest(fn, x.moduleName, x.symbol.address, mid.Used(fn), d.Of(fn)[mid.Used(fn)]), x);
      } else {
        assert Hooked(t, NameOf(fn)) == hooked;
      }
    }
  }

  /** One target adds at most one request for `fn`: one exactly when its
      symbol has the table's name. */
  lemma HookOneRequests(h: HookTables, d: Detours, x: Target, fn: AllocFn, k: nat)
    requires HasRoom(h, d, x) && k <= |h.requests|
    ensures RequestsFor(HookOne(h, d, x).requests[k..], fn)
         == RequestsFor(h.requests[k..], fn)
            + if x.symbol.name == NameOf(fn)
              then [HookRequest(fn, x.moduleName, x.symbol.address, h.Used(fn), d.Of(fn)[h.Used(fn)])]
              else []
  {
    var r := HookOne(h, d, x);
    if x.symbol.name == "malloc" || x.symbol.name == "free" {
      var q := r.requests[|r.requests| - 1];
      assert r.requests[k..] == h.requests[k..] + [q];
      RequestsForSnoc(h.requests[k..], q, fn);
    }
  }

  /** Filtering requests one more at a time. */
  lemma RequestsForSnoc(rs: seq<HookRequest>, q: HookRequest, fn: AllocFn)
    ensures RequestsFor(rs + [q], fn) == RequestsFor(rs, fn) + (if q.fn == fn then [q] else [])
  {
    assert (rs + [q])[..|rs|] == rs;
  }

  /** `after` is `before` with the targets of `hooked` stored from slot `n`
      on: slot `n + j` holds the j-th target's trampoline when MH_CreateHook
      succeeded on it and keeps its old value when it failed, and every slot
      outside `n .. n + |hooked|` keeps its old value. */
  ghost predicate OriginalsMatch(before: seq<FnPtr>, after: seq<FnPtr>, hooked: seq<Target>, n: int)
  {
    && |after| == |before|
    && 0 <= n && n + |hooked| <= |before|
    && (forall j :: 0 <= j < |hooked| ==>
          after[n + j] == if hooked[j].symbol.create == MhOk then hooked[j].symbol.trampoline else before[n + j])
    && (forall k :: 0 <= k < |after| && !(n <= k < n + |hooked|) ==> after[k] == before[k])
  }

  /** One more hooked target fills one more slot. */
  lemma OriginalsMatchSnoc(before: seq<FnPtr>, after: seq<FnPtr>, hooked: seq<Target>, n: int, x: Target)
    requires OriginalsMatch(before, after, hooked, n) && n + |hooked| < |before|
    ensures OriginalsMatch(before, if x.symbol.create == MhOk then after[n + |hooked| := x.symbol.trampoline] else after,
                           hooked + [x], n)
  {
    var after' := if x.symbol.create == MhOk then after[n + |hooked| := x.symbol.trampoline] else after;
    var hooked' := hooked + [x];
    forall j | 0 <= j < |hooked'|
      ensures after'[n + j] == if hooked'[j].symbol.create == MhOk then hooked'[j].symbol.trampoline else before[n + j]
    {
      if j < |hooked| {
        assert hooked'[j] == hooked[j];
      }
    }
  }

  /** Over `t`, the originals table for `fn` receives the trampolines of the
      targets hooked into it, in order, from the table's counter on; no
      other slot changes. */
  lemma {:induction false} HookAllOriginals(h: HookTables, d: Detours, t: seq<Target>, fn: AllocFn)
    requires Fits(h, d, t)
    ensures OriginalsMatch(h.Originals(fn), HookAll(h, d, t).Originals(fn), Hooked(t, NameOf(fn)), h.Used(fn))
    decreases |t|
  {
    if t != [] {
      var init, x := t[..|t| - 1], t[|t| - 1];
      HookAllOriginals(h, d, init, fn);
      var mid := HookAll(h, d, init);
      HookOneOriginals(mid, d, x, fn);
      if x.symbol.name == NameOf(fn) {
        OriginalsMatchSnoc(h.Originals(fn), mid.Originals(fn), Hooked(init, NameOf(fn)), h.Used(fn), x);
      }
    }
  }

  /** One target changes at most the slot its table's counter points at. */
  lemma HookOneOriginals(h: HookTables, d: Detours, x: Target, fn: AllocFn)
    requires HasRoom(h, d, x)
    ensures HookOne(h, d, x).Used(fn) == h.Used(fn) + (if x.symbol.name == NameOf(fn) then 1 else 0)
    ensures HookOne(h, d, x).Originals(fn)
         == if x.symbol.name == NameOf(fn) && x.symbol.create == MhOk
            then h.Originals(fn)[h.Used(fn) := x.symbol.trampoline]
            else h.Originals(fn)
  {
  }
  /** The targets `enumModulesCallback` offers for module `m`: none when its
      name is in `skipped`, otherwise its "malloc" symbols and then its "free"
      symbols, each list as SymEnumSymbols reports it for that mask. */
  function ModuleTargets(m: Module, skipped: set<string>): seq<Target>
  {
    if m.name in skipped then []
    else Tagged(m.name, Named(m.symbols, "malloc")) + Tagged(m.name, Named(m.symbols, "free"))
  }

  /** A module that is not skipped offers its "malloc" symbols, then its
      "free" symbols. */
  lemma ModuleTargetsKept(m: Module, skipped: set<string>)
    requires m.name !in skipped
    ensures ModuleTargets(m, skipped) == Tagged(m.name, Named(m.symbols, "malloc")) + Tagged(m.name, Named(m.symbols, "free"))
  {
  }

  /** The targets offered over `modules`, module by module. */
  function MaskedTargets(modules: seq<Module>, skipped: set<string>): seq<Target>
  {
    if modules == [] then []
    else MaskedTargets(modules[..|modules| - 1], skipped) + ModuleTargets(modules[|modules| - 1], skipped)
  }

  /** The targets offered over the first `k` modules are offered first. */
  lemma {:induction false} MaskedTargetsPrefix(modules: seq<Module>, k: nat, skipped: set<string>)
    requires k <= |modules|
    ensures MaskedTargets(modules[..k], skipped) <= MaskedTargets(modules, skipped)
    decreases |modules| - k
  {
    if k < |modules| {
      MaskedTargetsPrefix(modules, k + 1, skipped);
      MaskedTargetsStep(modules, k, skipped);
    } else {
      assert modules[..k] == modules;
    }
  }

  /** Room for the targets of all modules is room for those of the first `k`. */
  lemma FitsMaskedPrefix(h: HookTables, d: Detours, modules: seq<Module>, k: nat, skipped: set<string>)
    requires k <= |modules| && Fits(h, d, MaskedTargets(modules, skipped))
    ensures Fits(h, d, MaskedTargets(modules[..k], skipped))
  {
    var all, p := MaskedTargets(modules, skipped), MaskedTargets(modules[..k], skipped);
    MaskedTargetsPrefix(modules, k, skipped);
    assert all[..|p|] == p;
    FitsPrefix(h, d, all, |p|);
  }

  /** Offering one more module. */
  lemma MaskedTargetsStep(modules: seq<Module>, i: nat, skipped: set<string>)
    requires i < |modules|
    ensures MaskedTargets(modules[..i + 1], skipped) == MaskedTargets(modules[..i], skipped) + ModuleTargets(modules[i], skipped)
  {
    assert modules[..i + 1][..i] == modules[..i];
  }

  /** A module offers each of its symbols of a hooked name exactly once,
      unless it is skipped. */
  lemma ModuleTargetsCount(m: Module, skipped: set<string>, name: string)
    requires name == "malloc" || name == "free"
    ensures |Hooked(ModuleTargets(m, skipped), name)| == if m.name in skipped then 0 else CountNamed(m.symbols, name)
  {
    if m.name !in skipped {
      var other := if name == "malloc" then "free" else "malloc";
      HookedAppend(Tagged(m.name, Named(m.symbols, "malloc")), Tagged(m.name, Named(m.symbols, "free")), name);
      HookedTagged(m.name, Named(m.symbols, name), name);
      HookedTagged(m.name, Named(m.symbols, other), name);
      NamedKeepsCount(m.symbols, name);
      NamedDropsOthers(m.symbols, other, name);
    }
  }

  /** Over all modules, the targets of a hooked name are the ones
      `CountInModules` counts. */
  lemma {:induction false} MaskedTargetsCount(modules: seq<Module>, skipped: set<string>, name: string)
    requires name == "malloc" || name == "free"
    ensures |Hooked(MaskedTargets(modules, skipped), name)| == CountInModules(modules, name, skipped)
  {
    if modules != [] {
      var init := modules[..|modules| - 1];
      MaskedTargetsCount(init, skipped, name);
      HookedAppend(MaskedTargets(init, skipped), ModuleTargets(modules[|modules| - 1], skipped), name);
      ModuleTargetsCount(modules[|modules| - 1], skipped, name);
    }
  }

  /** The targets offered when every symbol of every module goes to the
      symbol callback, module by module. */
  function AllTargets(modules: seq<Module>): seq<Target>
  {
    if modules == [] then []
    else
      var last := modules[|modules| - 1];
      AllTargets(modules[..|modules| - 1]) + Tagged(last.name, last.symbols)
  }

  /** Offering one more module. */
  lemma AllTargetsStep(modules: seq<Module>, i: nat)
    requires i < |modules|
    ensures AllTargets(modules[..i + 1]) == AllTargets(modules[..i]) + Tagged(modules[i].name, modules[i].symbols)
  {
    assert modules[..i + 1][..i] == modules[..i];
  }

  /** Room for the targets of all modules is room for those of the first `k`. */
  lemma {:induction false} FitsAllPrefix(h: HookTables, d: Detours, modules: seq<Module>, k: nat)
    requires k <= |modules| && Fits(h, d, AllTargets(modules))
    ensures Fits(h, d, AllTargets(modules[..k]))
    decreases |modules| - k
  {
    if k == |modules| {
      assert modules[..k] == modules;
    } else {
      FitsAllPrefix(h, d, modules, k + 1);
      AllTargetsStep(modules, k);
      HookAllAppend(h, d, AllTargets(modules[..k]), Tagged(modules[k].name, modules[k].symbols));
    }
  }

  /** Over all modules, each table gets as many targets as there are
      symbols of its name. */
  lemma {:induction false} AllTargetsCount(modules: seq<Module>, name: string)
    ensures |Hooked(AllTargets(modules), name)| == CountInModules(modules, name, {})
  {
    if modules != [] {
      var init, last := modules[..|modules| - 1], modules[|modules| - 1];
      AllTargetsCount(init, name);
      HookedAppend(AllTargets(init), Tagged(last.name, last.symbols), name);
      HookedTagged(last.name, last.symbols, name);
    }
  }
}
