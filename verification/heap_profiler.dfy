/** The allocation-site store of HeapyInject/HeapProfiler.cpp: a table of
    call sites keyed by stack hash, each with the live allocations made from
    it, and a table from each live pointer to the hash of its site. */
module Profiler {
  import opened StackTraces

  /** A heap block address as the allocator returned it; 0 is null. */
  type Ptr = nat

  /** A call site: the trace of its first allocation (kept for display) and
      the size of every allocation from it that is still live. */
  datatype Site = Site(trace: StackTrace, allocations: map<Ptr, nat>)

  /** The two tables of a HeapProfiler, as one value. */
  datatype Tables = Tables(stackTraces: map<StackHash, Site>, ptrs: map<Ptr, StackHash>)

  /** One entry of the allocation-site report: a site's trace and its live bytes. */
  datatype SiteReport = SiteReport(trace: StackTrace, size: nat)

  /** The site a missing key stands for when `operator[]` creates it: a
      default-constructed trace and no allocations. */
  function DefaultSite(): Site
  {
    Site(NewStackTrace(), map[])
  }

  /** The invariant both operations keep: a site is filed under its own
      trace's hash, and every live pointer is listed in the site it names. */
  ghost predicate Consistent(t: Tables)
  {
    && (forall h :: h in t.stackTraces ==> t.stackTraces[h].trace.hash == h)
    && (forall p :: p in t.ptrs ==> t.ptrs[p] in t.stackTraces && p in t.stackTraces[t.ptrs[p]].allocations)
  }

  /** The stronger invariant that holds while no live pointer is handed to
      `malloc` again: a pointer listed in a site is live and names that site. */
  ghost predicate OneSitePerPointer(t: Tables)
  {
    forall h, p :: h in t.stackTraces && p in t.stackTraces[h].allocations ==> p in t.ptrs && t.ptrs[p] == h
  }

  /** The tables after `HeapProfiler::malloc(ptr, size, trace)`. */
  function Malloced(t: Tables, ptr: Ptr, size: nat, trace: StackTrace): (r: Tables)
    ensures ptr in r.ptrs && r.ptrs[ptr] == trace.hash
    ensures trace.hash in r.stackTraces && ptr in r.stackTraces[trace.hash].allocations
    ensures r.stackTraces[trace.hash].allocations[ptr] == size
    // the first trace seen for a hash is the one kept
    ensures r.stackTraces[trace.hash].trace
         == if trace.hash in t.stackTraces then t.stackTraces[trace.hash].trace else trace
    // the site's other allocations are kept
    ensures forall q :: q != ptr && q in r.stackTraces[trace.hash].allocations ==>
      (&& trace.hash in t.stackTraces && q in t.stackTraces[trace.hash].allocations
       && r.stackTraces[trace.hash].allocations[q] == t.stackTraces[trace.hash].allocations[q])
    ensures trace.hash in t.stackTraces ==>
      t.stackTraces[trace.hash].allocations.Keys + {ptr} == r.stackTraces[trace.hash].allocations.Keys
    // nothing else changes
    ensures r.stackTraces.Keys == t.stackTraces.Keys + {trace.hash}
    ensures forall h :: h in t.stackTraces && h != trace.hash ==> r.stackTraces[h] == t.stackTraces[h]
    ensures r.ptrs.Keys == t.ptrs.Keys + {ptr}
    ensures forall q :: q in t.ptrs && q != ptr ==> r.ptrs[q] == t.ptrs[q]
  {
    var site := if trace.hash in t.stackTraces then t.stackTraces[trace.hash] else Site(trace, map[]);
    Tables(t.stackTraces[trace.hash := site.(allocations := site.allocations[ptr := size])],
           t.ptrs[ptr := trace.hash])
  }

  /** The tables after `HeapProfiler::free(ptr, trace)`; the trace is unused. */
  function Freed(t: Tables, ptr: Ptr): (r: Tables)
    // a wild free changes nothing
    ensures ptr !in t.ptrs ==> r == t
    ensures ptr in t.ptrs ==>
      && r.ptrs.Keys == t.ptrs.Keys - {ptr}
      && t.ptrs[ptr] in r.stackTraces
      && r.stackTraces[t.ptrs[ptr]].allocations.Keys
         == (if t.ptrs[ptr] in t.stackTraces then t.stackTraces[t.ptrs[ptr]].allocations.Keys else {}) - {ptr}
    // the site record itself stays, and the only site that can appear is the
    // one the freed pointer names
    ensures r.stackTraces.Keys == t.stackTraces.Keys + (if ptr in t.ptrs then {t.ptrs[ptr]} else {})
    ensures forall q :: q in r.ptrs ==> q in t.ptrs && r.ptrs[q] == t.ptrs[q]
    ensures forall h :: h in t.stackTraces ==>
      && r.stackTraces[h].trace == t.stackTraces[h].trace
      && (forall q :: q in r.stackTraces[h].allocations ==>
            q in t.stackTraces[h].allocations && r.stackTraces[h].allocations[q] == t.stackTraces[h].allocations[q])
    ensures forall h :: h in t.stackTraces && (ptr !in t.ptrs || h != t.ptrs[ptr]) ==> r.stackTraces[h] == t.stackTraces[h]
  {
    if ptr in t.ptrs then
      var h := t.ptrs[ptr];
      var site := if h in t.stackTraces then t.stackTraces[h] else DefaultSite();
      Tables(t.stackTraces[h := site.(allocations := site.allocations - {ptr})], t.ptrs - {ptr})
    else
      t
  }

  /** `malloc` keeps the store consistent, whatever pointer it is given. */
  lemma MallocKeepsConsistent(t: Tables, ptr: Ptr, size: nat, trace: StackTrace)
    requires Consistent(t)
    ensures Consistent(Malloced(t, ptr, size, trace))
  {
    var r := Malloced(t, ptr, size, trace);
    forall p | p in r.ptrs
      ensures r.ptrs[p] in r.stackTraces && p in r.stackTraces[r.ptrs[p]].allocations
    {
      if p != ptr && r.ptrs[p] == trace.hash {
        assert p in t.stackTraces[trace.hash].allocations;
      }
    }
  }

  /** `malloc` of a pointer that is not live keeps each pointer in one site. */
  lemma MallocKeepsOneSitePerPointer(t: Tables, ptr: Ptr, size: nat, trace: StackTrace)
    requires Consistent(t) && OneSitePerPointer(t)
    requires ptr !in t.ptrs
    ensures OneSitePerPointer(Malloced(t, ptr, size, trace))
  {
    var r := Malloced(t, ptr, size, trace);
    forall h, p | h in r.stackTraces && p in r.stackTraces[h].allocations
      ensures p in r.ptrs && r.ptrs[p] == h
    {
      if h == trace.hash && p != ptr {
        assert p in t.stackTraces[h].allocations;
      } else if h != trace.hash {
        assert p in t.stackTraces[h].allocations;
        assert p != ptr;
      }
    }
  }

  /** `malloc` of a live pointer under another hash leaves a stale entry: the
      old site still lists the pointer although it now names the new site. */
  lemma RemallocLeavesStaleEntry(t: Tables, ptr: Ptr, size: nat, trace: StackTrace)
    requires Consistent(t)
    requires ptr in t.ptrs && t.ptrs[ptr] != trace.hash
    ensures var r := Malloced(t, ptr, size, trace);
      && t.ptrs[ptr] in r.stackTraces
      && ptr in r.stackTraces[t.ptrs[ptr]].allocations
      && !OneSitePerPointer(r)
  {
    var r := Malloced(t, ptr, size, trace);
    var old_h := t.ptrs[ptr];
    assert r.stackTraces[old_h] == t.stackTraces[old_h];
    assert ptr in r.stackTraces[old_h].allocations && r.ptrs[ptr] != old_h;
  }

  /** `free` keeps the store consistent. */
  lemma FreeKeepsConsistent(t: Tables, ptr: Ptr)
    requires Consistent(t)
    ensures Consistent(Freed(t, ptr))
  {
    var r := Freed(t, ptr);
    if ptr in t.ptrs {
      var h := t.ptrs[ptr];
      forall p | p in r.ptrs
        ensures r.ptrs[p] in r.stackTraces && p in r.stackTraces[r.ptrs[p]].allocations
      {
        assert p != ptr && p in t.ptrs;
        if t.ptrs[p] == h {
          assert p in t.stackTraces[h].allocations;
        }
      }
    }
  }

  /** `free` keeps each pointer in one site. */
  lemma FreeKeepsOneSitePerPointer(t: Tables, ptr: Ptr)
    requires Consistent(t) && OneSitePerPointer(t)
    ensures OneSitePerPointer(Freed(t, ptr))
  {
    var r := Freed(t, ptr);
    if ptr in t.ptrs {
      forall h, p | h in r.stackTraces && p in r.stackTraces[h].allocations
        ensures p in r.ptrs && r.ptrs[p] == h
      {
        assert p in t.stackTraces[h].allocations;
      }
    }
  }

  /** Some key of a non-empty map, chosen once and for all. */
  ghost function Pick(m: map<Ptr, nat>): (p: Ptr)
    requires m != map[]
    ensures p in m
  {
    var p :| p in m; p
  }

  /** The number of live bytes in an allocations map. */
  ghost function Total(m: map<Ptr, nat>): nat
    decreases |m|
  {
    if m == map[] then 0
    else
      var p := Pick(m);
      assert |m - {p}| < |m| by { assert m.Keys == (m - {p}).Keys + {p}; }
      m[p] + Total(m - {p})
  }

  /** The total does not depend on the order the entries are added up in:
      any entry can be taken out first. */
  lemma {:induction false} TotalRemove(m: map<Ptr, nat>, p: Ptr)
    requires p in m
    ensures Total(m) == m[p] + Total(m - {p})
    decreases |m|
  {
    var q := Pick(m);
    if q != p {
      assert (m - {q}).Keys + {q} == m.Keys;
      assert (m - {p}).Keys + {p} == m.Keys;
      TotalRemove(m - {q}, p);
      TotalRemove(m - {p}, q);
      assert m - {q} - {p} == m - {p} - {q};
    }
  }

  /** Adding a new allocation adds its size to the total. */
  lemma TotalInsert(m: map<Ptr, nat>, p: Ptr, size: nat)
    requires p !in m
    ensures Total(m[p := size]) == Total(m) + size
  {
    TotalRemove(m[p := size], p);
    assert m[p := size] - {p} == m;
  }

  /** What a site reports: its trace and the sum of its live allocations. */
  ghost function SiteEntry(t: Tables, h: StackHash): SiteReport
    requires h in t.stackTraces
  {
    SiteReport(t.stackTraces[h].trace, Total(t.stackTraces[h].allocations))
  }

  /** `allocs` is a report of `t`: one entry per site, in some order, each
      carrying the site's trace and live bytes. */
  ghost predicate IsSiteReport(t: Tables, allocs: seq<SiteReport>)
  {
    && |allocs| == |t.stackTraces|
    && (forall i :: 0 <= i < |allocs| ==>
          allocs[i].trace.hash in t.stackTraces && allocs[i] == SiteEntry(t, allocs[i].trace.hash))
    && (forall i, j :: 0 <= i < j < |allocs| ==> allocs[i].trace.hash != allocs[j].trace.hash)
    && (forall h :: h in t.stackTraces ==> exists i :: 0 <= i < |allocs| && allocs[i].trace.hash == h)
  }

  class HeapProfiler {
    var stackTraces: map<StackHash, Site>
    var ptrs: map<Ptr, StackHash>

    function State(): Tables
      reads this
    {
      Tables(stackTraces, ptrs)
    }

    ghost predicate Valid()
      reads this
    {
      Consistent(State())
    }

    constructor ()
      ensures Valid() && OneSitePerPointer(State())
      ensures stackTraces == map[] && ptrs == map[]
    {
      stackTraces := map[];
      ptrs := map[];
    }

    /** `HeapProfiler::malloc`: file `ptr` of `size` bytes under the site of
        `trace`, creating the site on first sight. */
    method Malloc(ptr: Ptr, size: nat, trace: StackTrace)
      modifies this
      ensures State() == Malloced(old(State()), ptr, size, trace)
      ensures old(Valid()) ==> Valid()
      ensures old(Valid()) && old(OneSitePerPointer(State())) && ptr !in old(ptrs) ==> OneSitePerPointer(State())
    {
      if trace.hash !in stackTraces {
        stackTraces := stackTraces[trace.hash := Site(trace, map[])];
      }
      var site := stackTraces[trace.hash];
      stackTraces := stackTraces[trace.hash := site.(allocations := site.allocations[ptr := size])];
      ptrs := ptrs[ptr := trace.hash];
      if old(Valid()) {
        MallocKeepsConsistent(old(State()), ptr, size, trace);
        if old(OneSitePerPointer(State())) && ptr !in old(ptrs) {
          MallocKeepsOneSitePerPointer(old(State()), ptr, size, trace);
        }
      }
    }

    /** `HeapProfiler::free`: forget a live pointer; a pointer never seen is
        ignored. */
    method Free(ptr: Ptr, trace: StackTrace)
      modifies this
      ensures State() == Freed(old(State()), ptr)
      ensures old(Valid()) ==> Valid()
      ensures old(Valid()) && old(OneSitePerPointer(State())) ==> OneSitePerPointer(State())
    {
      if ptr in ptrs {
        var stackHash := ptrs[ptr];
        var site := if stackHash in stackTraces then stackTraces[stackHash] else DefaultSite();
        stackTraces := stackTraces[stackHash := site.(allocations := site.allocations - {ptr})];
        ptrs := ptrs - {ptr};
      }
      if old(Valid()) {
        FreeKeepsConsistent(old(State()), ptr);
        if old(OneSitePerPointer(State())) {
          FreeKeepsOneSitePerPointer(old(State()), ptr);
        }
      }
    }

    /** The inner loop of `getAllocationSiteReport`: add up the sizes of one
        site's live allocations. */
    static method SumOfAllocations(allocations: map<Ptr, nat>) returns (sumOfAlloced: nat)
      ensures sumOfAlloced == Total(allocations)
    {
      sumOfAlloced := 0;
      var rest := allocations;
      while rest != map[]
        invariant sumOfAlloced + Total(rest) == Total(allocations)
        decreases |rest|
      {
        var p :| p in rest;
        TotalRemove(rest, p);
        sumOfAlloced := sumOfAlloced + rest[p];
        assert rest.Keys == (rest - {p}).Keys + {p};
        rest := rest - {p};
      }
    }

    /** `HeapProfiler::getAllocationSiteReport`: one entry per site with the
        sum of its live allocation sizes (0 for a site with none). */
    method GetAllocationSiteReport() returns (allocs: seq<SiteReport>)
      requires Valid()
      ensures IsSiteReport(State(), allocs)
    {
      allocs := [];
      var remaining := stackTraces.Keys;
      while remaining != {}
        invariant remaining <= stackTraces.Keys
        invariant |allocs| + |remaining| == |stackTraces|
        invariant forall i :: 0 <= i < |allocs| ==>
          allocs[i].trace.hash in stackTraces && allocs[i].trace.hash !in remaining
          && allocs[i] == SiteEntry(State(), allocs[i].trace.hash)
        invariant forall i, j :: 0 <= i < j < |allocs| ==> allocs[i].trace.hash != allocs[j].trace.hash
        invariant forall x :: x in stackTraces && x !in remaining ==>
          exists i :: 0 <= i < |allocs| && allocs[i].trace.hash == x
        decreases remaining
      {
        var h :| h in remaining;
        var info := stackTraces[h];
        var sumOfAlloced := SumOfAllocations(info.allocations);
        ghost var before := allocs;
        allocs := allocs + [SiteReport(info.trace, sumOfAlloced)];
        forall x | x in stackTraces && x !in remaining - {h}
          ensures exists i :: 0 <= i < |allocs| && allocs[i].trace.hash == x
        {
          if x == h {
            assert allocs[|before|].trace.hash == x;
          } else {
            var i :| 0 <= i < |before| && before[i].trace.hash == x;
            assert allocs[i] == before[i];
          }
        }
        assert |remaining - {h}| + 1 == |remaining|;
        remaining := remaining - {h};
      }
    }
  }
}
