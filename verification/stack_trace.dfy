/** Stack traces captured at an intercepted call, and the choice of frames
    that `StackTrace::print` writes out (HeapyInject/HeapProfiler.cpp). */
module StackTraces {

  /** Capacity of a captured backtrace (`backtraceSize`). */
  const BacktraceSize: nat := 256

  /** A return address; 0 stands for the null frame. */
  type Addr = nat

  /** The hash CaptureStackBackTrace computes over the frames; opaque here. */
  type StackHash = nat

  /** The fixed-size `backtrace` array of a trace. */
  type Backtrace = s: seq<Addr> | |s| == BacktraceSize witness seq(BacktraceSize, _ => 0)

  datatype StackTrace = StackTrace(backtrace: Backtrace, hash: StackHash)

  /** `StackTrace::StackTrace`: hash 0 and every frame null. */
  function NewStackTrace(): (t: StackTrace)
    ensures t.hash == 0
    ensures forall i :: 0 <= i < BacktraceSize ==> t.backtrace[i] == 0
  {
    StackTrace(seq(BacktraceSize, _ => 0), 0)
  }

  /** `StackTrace::trace`: CaptureStackBackTrace(0, backtraceSize, ...) writes
      the frames it captured from slot 0 on and stores their hash. What the
      OS captures is an input here: `captured` and `hash`. */
  function Trace(t: StackTrace, captured: seq<Addr>, hash: StackHash): (r: StackTrace)
    requires |captured| <= BacktraceSize
    ensures r.hash == hash
    ensures forall i :: 0 <= i < |captured| ==> r.backtrace[i] == captured[i]
    ensures forall i :: |captured| <= i < BacktraceSize ==> r.backtrace[i] == t.backtrace[i]
  {
    StackTrace(captured + t.backtrace[|captured|..], hash)
  }

  /** The frames `print` writes for `t`: frames 1, 2, ... in order, stopping
      before the first null frame or at the end of the backtrace. Frame 0, the
      frame that made the capture, is never written. */
  ghost predicate IsPrintSelection(t: StackTrace, frames: seq<Addr>)
  {
    && |frames| < BacktraceSize
    && (forall j :: 0 <= j < |frames| ==> frames[j] == t.backtrace[j + 1])
    && (forall i :: 1 <= i <= |frames| ==> t.backtrace[i] != 0)
    && (|frames| + 1 == BacktraceSize || t.backtrace[|frames| + 1] == 0)
  }

  /** The frame-selection loop of `StackTrace::print`; symbol lookup and the
      text written per frame are not modelled. */
  method PrintedFrames(t: StackTrace) returns (frames: seq<Addr>)
    ensures IsPrintSelection(t, frames)
  {
    frames := [];
    var i := 1;
    while i < BacktraceSize
      invariant 1 <= i <= BacktraceSize
      invariant |frames| == i - 1
      invariant forall j :: 0 <= j < |frames| ==> frames[j] == t.backtrace[j + 1]
      invariant forall k :: 1 <= k < i ==> t.backtrace[k] != 0
    {
      if t.backtrace[i] != 0 {
        frames := frames + [t.backtrace[i]];
      } else {
        break;
      }
      i := i + 1;
    }
  }

  /** The selection is a function of the trace: two selections agree. */
  lemma PrintSelectionIsUnique(t: StackTrace, f1: seq<Addr>, f2: seq<Addr>)
    requires IsPrintSelection(t, f1) && IsPrintSelection(t, f2)
    ensures f1 == f2
  {
  }

  /** A freshly constructed trace prints no frame at all. */
  lemma NewTracePrintsNothing(frames: seq<Addr>)
    requires IsPrintSelection(NewStackTrace(), frames)
    ensures frames == []
  {
    assert NewStackTrace().backtrace[1] == 0;
  }

  /** A capture of non-null frames into a fresh trace prints every captured
      frame except the first one, the frame that made the capture. */
  lemma PrintsFramesAfterFirst(captured: seq<Addr>, hash: StackHash)
    requires 1 <= |captured| <= BacktraceSize
    requires forall i :: 0 <= i < |captured| ==> captured[i] != 0
    ensures IsPrintSelection(Trace(NewStackTrace(), captured, hash), captured[1..])
  {
    var t := Trace(NewStackTrace(), captured, hash);
    if |captured| < BacktraceSize {
      assert t.backtrace[|captured|] == NewStackTrace().backtrace[|captured|] == 0;
    }
  }
}
