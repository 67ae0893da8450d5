/** Vocabulary shared by the three versions of the engine: the eight-pixel
    strip, the calls a render pass makes on it, and the small state machine
    every tracked resource goes through. */
module Blinkt {

  /** Number of addressable pixels on the strip; index i is pixel i while i < Pixels. */
  const Pixels: nat := 8

  /** Colours are opaque: the engine only ever compares them for equality. */
  type Color = string

  /** Lifecycle of a tracked resource between two render passes.
      main.go calls the third state `removed`, the library versions `deleted`. */
  datatype State = Added | Updated | Deleted | Unchanged

  /** One call made on the strip. A flash records the pixel and the colour it
      blinks in; its repeat count and interval are constants of the call site. */
  datatype Event =
    | Flash(index: nat, color: Color)
    | Set(index: nat, color: Color, brightness: real)
    | Off(index: nat)
    | Show

  /** A call that addresses a pixel on the strip, or the final Show. */
  predicate OnStrip(e: Event)
  {
    e.Show? || e.index < Pixels
  }

  /** The calls switching off every pixel from `from` up to the last one, in order. */
  function OffFill(from: nat): (t: seq<Event>)
    ensures |t| == if from < Pixels then Pixels - from else 0
    decreases Pixels - from
  {
    if from >= Pixels then [] else [Off(from)] + OffFill(from + 1)
  }

  /** OffFill(from) only switches pixels off, and only pixels from `from` to the last one. */
  lemma {:induction false} OffFillOnly(from: nat)
    ensures forall e :: e in OffFill(from) ==> e.Off? && from <= e.index < Pixels
    decreases Pixels - from
  {
    if from < Pixels {
      OffFillOnly(from + 1);
    }
  }

  /** Pixel p is switched off by OffFill(from) exactly when from <= p < Pixels. */
  lemma {:induction false} OffFillCovers(from: nat, p: nat)
    ensures Off(p) in OffFill(from) <==> from <= p < Pixels
    decreases Pixels - from
  {
    OffFillOnly(from);
    if from < p < Pixels {
      OffFillCovers(from + 1, p);
    }
  }

  /** The strip calls made so far, `calls`, followed by those of a loop
      switching off pixel i, i + 1, ... up to the last one. */
  function OffCalls(i: nat, calls: seq<Event>): seq<Event>
    decreases Pixels - i
  {
    if i >= Pixels then calls else OffCalls(i + 1, calls + [Off(i)])
  }

  lemma {:induction false} OffCallsFill(i: nat, calls: seq<Event>)
    ensures OffCalls(i, calls) == calls + OffFill(i)
    decreases Pixels - i
  {
    if i < Pixels {
      OffCallsFill(i + 1, calls + [Off(i)]);
      Assoc(calls, [Off(i)], OffFill(i + 1));
    }
  }

  /** A trace with every flash dropped, everything else kept in order. */
  function WithoutFlashes(t: seq<Event>): (r: seq<Event>)
    ensures |r| <= |t|
    ensures forall e :: e in r <==> e in t && !e.Flash?
  {
    if t == [] then []
    else (if t[0].Flash? then [] else [t[0]]) + WithoutFlashes(t[1..])
  }

  lemma {:induction false} WithoutFlashesAppend(a: seq<Event>, b: seq<Event>)
    ensures WithoutFlashes(a + b) == WithoutFlashes(a) + WithoutFlashes(b)
  {
    if a == [] {
      assert a + b == b;
    } else {
      assert (a + b)[0] == a[0];
      assert (a + b)[1..] == a[1..] + b;
      WithoutFlashesAppend(a[1..], b);
    }
  }

  /** A trace that holds no flash is its own flash-free version. */
  lemma {:induction false} WithoutFlashesKeeps(t: seq<Event>)
    requires forall e :: e in t ==> !e.Flash?
    ensures WithoutFlashes(t) == t
  {
    if t != [] {
      assert t == [t[0]] + t[1..];
      WithoutFlashesKeeps(t[1..]);
    }
  }

  /** Concatenation regroups: the step the sweeps and the switch-off loop take
      at every call. Stated once as a lemma, it is cheaper for the solver than
      the same equation asserted at each use. */
  lemma Assoc<T>(a: seq<T>, b: seq<T>, c: seq<T>)
    ensures a + b + c == a + (b + c)
  {
  }

  lemma EventsRegroup(a: seq<Event>, b: seq<Event>, c: seq<Event>, d: seq<Event>)
    ensures (a + b) + c + d == a + (b + c + d)
  {
  }
}
