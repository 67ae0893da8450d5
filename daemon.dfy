/** main.go: the stand-alone Blinkt daemon. Its render pass, `updatePixels`,
    flashes in one fixed colour per state rather than the entry's own, and
    writes an unchanged entry's pixel without checking that the index is on
    the strip. Pod and node handlers differ only in how the colour is derived. */
module Daemon {
  import opened Blinkt
  import opened Registry

  const AddedColor: Color := "00FF00"
  const UpdatedColor: Color := "000B87"
  const RemovedColor: Color := "FF0000"

  /** The colour a pending entry is flashed in: one constant per state. */
  function FlashColor(s: State): (c: Color)
    requires s != Unchanged
    ensures c == AddedColor <==> s == Added
    ensures c == RemovedColor <==> s == Deleted
    ensures s == Updated ==> c == UpdatedColor
  {
    assert AddedColor[0] != RemovedColor[0] && UpdatedColor[0] != RemovedColor[0];
    match s
    case Added => AddedColor
    case Updated => UpdatedColor
    case Deleted => RemovedColor
  }

  /** The strip calls of `updatePixels` for entry r at loop index i. Only the
      pending branches are guarded by the strip length. */
  function Step(r: Resource, i: nat, b: real): seq<Event>
  {
    if r.state == Unchanged then [Set(i, r.color, b)]
    else if i >= Pixels then []
    else if r.state == Deleted then [Flash(i, FlashColor(r.state))]
    else [Flash(i, FlashColor(r.state)), Set(i, r.color, b)]
  }

  /** Entry r's calls set pixel p exactly when r is live, p is its index and
      c its colour, and either p is on the strip or r is unchanged. */
  lemma StepSets(r: Resource, i: nat, b: real, p: nat, c: Color, b': real)
    ensures Set(p, c, b') in Step(r, i, b) <==>
      r.state != Deleted && p == i && c == r.color && b' == b && (i < Pixels || r.state == Unchanged)
  {
  }

  /** The strip calls of the sweep of `updatePixels` over `list`, whose first
      entry is looked at with loop index i. */
  function SweepTrace(list: seq<Resource>, i: nat, b: real): seq<Event>
    decreases |list|
  {
    if list == [] then [] else Step(list[0], i, b) + SweepTrace(list[1..], Next(list[0], i), b)
  }

  /** The sweep only flashes and sets, from pixel i on, and flashes only on the strip. */
  lemma {:induction false} SweepFlashesOnStrip(list: seq<Resource>, i: nat, b: real)
    ensures forall e :: e in SweepTrace(list, i, b) ==> (e.Flash? || e.Set?) && i <= e.index
    ensures forall e :: e in SweepTrace(list, i, b) && e.Flash? ==> e.index < Pixels
    decreases |list|
  {
    if list != [] {
      SweepFlashesOnStrip(list[1..], Next(list[0], i), b);
    }
  }

  /** Every strip call of one pass of `updatePixels`. */
  function RenderTrace(list: seq<Resource>, b: real): seq<Event>
  {
    SweepTrace(list, 0, b) + OffFill(|Survivors(list)|) + [Show]
  }

  /** The calls made so far followed by those of the in-place sweep from loop index i on. */
  function InPlaceCalls(list: seq<Resource>, i: nat, calls: seq<Event>, b: real): seq<Event>
    requires i <= |list|
    decreases |list| - i
  {
    if i == |list| then calls
    else if list[i].state == Deleted then InPlaceCalls(list[..i] + list[i + 1..], i, calls + Step(list[i], i, b), b)
    else InPlaceCalls(list[i := Settle(list[i])], i + 1, calls + Step(list[i], i, b), b)
  }

  /** The in-place sweep makes the calls of SweepTrace on the rest of the list. */
  lemma {:induction false} InPlaceSweeps(list: seq<Resource>, i: nat, calls: seq<Event>, b: real)
    requires i <= |list|
    ensures InPlaceCalls(list, i, calls, b) == calls + SweepTrace(list[i..], i, b)
    decreases |list| - i
  {
    if i == |list| {
      assert list[i..] == [];
    } else {
      var r := list[i];
      assert list[i..] == [r] + list[i + 1..];
      Assoc(calls, Step(r, i, b), SweepTrace(list[i + 1..], Next(r, i), b));
      if r.state == Deleted {
        var next := list[..i] + list[i + 1..];
        assert next[i..] == list[i + 1..];
        InPlaceSweeps(next, i, calls + Step(r, i, b), b);
      } else {
        var next := list[i := Settle(r)];
        assert next[i + 1..] == list[i + 1..];
        InPlaceSweeps(next, i + 1, calls + Step(r, i, b), b);
      }
    }
  }

  /** The whole pass, sweep then switch-off loop then Show, leaves the
      survivors and makes the calls of RenderTrace. */
  lemma InPlaceRenders(list: seq<Resource>, calls: seq<Event>, b: real)
    ensures InPlaceList(list, 0) == Survivors(list)
    ensures OffCalls(|InPlaceList(list, 0)|, InPlaceCalls(list, 0, calls, b)) + [Show] == calls + RenderTrace(list, b)
  {
    assert list[..0] == [] && list[0..] == list;
    InPlaceIsFilter(list, 0);
    InPlaceSweeps(list, 0, calls, b);
    var sweep, off := SweepTrace(list, 0, b), OffFill(|Survivors(list)|);
    OffCallsFill(|Survivors(list)|, calls + sweep);
    EventsRegroup(calls, sweep, off, [Show]);
  }

  /** A call made for a later entry is a call of the whole sweep. */
  lemma InSweepTail(list: seq<Resource>, i: nat, b: real, e: Event)
    requires list != [] && e in SweepTrace(list[1..], Next(list[0], i), b)
    ensures e in SweepTrace(list, i, b)
  {
  }

  /** Cascading promotion with the fixed flash colours: a pending entry is
      flashed, in its state's colour, at the pixel its rank gives it. */
  lemma {:induction false} FlashAt(list: seq<Resource>, i: nat, b: real, j: nat)
    requires j < |list| && list[j].state != Unchanged && i + Rank(list, j) < Pixels
    ensures Flash(i + Rank(list, j), FlashColor(list[j].state)) in SweepTrace(list, i, b)
    decreases |list|
  {
    if j > 0 {
      assert list[1..][j - 1] == list[j];
      var k := Next(list[0], i);
      FlashAt(list[1..], k, b, j - 1);
      InSweepTail(list, i, b, Flash(k + Rank(list[1..], j - 1), FlashColor(list[j].state)));
    }
  }

  /** Conversely, every flash of the sweep is for a pending entry, in its
      state's colour, at that entry's rank: unchanged entries are never flashed. */
  lemma {:induction false} FlashOnlyPending(list: seq<Resource>, i: nat, b: real, p: nat, c: Color)
    requires Flash(p, c) in SweepTrace(list, i, b)
    ensures exists j :: 0 <= j < |list| && list[j].state != Unchanged && i + Rank(list, j) == p && FlashColor(list[j].state) == c
    decreases |list|
  {
    var r := list[0];
    if Flash(p, c) in Step(r, i, b) {
      assert list[0].state != Unchanged && i + Rank(list, 0) == p && FlashColor(list[0].state) == c;
    } else {
      FlashOnlyPending(list[1..], Next(r, i), b, p, c);
      var j :| 0 <= j < |list[1..]| && list[1..][j].state != Unchanged && Next(r, i) + Rank(list[1..], j) == p
        && FlashColor(list[1..][j].state) == c;
      assert list[j + 1] == list[1..][j];
      assert i + Rank(list, j + 1) == p;
    }
  }

  /** Every Set of the sweep writes a surviving entry's colour at its
      position, at the brightness of the pass. */
  lemma {:induction false} SetOnlySurvivors(list: seq<Resource>, i: nat, b: real, p: nat, c: Color, b': real)
    requires Set(p, c, b') in SweepTrace(list, i, b)
    ensures i <= p && p - i < |Survivors(list)| && Survivors(list)[p - i].color == c && b' == b
    decreases |list|
  {
    var r := list[0];
    StepSets(r, i, b, p, c, b');
    if Set(p, c, b') !in Step(r, i, b) {
      SetOnlySurvivors(list[1..], Next(r, i), b, p, c, b');
    }
    if r.state != Deleted {
      assert Survivors(list) == [Settle(r)] + Survivors(list[1..]);
    }
  }

  /** On the strip, every surviving entry is written at its position. */
  lemma {:induction false} SetEverySurvivor(list: seq<Resource>, i: nat, b: real, p: nat)
    requires i <= p < Pixels && p - i < |Survivors(list)|
    ensures Set(p, Survivors(list)[p - i].color, b) in SweepTrace(list, i, b)
    decreases |list|
  {
    var r := list[0];
    var rest := Survivors(list[1..]);
    if r.state == Deleted {
      assert Survivors(list) == rest;
      SetEverySurvivor(list[1..], i, b, p);
      InSweepTail(list, i, b, Set(p, rest[p - i].color, b));
    } else {
      assert Survivors(list) == [Settle(r)] + rest;
      if p == i {
        StepSets(r, i, b, p, r.color, b);
        assert SweepTrace(list, i, b) == Step(r, i, b) + SweepTrace(list[1..], i + 1, b);
      } else {
        assert Survivors(list)[p - i] == rest[p - (i + 1)];
        SetEverySurvivor(list[1..], i + 1, b, p);
        InSweepTail(list, i, b, Set(p, rest[p - (i + 1)].color, b));
      }
    }
  }

  /** An unchanged entry is written at its rank even when that is past the
      last pixel: `updatePixels` has no strip-length check on that branch. */
  lemma {:induction false} UnchangedSetAt(list: seq<Resource>, i: nat, b: real, j: nat)
    requires j < |list| && list[j].state == Unchanged
    ensures Set(i + Rank(list, j), list[j].color, b) in SweepTrace(list, i, b)
    decreases |list|
  {
    if j > 0 {
      assert list[1..][j - 1] == list[j];
      var k := Next(list[0], i);
      UnchangedSetAt(list[1..], k, b, j - 1);
      InSweepTail(list, i, b, Set(k + Rank(list[1..], j - 1), list[j].color, b));
    }
  }

  /** In a rendered list every entry's rank is its index. */
  lemma {:induction false} RankOfSettled(list: seq<Resource>, j: nat)
    requires Settled(list) && j <= |list|
    ensures Rank(list, j) == j
  {
    if j > 0 {
      RankOfSettled(list[1..], j - 1);
    }
  }

  /** With more than eight tracked resources, a pass with no event pending
      writes pixel 8, one past the end of the strip. */
  lemma NinthEntryPastStrip(list: seq<Resource>, b: real)
    requires Settled(list) && |list| > Pixels
    ensures Set(Pixels, list[Pixels].color, b) in RenderTrace(list, b)
  {
    RankOfSettled(list, Pixels);
    UnchangedSetAt(list, 0, b, Pixels);
  }

  /** The sweep over a concatenation is the sweep over the first part
      followed by the sweep over the second, which starts at the index the
      first part's survivors leave it. */
  lemma {:induction false} SweepAppend(a: seq<Resource>, t: seq<Resource>, i: nat, b: real)
    ensures SweepTrace(a + t, i, b) == SweepTrace(a, i, b) + SweepTrace(t, i + |Survivors(a)|, b)
    decreases |a|
  {
    if a == [] {
      assert a + t == t;
    } else {
      var r, k := a[0], Next(a[0], i);
      assert (a + t)[0] == r && (a + t)[1..] == a[1..] + t;
      assert SweepTrace(a + t, i, b) == Step(r, i, b) + SweepTrace(a[1..] + t, k, b);
      SweepAppend(a[1..], t, k, b);
      if r.state != Deleted {
        assert Survivors(a) == [Settle(r)] + Survivors(a[1..]);
      }
      assert k + |Survivors(a[1..])| == i + |Survivors(a)|;
      Assoc(Step(r, i, b), SweepTrace(a[1..], k, b), SweepTrace(t, i + |Survivors(a)|, b));
    }
  }

  /** The first pass over eight or more rendered entries and a pending one
      behind them does not write the pending entry's pixel. */
  lemma {:induction false} PendingPastStripUnwritten(prefix: seq<Resource>, r: Resource, b: real)
    requires Settled(prefix) && |prefix| >= Pixels && (r.state == Added || r.state == Updated)
    ensures Set(|prefix|, r.color, b) !in RenderTrace(prefix + [r], b)
  {
    var e := Set(|prefix|, r.color, b);
    var sweep := SweepTrace(prefix, 0, b);
    var off := OffFill(|Survivors(prefix + [r])|);
    SurvivorsOfSettled(prefix);
    SweepAppend(prefix, [r], 0, b);
    assert SweepTrace([r], |prefix|, b) == [];
    assert SweepTrace(prefix + [r], 0, b) == sweep;
    if e in sweep {
      SetOnlySurvivors(prefix, 0, b, |prefix|, r.color, b);
    }
    OffFillOnly(|Survivors(prefix + [r])|);
    assert e !in off;
    assert RenderTrace(prefix + [r], b) == sweep + off + [Show];
  }

  /** The second pass, over the list the first one left, writes that
      entry's pixel: it is now unchanged, and that branch is not guarded. */
  lemma {:induction false} PendingPastStripWrittenNext(prefix: seq<Resource>, r: Resource, b: real)
    requires Settled(prefix) && |prefix| >= Pixels && (r.state == Added || r.state == Updated)
    ensures Set(|prefix|, r.color, b) in RenderTrace(Survivors(prefix + [r]), b)
  {
    SurvivorsOfSettled(prefix);
    SurvivorsAppend(prefix, [r]);
    var after := Survivors(prefix + [r]);
    assert Survivors([r]) == [Settle(r)];
    assert after == prefix + [Settle(r)];
    RankOfSettled(after, |prefix|);
    UnchangedSetAt(after, 0, b, |prefix|);
    var sweep := SweepTrace(after, 0, b);
    assert after[|prefix|].color == r.color;
    assert Set(|prefix|, r.color, b) in sweep;
    assert RenderTrace(after, b) == sweep + OffFill(|Survivors(after)|) + [Show];
  }

  /** A second pass does not only drop the first pass's flashes: a pending
      entry past the last pixel is not written by the first pass, which
      guards that branch, but is written by the second, once it is unchanged. */
  lemma {:induction false} SecondPassSetsPastStrip(prefix: seq<Resource>, r: Resource, b: real)
    requires Settled(prefix) && |prefix| >= Pixels && (r.state == Added || r.state == Updated)
    ensures Set(|prefix|, r.color, b) !in RenderTrace(prefix + [r], b)
    ensures Set(|prefix|, r.color, b) in RenderTrace(Survivors(prefix + [r]), b)
  {
    PendingPastStripUnwritten(prefix, r, b);
    PendingPastStripWrittenNext(prefix, r, b);
  }

  /** Flashes and switch-offs stay on the strip, and the pass ends with its one Show. */
  lemma RenderWindow(list: seq<Resource>, b: real)
    ensures var t := RenderTrace(list, b);
      |t| > 0 && t[|t| - 1] == Show && Show !in t[..|t| - 1] &&
      forall e :: e in t && (e.Flash? || e.Off?) ==> e.index < Pixels
  {
    var t := RenderTrace(list, b);
    SweepFlashesOnStrip(list, 0, b);
    OffFillOnly(|Survivors(list)|);
    assert t[..|t| - 1] == SweepTrace(list, 0, b) + OffFill(|Survivors(list)|);
  }

  /** Pixel p is switched off exactly when no surviving entry is rendered on it. */
  lemma RenderOffFill(list: seq<Resource>, b: real, p: nat)
    ensures Off(p) in RenderTrace(list, b) <==> |Survivors(list)| <= p < Pixels
  {
    SweepFlashesOnStrip(list, 0, b);
    OffFillCovers(|Survivors(list)|, p);
  }

  /** Sweeping a rendered list flashes nothing. */
  lemma {:induction false} SettledSweepQuiet(list: seq<Resource>, i: nat, b: real)
    requires Settled(list)
    ensures forall e :: e in SweepTrace(list, i, b) ==> !e.Flash?
    decreases |list|
  {
    if list != [] {
      SettledSweepQuiet(list[1..], i + 1, b);
    }
  }

  /** A second pass with no event in between keeps the list and flashes nothing. */
  lemma SecondPassQuiet(list: seq<Resource>, b: real)
    ensures Survivors(Survivors(list)) == Survivors(list)
    ensures forall e :: e in RenderTrace(Survivors(list), b) ==> !e.Flash?
  {
    SurvivorsIdempotent(list);
    SettledSweepQuiet(Survivors(list), 0, b);
    OffFillOnly(|Survivors(Survivors(list))|);
  }

  /** The daemon: the resource list, and the calls made on the strip so far. */
  class BlinktDaemon {
    const brightness: real
    var resourceList: seq<Resource>
    ghost var strip: seq<Event>

    /** Between two events every entry has been rendered. */
    ghost predicate Valid()
      reads this
    {
      Settled(resourceList)
    }

    constructor (brightness: real)
      ensures this.brightness == brightness && resourceList == [] && strip == []
      ensures Valid()
    {
      this.brightness := brightness;
      resourceList := [];
      strip := [];
    }

    /** Index of the first entry named `name` (getResource returns a pointer to it), or None. */
    method GetResource(name: string) returns (r: Option<nat>)
      ensures r == Find(resourceList, name)
    {
      var i := 0;
      while i < |resourceList|
        invariant 0 <= i <= |resourceList|
        invariant forall j :: 0 <= j < i ==> resourceList[j].name != name
      {
        if resourceList[i].name == name {
          return Some(i);
        }
        i := i + 1;
      }
      return None;
    }

    /** The render pass `updatePixels`. */
    method UpdatePixels()
      modifies this
      ensures resourceList == Survivors(old(resourceList))
      ensures strip == old(strip) + RenderTrace(old(resourceList), brightness)
    {
      ghost var orig := resourceList;
      ghost var kept, calls := InPlaceList(orig, 0), InPlaceCalls(orig, 0, strip, brightness);
      var i: int := 0;
      while i < |resourceList|
        invariant 0 <= i <= |resourceList|
        invariant InPlaceList(resourceList, i) == kept
        invariant InPlaceCalls(resourceList, i, strip, brightness) == calls
        decreases |resourceList| - i
      {
        var r := resourceList[i];
        ghost var before := strip;
        if r.state == Added || r.state == Updated {
          if i < Pixels {
            strip := strip + [Flash(i, FlashColor(r.state)), Set(i, r.color, brightness)];
          }
          resourceList := resourceList[i := r.(state := Unchanged)];
          assert strip == before + Step(r, i, brightness);
        } else if r.state == Deleted {
          if i < Pixels {
            strip := strip + [Flash(i, FlashColor(r.state))];
          }
          resourceList := resourceList[..i] + resourceList[i + 1..];
          i := i - 1;
          assert strip == before + Step(r, i + 1, brightness);
        } else {
          strip := strip + [Set(i, r.color, brightness)];
          assert resourceList[i := Settle(r)] == resourceList;
          assert strip == before + Step(r, i, brightness);
        }
        i := i + 1;
      }
      ghost var sweep := strip;
      ghost var n := |resourceList|;
      assert resourceList == kept && sweep == calls;
      while i < Pixels
        invariant n <= i
        invariant resourceList == kept && n == |resourceList|
        invariant OffCalls(i, strip) == OffCalls(n, sweep)
      {
        strip := strip + [Off(i)];
        i := i + 1;
      }
      assert strip == OffCalls(n, calls);
      strip := strip + [Show];
      InPlaceRenders(orig, old(strip), brightness);
    }

    /** `addPod` and `addNode`: append a new entry, even for a name already
        tracked, and render. */
    method Add(name: string, color: Color)
      modifies this
      ensures resourceList == Survivors(old(resourceList) + [Resource(name, color, Added)])
      ensures strip == old(strip) + RenderTrace(old(resourceList) + [Resource(name, color, Added)], brightness)
      ensures Valid()
      ensures old(Valid()) ==> resourceList == old(resourceList) + [Resource(name, color, Unchanged)]
    {
      resourceList := resourceList + [Resource(name, color, Added)];
      UpdatePixels();
      if old(Valid()) {
        AddAppends(old(resourceList), name, color);
      }
    }

    /** `updateNode`: recolour the first entry with that name and render; an
        unknown name or an identical colour changes nothing and renders nothing. */
    method UpdateNode(name: string, color: Color)
      modifies this
      ensures var j := Find(old(resourceList), name);
        if j.Some? && old(resourceList)[j.value].color != color then
          var marked := old(resourceList)[j.value := Resource(name, color, Updated)];
          resourceList == Survivors(marked) && strip == old(strip) + RenderTrace(marked, brightness)
        else
          resourceList == old(resourceList) && strip == old(strip)
      ensures old(Valid()) ==> Valid()
      ensures var j := Find(old(resourceList), name);
        old(Valid()) && j.Some? ==> resourceList == old(resourceList)[j.value := Resource(name, color, Unchanged)]
    {
      var j := GetResource(name);
      if j == None {
        return;
      }
      if color != resourceList[j.value].color {
        resourceList := resourceList[j.value := resourceList[j.value].(color := color, state := Updated)];
        UpdatePixels();
        if old(Valid()) {
          RecolorInPlace(old(resourceList), j.value, color);
        }
      } else if old(Valid()) {
        assert old(resourceList)[j.value] == Resource(name, color, Unchanged);
        assert old(resourceList)[j.value := Resource(name, color, Unchanged)] == old(resourceList);
      }
    }

    /** `updatePod` as written: the lookup's nil result is logged but not
        returned on, so an unknown name reaches the colour comparison through
        a nil pointer; `faulted` reports that dereference, and nothing changes.
        A known name is handled as by UpdateNode. */
    method UpdatePod(name: string, color: Color) returns (faulted: bool)
      modifies this
      ensures faulted <==> Find(old(resourceList), name).None?
      ensures faulted ==> resourceList == old(resourceList) && strip == old(strip)
      ensures var j := Find(old(resourceList), name);
        j.Some? && old(resourceList)[j.value].color != color ==>
          var marked := old(resourceList)[j.value := Resource(name, color, Updated)];
          resourceList == Survivors(marked) && strip == old(strip) + RenderTrace(marked, brightness)
      ensures var j := Find(old(resourceList), name);
        j.Some? && old(resourceList)[j.value].color == color ==>
          resourceList == old(resourceList) && strip == old(strip)
    {
      var j := GetResource(name);
      if j == None {
        return true;
      }
      faulted := false;
      if color != resourceList[j.value].color {
        resourceList := resourceList[j.value := resourceList[j.value].(color := color, state := Updated)];
        UpdatePixels();
      }
    }

    /** `removePod` and `removeNode`: mark the first entry with that name
        removed and render, which splices it out; an unknown name changes
        nothing and renders nothing. */
    method Remove(name: string)
      modifies this
      ensures var j := Find(old(resourceList), name);
        if j.Some? then
          var marked := old(resourceList)[j.value := old(resourceList)[j.value].(state := Deleted)];
          resourceList == Survivors(marked) && strip == old(strip) + RenderTrace(marked, brightness)
        else
          resourceList == old(resourceList) && strip == old(strip)
      ensures old(Valid()) ==> Valid()
      ensures var j := Find(old(resourceList), name);
        old(Valid()) && j.Some? ==> resourceList == old(resourceList)[..j.value] + old(resourceList)[j.value + 1..]
    {
      var j := GetResource(name);
      if j == None {
        return;
      }
      resourceList := resourceList[j.value := resourceList[j.value].(state := Deleted)];
      UpdatePixels();
      if old(Valid()) {
        DeleteSplices(old(resourceList), j.value);
      }
    }
  }

  /** An update event for a pod the daemon does not track faults. */
  method UnknownPodUpdateFaults() returns (faulted: bool)
    ensures faulted
  {
    var d := new BlinktDaemon(1.0);
    faulted := d.UpdatePod("web-0", "FF00FF");
  }
}
