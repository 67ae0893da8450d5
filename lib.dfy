/** lib/lib.go: the controller object of the shared library. Its mutators
    report whether they changed anything, and every change is followed by
    one render pass, `updateBlinkt`, over the whole resource list. */
module Lib {
  import opened Blinkt
  import opened Registry

  /** The strip calls the sweep makes for entry r when its loop index is i:
      a flash blinks in the entry's own colour, and nothing is sent for an
      index past the last pixel. */
  function Step(r: Resource, i: nat, b: real): seq<Event>
  {
    if i >= Pixels then []
    else if r.state == Added || r.state == Updated then [Flash(i, r.color), Set(i, r.color, b)]
    else if r.state == Deleted then [Flash(i, r.color)]
    else [Set(i, r.color, b)]
  }

  /** Entry r's calls set pixel p exactly when r is live, p is its index on the strip, and c its colour. */
  lemma StepSets(r: Resource, i: nat, b: real, p: nat, c: Color, b': real)
    ensures Set(p, c, b') in Step(r, i, b) <==> r.state != Deleted && p == i < Pixels && c == r.color && b' == b
  {
  }

  /** The strip calls of the sweep of a render pass over `list`, whose first
      entry is looked at with loop index i. */
  function SweepTrace(list: seq<Resource>, i: nat, b: real): seq<Event>
    decreases |list|
  {
    if list == [] then [] else Step(list[0], i, b) + SweepTrace(list[1..], Next(list[0], i), b)
  }

  /** The sweep only flashes and sets, and only pixels from i up to the last one. */
  lemma {:induction false} SweepOnStrip(list: seq<Resource>, i: nat, b: real)
    ensures forall e :: e in SweepTrace(list, i, b) ==> (e.Flash? || e.Set?) && i <= e.index < Pixels
    decreases |list|
  {
    if list != [] {
      SweepOnStrip(list[1..], Next(list[0], i), b);
    }
  }

  /** Every strip call of one render pass: the sweep, the switching off of
      the pixels left without an entry, and the final Show. */
  function RenderTrace(list: seq<Resource>, b: real): seq<Event>
  {
    SweepTrace(list, 0, b) + OffFill(|Survivors(list)|) + [Show]
  }

  /** A call made for a later entry is a call of the whole sweep. */
  lemma InSweepTail(list: seq<Resource>, i: nat, b: real, e: Event)
    requires list != [] && e in SweepTrace(list[1..], Next(list[0], i), b)
    ensures e in SweepTrace(list, i, b)
  {
  }

  /** Every Set of the sweep is on the strip and writes a surviving entry's
      colour at its position, at the brightness of the pass. */
  lemma {:induction false} SetOnlySurvivors(list: seq<Resource>, i: nat, b: real, p: nat, c: Color, b': real)
    requires Set(p, c, b') in SweepTrace(list, i, b)
    ensures i <= p < Pixels && p - i < |Survivors(list)| && Survivors(list)[p - i].color == c && b' == b
    decreases |list|
  {
    var r := list[0];
    StepSets(r, i, b, p, c, b');
    if Set(p, c, b') !in Step(r, i, b) {
      SetOnlySurvivors(list[1..], Next(r, i), b, p, c, b');
    }
    if r.state != Deleted {
      assert Survivors(list) == [Settle(r)] + Survivors(list[1..]);
    }
  }

  /** Every surviving entry whose position is on the strip is set there. */
  lemma {:induction false} SetEverySurvivor(list: seq<Resource>, i: nat, b: real, p: nat)
    requires i <= p < Pixels && p - i < |Survivors(list)|
    ensures Set(p, Survivors(list)[p - i].color, b) in SweepTrace(list, i, b)
    decreases |list|
  {
    var r := list[0];
    var rest := Survivors(list[1..]);
    if r.state == Deleted {
      assert Survivors(list) == rest;
      SetEverySurvivor(list[1..], i, b, p);
      InSweepTail(list, i, b, Set(p, rest[p - i].color, b));
    } else {
      assert Survivors(list) == [Settle(r)] + rest;
      if p == i {
        StepSets(r, i, b, p, r.color, b);
        assert SweepTrace(list, i, b) == Step(r, i, b) + SweepTrace(list[1..], i + 1, b);
      } else {
        assert Survivors(list)[p - i] == rest[p - (i + 1)];
        SetEverySurvivor(list[1..], i + 1, b, p);
        InSweepTail(list, i, b, Set(p, rest[p - (i + 1)].color, b));
      }
    }
  }

  /** Cascading promotion: every entry that is not unchanged is flashed at the
      pixel its rank among the survivors gives it, so an entry sitting behind
      a deleted one is flashed one pixel further to the front, in the same pass. */
  lemma {:induction false} FlashAt(list: seq<Resource>, i: nat, b: real, j: nat)
    requires j < |list| && list[j].state != Unchanged && i + Rank(list, j) < Pixels
    ensures Flash(i + Rank(list, j), list[j].color) in SweepTrace(list, i, b)
    decreases |list|
  {
    if j > 0 {
      assert list[1..][j - 1] == list[j];
      var k := Next(list[0], i);
      FlashAt(list[1..], k, b, j - 1);
      InSweepTail(list, i, b, Flash(k + Rank(list[1..], j - 1), list[j].color));
    }
  }

  /** Conversely, every flash of the sweep is for a pending entry, in its
      own colour, at that entry's rank: unchanged entries are never flashed. */
  lemma {:induction false} FlashOnlyPending(list: seq<Resource>, i: nat, b: real, p: nat, c: Color)
    requires Flash(p, c) in SweepTrace(list, i, b)
    ensures exists j :: 0 <= j < |list| && list[j].state != Unchanged && i + Rank(list, j) == p && list[j].color == c
    decreases |list|
  {
    var r := list[0];
    if Flash(p, c) in Step(r, i, b) {
      assert list[0].state != Unchanged && i + Rank(list, 0) == p && list[0].color == c;
    } else {
      FlashOnlyPending(list[1..], Next(r, i), b, p, c);
      var j :| 0 <= j < |list[1..]| && list[1..][j].state != Unchanged && Next(r, i) + Rank(list[1..], j) == p
        && list[1..][j].color == c;
      assert list[j + 1] == list[1..][j];
      assert i + Rank(list, j + 1) == p;
    }
  }

  /** An entry that has been rendered is sent its Set again, and no flash. */
  lemma StepAgain(r: Resource, i: nat, b: real)
    requires r.state != Deleted
    ensures Step(Settle(r), i, b) == WithoutFlashes(Step(r, i, b))
  {
  }

  /** Sweeping a list that has already been rendered makes the calls of the
      first sweep with the flashes left out. */
  lemma {:induction false} SweepAgain(list: seq<Resource>, i: nat, b: real)
    ensures SweepTrace(Survivors(list), i, b) == WithoutFlashes(SweepTrace(list, i, b))
    decreases |list|
  {
    if list != [] {
      var r := list[0];
      WithoutFlashesAppend(Step(r, i, b), SweepTrace(list[1..], Next(r, i), b));
      SweepAgain(list[1..], Next(r, i), b);
      if r.state != Deleted {
        var s := Survivors(list);
        assert s[0] == Settle(r) && s[1..] == Survivors(list[1..]);
        StepAgain(r, i, b);
      }
    }
  }

  /** A render pass touches only pixels 0..7 and ends with its one Show. */
  lemma RenderWindow(list: seq<Resource>, b: real)
    ensures var t := RenderTrace(list, b);
      |t| > 0 && t[|t| - 1] == Show && Show !in t[..|t| - 1] &&
      forall e :: e in t ==> OnStrip(e)
  {
    var t := RenderTrace(list, b);
    SweepOnStrip(list, 0, b);
    OffFillOnly(|Survivors(list)|);
    assert t[..|t| - 1] == SweepTrace(list, 0, b) + OffFill(|Survivors(list)|);
  }

  /** Pixel p is switched off exactly when no surviving entry is rendered on it. */
  lemma RenderOffFill(list: seq<Resource>, b: real, p: nat)
    ensures Off(p) in RenderTrace(list, b) <==> |Survivors(list)| <= p < Pixels
  {
    SweepOnStrip(list, 0, b);
    OffFillCovers(|Survivors(list)|, p);
  }

  /** Idempotence: a second pass with no event in between keeps the list,
      flashes nothing, and makes the first pass's Set, Off and Show calls in
      the same order. */
  lemma RenderIdempotent(list: seq<Resource>, b: real)
    ensures Survivors(Survivors(list)) == Survivors(list)
    ensures RenderTrace(Survivors(list), b) == WithoutFlashes(RenderTrace(list, b))
    ensures forall e :: e in RenderTrace(Survivors(list), b) ==> !e.Flash?
  {
    SurvivorsIdempotent(list);
    SweepAgain(list, 0, b);
    var off := OffFill(|Survivors(list)|);
    WithoutFlashesAppend(SweepTrace(list, 0, b) + off, [Show]);
    WithoutFlashesAppend(SweepTrace(list, 0, b), off);
    OffFillOnly(|Survivors(list)|);
    WithoutFlashesKeeps(off);
    WithoutFlashesKeeps([Show]);
  }

  /** The strip calls made so far, `calls`, followed by those of the
      render loop's in-place sweep from loop index i on. */
  function InPlaceCalls(list: seq<Resource>, i: nat, calls: seq<Event>, b: real): seq<Event>
    requires i <= |list|
    decreases |list| - i
  {
    if i == |list| then calls
    else if list[i].state == Deleted then InPlaceCalls(list[..i] + list[i + 1..], i, calls + Step(list[i], i, b), b)
    else InPlaceCalls(list[i := Settle(list[i])], i + 1, calls + Step(list[i], i, b), b)
  }

  /** The in-place sweep makes the calls of SweepTrace on what is left of
      the list from slot i on: no entry is skipped and none is visited twice. */
  lemma {:induction false} InPlaceSweeps(list: seq<Resource>, i: nat, calls: seq<Event>, b: real)
    requires i <= |list|
    ensures InPlaceCalls(list, i, calls, b) == calls + SweepTrace(list[i..], i, b)
    decreases |list| - i
  {
    if i == |list| {
      assert list[i..] == [];
    } else {
      var r := list[i];
      assert list[i..] == [r] + list[i + 1..];
      Assoc(calls, Step(r, i, b), SweepTrace(list[i + 1..], Next(r, i), b));
      if r.state == Deleted {
        var next := list[..i] + list[i + 1..];
        assert next[i..] == list[i + 1..];
        InPlaceSweeps(next, i, calls + Step(r, i, b), b);
      } else {
        var next := list[i := Settle(r)];
        assert next[i + 1..] == list[i + 1..];
        InPlaceSweeps(next, i + 1, calls + Step(r, i, b), b);
      }
    }
  }

  /** The whole in-place pass, sweep then switch-off loop then Show, leaves
      the survivors and makes the calls of RenderTrace. */
  lemma InPlaceRenders(list: seq<Resource>, calls: seq<Event>, b: real)
    ensures InPlaceList(list, 0) == Survivors(list)
    ensures OffCalls(|InPlaceList(list, 0)|, InPlaceCalls(list, 0, calls, b)) + [Show] == calls + RenderTrace(list, b)
  {
    assert list[..0] == [] && list[0..] == list;
    InPlaceIsFilter(list, 0);
    InPlaceSweeps(list, 0, calls, b);
    var sweep, off := SweepTrace(list, 0, b), OffFill(|Survivors(list)|);
    OffCallsFill(|Survivors(list)|, calls + sweep);
    EventsRegroup(calls, sweep, off, [Show]);
  }

  /** The controller object: the resource list, and the calls made on the strip so far. */
  class ControllerObj {
    const brightness: real
    var resourceList: seq<Resource>
    ghost var strip: seq<Event>

    /** Between two events every entry has been rendered. */
    ghost predicate Valid()
      reads this
    {
      Settled(resourceList)
    }

    constructor (brightness: real)
      ensures this.brightness == brightness && resourceList == [] && strip == []
      ensures Valid()
    {
      this.brightness := brightness;
      resourceList := [];
      strip := [];
    }

    /** Index of the first entry named `name` (getResource returns a pointer to it), or None. */
    method GetResource(name: string) returns (r: Option<nat>)
      ensures r == Find(resourceList, name)
    {
      var i := 0;
      while i < |resourceList|
        invariant 0 <= i <= |resourceList|
        invariant forall j :: 0 <= j < i ==> resourceList[j].name != name
      {
        if resourceList[i].name == name {
          return Some(i);
        }
        i := i + 1;
      }
      return None;
    }

    /** The render pass: one left-to-right sweep that flashes and sets new or
        recoloured entries, flashes and splices out deleted ones (looking at
        the entry that moves into the freed slot in the same sweep), refreshes
        unchanged ones, then switches off the unused pixels and shows the frame. */
    method UpdateBlinkt()
      modifies this
      ensures resourceList == Survivors(old(resourceList))
      ensures strip == old(strip) + RenderTrace(old(resourceList), brightness)
    {
      ghost var orig := resourceList;
      ghost var kept, calls := InPlaceList(orig, 0), InPlaceCalls(orig, 0, strip, brightness);
      var i: int := 0;
      while i < |resourceList|
        invariant 0 <= i <= |resourceList|
        invariant InPlaceList(resourceList, i) == kept
        invariant InPlaceCalls(resourceList, i, strip, brightness) == calls
        decreases |resourceList| - i
      {
        var r := resourceList[i];
        ghost var before := strip;
        if r.state == Added || r.state == Updated {
          if i < Pixels {
            strip := strip + [Flash(i, r.color), Set(i, r.color, brightness)];
          }
          resourceList := resourceList[i := r.(state := Unchanged)];
          assert strip == before + Step(r, i, brightness);
        } else if r.state == Deleted {
          if i < Pixels {
            strip := strip + [Flash(i, r.color)];
          }
          resourceList := resourceList[..i] + resourceList[i + 1..];
          i := i - 1;
          assert strip == before + Step(r, i + 1, brightness);
        } else {
          if i < Pixels {
            strip := strip + [Set(i, r.color, brightness)];
          }
          assert resourceList[i := Settle(r)] == resourceList;
          assert strip == before + Step(r, i, brightness);
        }
        i := i + 1;
      }
      ghost var sweep := strip;
      ghost var n := |resourceList|;
      assert resourceList == kept && sweep == calls;
      while i < Pixels
        invariant n <= i
        invariant resourceList == kept && n == |resourceList|
        invariant OffCalls(i, strip) == OffCalls(n, sweep)
      {
        strip := strip + [Off(i)];
        i := i + 1;
      }
      assert strip == OffCalls(n, calls);
      strip := strip + [Show];
      InPlaceRenders(orig, old(strip), brightness);
    }

    /** Add always appends a fresh entry, even for a name already tracked, and renders. */
    method Add(name: string, color: Color) returns (changed: bool)
      modifies this
      ensures changed
      ensures resourceList == Survivors(old(resourceList) + [Resource(name, color, Added)])
      ensures strip == old(strip) + RenderTrace(old(resourceList) + [Resource(name, color, Added)], brightness)
      ensures Valid()
      ensures old(Valid()) ==> resourceList == old(resourceList) + [Resource(name, color, Unchanged)]
    {
      resourceList := resourceList + [Resource(name, color, Added)];
      UpdateBlinkt();
      changed := true;
      if old(Valid()) {
        AddAppends(old(resourceList), name, color);
      }
    }

    /** Update recolours the first entry with that name and renders; an
        unknown name or an identical colour changes nothing and renders nothing. */
    method Update(name: string, color: Color) returns (changed: bool)
      modifies this
      ensures var j := Find(old(resourceList), name);
        changed <==> j.Some? && old(resourceList)[j.value].color != color
      ensures !changed ==> resourceList == old(resourceList) && strip == old(strip)
      ensures changed ==>
        var marked := old(resourceList)[Find(old(resourceList), name).value := Resource(name, color, Updated)];
        resourceList == Survivors(marked) && strip == old(strip) + RenderTrace(marked, brightness)
      ensures old(Valid()) ==> Valid()
      ensures old(Valid()) && changed ==>
        resourceList == old(resourceList)[Find(old(resourceList), name).value := Resource(name, color, Unchanged)]
    {
      var j := GetResource(name);
      if j == None || color == resourceList[j.value].color {
        return false;
      }
      resourceList := resourceList[j.value := resourceList[j.value].(color := color, state := Updated)];
      UpdateBlinkt();
      changed := true;
      if old(Valid()) {
        RecolorInPlace(old(resourceList), j.value, color);
      }
    }

    /** Delete marks the first entry with that name deleted and renders, which
        splices it out; an unknown name changes nothing and renders nothing. */
    method Delete(name: string) returns (changed: bool)
      modifies this
      ensures changed <==> Find(old(resourceList), name).Some?
      ensures !changed ==> resourceList == old(resourceList) && strip == old(strip)
      ensures changed ==>
        var j := Find(old(resourceList), name).value;
        var marked := old(resourceList)[j := old(resourceList)[j].(state := Deleted)];
        resourceList == Survivors(marked) && strip == old(strip) + RenderTrace(marked, brightness)
      ensures changed ==> Valid()
      ensures old(Valid()) ==> Valid()
      ensures old(Valid()) && changed ==>
        var j := Find(old(resourceList), name).value;
        resourceList == old(resourceList)[..j] + old(resourceList)[j + 1..]
    {
      var j := GetResource(name);
      if j == None {
        return false;
      }
      resourceList := resourceList[j.value := resourceList[j.value].(state := Deleted)];
      UpdateBlinkt();
      changed := true;
      if old(Valid()) {
        DeleteSplices(old(resourceList), j.value);
      }
    }
  }
}
