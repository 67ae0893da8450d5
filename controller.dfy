/** controller/controller.go: the engine with a time-to-live. Every entry
    carries the time of its last add or update; the render pass forces an
    entry older than three resync periods to deleted before looking at its
    state, so resources the informer stopped reporting fade out. Update on an
    unknown name adds it. Times and durations are integers in one unit. */
module Controller {
  import opened Blinkt
  import Registry
  import Lib

  datatype Resource = Resource(name: string, color: Color, state: State, updated: int)

  /** The entry with its timestamp dropped: the library's resource. */
  function Untimed(r: Resource): Registry.Resource
  {
    Registry.Resource(r.name, r.color, r.state)
  }

  function UntimedAll(list: seq<Resource>): (u: seq<Registry.Resource>)
    ensures |u| == |list| && forall k :: 0 <= k < |list| ==> u[k] == Untimed(list[k])
  {
    if list == [] then [] else [Untimed(list[0])] + UntimedAll(list[1..])
  }

  /** The oldest timestamp a pass at time `now` keeps: `now - 3 * resyncPeriod`. */
  function Cutoff(now: int, resyncPeriod: int): int
  {
    now - 3 * resyncPeriod
  }

  /** `r.updated.Before(cutoff)`: strictly older than the cutoff. */
  predicate Stale(r: Resource, cutoff: int)
  {
    r.updated < cutoff
  }

  /** The entry as the switch of the render loop sees it: a stale entry is
      forced to deleted, whatever its state. */
  function Expire(r: Resource, cutoff: int): (e: Resource)
    ensures e.state == Deleted <==> r.state == Deleted || Stale(r, cutoff)
    ensures e.name == r.name && e.color == r.color && e.updated == r.updated
    ensures !Stale(r, cutoff) ==> e == r
  {
    if Stale(r, cutoff) then r.(state := Deleted) else r
  }

  function ExpireAll(list: seq<Resource>, cutoff: int): (x: seq<Resource>)
    ensures |x| == |list| && forall k :: 0 <= k < |list| ==> x[k] == Expire(list[k], cutoff)
  {
    if list == [] then [] else [Expire(list[0], cutoff)] + ExpireAll(list[1..], cutoff)
  }

  function Settle(r: Resource): Resource
  {
    r.(state := Unchanged)
  }

  predicate Settled(list: seq<Resource>)
  {
    forall k :: 0 <= k < |list| ==> list[k].state == Unchanged
  }

  /** The list a pass with the given cutoff leaves: deleted and stale
      entries spliced out, the others kept in order, with their timestamps,
      and marked unchanged. */
  function Survivors(list: seq<Resource>, cutoff: int): (s: seq<Resource>)
    ensures |s| <= |list|
    ensures Settled(s)
    ensures forall k :: 0 <= k < |s| ==> !Stale(s[k], cutoff)
  {
    if list == [] then []
    else if Expire(list[0], cutoff).state == Deleted then Survivors(list[1..], cutoff)
    else [Settle(list[0])] + Survivors(list[1..], cutoff)
  }

  /** Every strip call of one pass: the library's pass over the list as the
      loop's switch sees it, stale entries forced to deleted. */
  function RenderTrace(list: seq<Resource>, cutoff: int, b: real): seq<Event>
  {
    Lib.RenderTrace(UntimedAll(ExpireAll(list, cutoff)), b)
  }

  /** Without timestamps, the survivors are the library's survivors of the
      expired list: the time-to-live only adds deletions. */
  lemma {:induction false} SurvivorsUntimed(list: seq<Resource>, cutoff: int)
    ensures UntimedAll(Survivors(list, cutoff)) == Registry.Survivors(UntimedAll(ExpireAll(list, cutoff)))
  {
    if list != [] {
      var u := UntimedAll(ExpireAll(list, cutoff));
      assert u[0] == Untimed(Expire(list[0], cutoff));
      assert u[1..] == UntimedAll(ExpireAll(list[1..], cutoff));
      SurvivorsUntimed(list[1..], cutoff);
      if Expire(list[0], cutoff).state != Deleted {
        var s := Survivors(list, cutoff);
        assert UntimedAll(s) == [Untimed(s[0])] + UntimedAll(s[1..]);
      }
    }
  }

  /** With no entry past its time, a pass is exactly the library's pass. */
  lemma {:induction false} FreshListRendersAsLib(list: seq<Resource>, cutoff: int, b: real)
    requires forall k :: 0 <= k < |list| ==> !Stale(list[k], cutoff)
    ensures ExpireAll(list, cutoff) == list
    ensures UntimedAll(Survivors(list, cutoff)) == Registry.Survivors(UntimedAll(list))
    ensures RenderTrace(list, cutoff, b) == Lib.RenderTrace(UntimedAll(list), b)
  {
    SurvivorsUntimed(list, cutoff);
  }

  lemma {:induction false} SurvivorsAppend(a: seq<Resource>, c: seq<Resource>, cutoff: int)
    ensures Survivors(a + c, cutoff) == Survivors(a, cutoff) + Survivors(c, cutoff)
  {
    if a == [] {
      assert a + c == c;
    } else {
      assert (a + c)[0] == a[0];
      assert (a + c)[1..] == a[1..] + c;
      SurvivorsAppend(a[1..], c, cutoff);
    }
  }

  /** A live entry with a timestamp no older than the cutoff survives the
      pass, settled, with its timestamp. */
  lemma {:induction false} LiveEntrySurvives(list: seq<Resource>, cutoff: int, j: nat)
    requires j < |list| && list[j].state != Deleted && !Stale(list[j], cutoff)
    ensures Settle(list[j]) in Survivors(list, cutoff)
  {
    if j > 0 {
      assert list[1..][j - 1] == list[j];
      LiveEntrySurvives(list[1..], cutoff, j - 1);
    }
  }

  /** A pass a second time with the same cutoff keeps the list. */
  lemma {:induction false} SurvivorsIdempotent(list: seq<Resource>, cutoff: int)
    ensures Survivors(Survivors(list, cutoff), cutoff) == Survivors(list, cutoff)
  {
    if list != [] {
      SurvivorsIdempotent(list[1..], cutoff);
      var s := Survivors(list, cutoff);
      if Expire(list[0], cutoff).state != Deleted {
        assert s[0] == Settle(list[0]) && s[1..] == Survivors(list[1..], cutoff);
      }
    }
  }

  /** A pass a second time with the same cutoff keeps the list and makes
      the first pass's calls with the flashes left out. */
  lemma RenderIdempotent(list: seq<Resource>, cutoff: int, b: real)
    ensures Survivors(Survivors(list, cutoff), cutoff) == Survivors(list, cutoff)
    ensures RenderTrace(Survivors(list, cutoff), cutoff, b) == WithoutFlashes(RenderTrace(list, cutoff, b))
  {
    SurvivorsIdempotent(list, cutoff);
    var s := Survivors(list, cutoff);
    FreshListRendersAsLib(s, cutoff, b);
    SurvivorsUntimed(list, cutoff);
    Lib.RenderIdempotent(UntimedAll(ExpireAll(list, cutoff)), b);
  }

  /** Every call but the last is for a pixel on the strip, and the pass
      ends with its one Show. */
  lemma RenderWindow(list: seq<Resource>, cutoff: int, b: real)
    ensures var t := RenderTrace(list, cutoff, b);
      |t| > 0 && t[|t| - 1] == Show && Show !in t[..|t| - 1] &&
      forall e :: e in t ==> OnStrip(e)
  {
    Lib.RenderWindow(UntimedAll(ExpireAll(list, cutoff)), b);
  }

  /** Pixel p is switched off exactly when no survivor is rendered on it. */
  lemma RenderOffFill(list: seq<Resource>, cutoff: int, b: real, p: nat)
    ensures Off(p) in RenderTrace(list, cutoff, b) <==> |Survivors(list, cutoff)| <= p < Pixels
  {
    Lib.RenderOffFill(UntimedAll(ExpireAll(list, cutoff)), b, p);
    SurvivorsUntimed(list, cutoff);
  }

  /** An entry that has outlived three resync periods is flashed at its
      rank and is gone after the pass, whatever its state was. */
  lemma StaleEntryEvicted(list: seq<Resource>, cutoff: int, b: real, j: nat)
    requires j < |list| && Stale(list[j], cutoff)
    requires Registry.Rank(UntimedAll(ExpireAll(list, cutoff)), j) < Pixels
    ensures Flash(Registry.Rank(UntimedAll(ExpireAll(list, cutoff)), j), list[j].color) in RenderTrace(list, cutoff, b)
    ensures forall k :: 0 <= k < |Survivors(list, cutoff)| ==> !Stale(Survivors(list, cutoff)[k], cutoff)
  {
    var u := UntimedAll(ExpireAll(list, cutoff));
    assert u[j] == Untimed(Expire(list[j], cutoff));
    var f := Flash(0 + Registry.Rank(u, j), u[j].color);
    Lib.FlashAt(u, 0, b, j);
    var sweep := Lib.SweepTrace(u, 0, b);
    assert f in sweep;
    assert Expire(list[j], cutoff).color == list[j].color;
    assert f == Flash(Registry.Rank(u, j), list[j].color);
    assert RenderTrace(list, cutoff, b) == sweep + OffFill(|Registry.Survivors(u)|) + [Show];
  }

  /** The list left by the in-place sweep from loop index i on, the time-to-live
      check applied to each entry just before its state is looked at. */
  function InPlaceList(list: seq<Resource>, i: nat, cutoff: int): seq<Resource>
    requires i <= |list|
    decreases |list| - i
  {
    if i == |list| then list
    else if Expire(list[i], cutoff).state == Deleted then InPlaceList(list[..i] + list[i + 1..], i, cutoff)
    else InPlaceList(list[i := Settle(list[i])], i + 1, cutoff)
  }

  /** The calls made so far followed by those of the in-place sweep from loop index i on. */
  function InPlaceCalls(list: seq<Resource>, i: nat, cutoff: int, calls: seq<Event>, b: real): seq<Event>
    requires i <= |list|
    decreases |list| - i
  {
    if i == |list| then calls
    else
      var r := Expire(list[i], cutoff);
      if r.state == Deleted then InPlaceCalls(list[..i] + list[i + 1..], i, cutoff, calls + Lib.Step(Untimed(r), i, b), b)
      else InPlaceCalls(list[i := Settle(list[i])], i + 1, cutoff, calls + Lib.Step(Untimed(r), i, b), b)
  }

  lemma {:induction false} InPlaceIsFilter(list: seq<Resource>, i: nat, cutoff: int)
    requires i <= |list|
    ensures InPlaceList(list, i, cutoff) == list[..i] + Survivors(list[i..], cutoff)
    decreases |list| - i
  {
    if i == |list| {
      assert list[i..] == [] && list[..i] == list;
    } else {
      var r := list[i];
      assert list[i..][0] == r && list[i..][1..] == list[i + 1..];
      if Expire(r, cutoff).state == Deleted {
        var next := list[..i] + list[i + 1..];
        assert next[..i] == list[..i] && next[i..] == list[i + 1..];
        InPlaceIsFilter(next, i, cutoff);
      } else {
        var next := list[i := Settle(r)];
        assert next[..i + 1] == list[..i] + [Settle(r)] && next[i + 1..] == list[i + 1..];
        InPlaceIsFilter(next, i + 1, cutoff);
        Assoc(list[..i], [Settle(r)], Survivors(list[i + 1..], cutoff));
      }
    }
  }

  lemma {:induction false} InPlaceSweeps(list: seq<Resource>, i: nat, cutoff: int, calls: seq<Event>, b: real)
    requires i <= |list|
    ensures InPlaceCalls(list, i, cutoff, calls, b) == calls + Lib.SweepTrace(UntimedAll(ExpireAll(list[i..], cutoff)), i, b)
    decreases |list| - i
  {
    if i == |list| {
      assert list[i..] == [];
    } else {
      var r := Expire(list[i], cutoff);
      var u := UntimedAll(ExpireAll(list[i..], cutoff));
      assert u[0] == Untimed(r);
      assert u[1..] == UntimedAll(ExpireAll(list[i + 1..], cutoff));
      Assoc(calls, Lib.Step(Untimed(r), i, b), Lib.SweepTrace(u[1..], Registry.Next(Untimed(r), i), b));
      if r.state == Deleted {
        var next := list[..i] + list[i + 1..];
        assert next[i..] == list[i + 1..];
        InPlaceSweeps(next, i, cutoff, calls + Lib.Step(Untimed(r), i, b), b);
      } else {
        var next := list[i := Settle(list[i])];
        assert next[i + 1..] == list[i + 1..];
        InPlaceSweeps(next, i + 1, cutoff, calls + Lib.Step(Untimed(r), i, b), b);
      }
    }
  }

  /** The whole in-place pass leaves the survivors and makes the calls of RenderTrace. */
  lemma InPlaceRenders(list: seq<Resource>, cutoff: int, calls: seq<Event>, b: real)
    ensures InPlaceList(list, 0, cutoff) == Survivors(list, cutoff)
    ensures OffCalls(|InPlaceList(list, 0, cutoff)|, InPlaceCalls(list, 0, cutoff, calls, b)) + [Show]
         == calls + RenderTrace(list, cutoff, b)
  {
    assert list[..0] == [] && list[0..] == list;
    InPlaceIsFilter(list, 0, cutoff);
    InPlaceSweeps(list, 0, cutoff, calls, b);
    SurvivorsUntimed(list, cutoff);
    var u := UntimedAll(ExpireAll(list, cutoff));
    var sweep, off := Lib.SweepTrace(u, 0, b), OffFill(|Registry.Survivors(u)|);
    OffCallsFill(|Survivors(list, cutoff)|, calls + sweep);
    EventsRegroup(calls, sweep, off, [Show]);
  }

  /** The controller object: the resource list, and the calls made on the strip so far. */
  class ControllerObj {
    const brightness: real
    const resyncPeriod: int
    var resourceList: seq<Resource>
    ghost var strip: seq<Event>

    /** Between two events every entry has been rendered. */
    ghost predicate Valid()
      reads this
    {
      Settled(resourceList)
    }

    constructor (brightness: real, resyncPeriod: int)
      ensures this.brightness == brightness && this.resyncPeriod == resyncPeriod
      ensures resourceList == [] && strip == [] && Valid()
    {
      this.brightness := brightness;
      this.resyncPeriod := resyncPeriod;
      resourceList := [];
      strip := [];
    }

    /** Index of the first entry named `name` (getResource returns a pointer to it), or None. */
    method GetResource(name: string) returns (r: Registry.Option<nat>)
      ensures r == Registry.Find(UntimedAll(resourceList), name)
    {
      var i := 0;
      while i < |resourceList|
        invariant 0 <= i <= |resourceList|
        invariant forall j :: 0 <= j < i ==> resourceList[j].name != name
      {
        if resourceList[i].name == name {
          return Registry.Some(i);
        }
        i := i + 1;
      }
      return Registry.None;
    }

    /** The render pass at time `now`: each entry is first checked against
        the cutoff and forced to deleted when stale, then handled as in the
        library's pass; then the unused pixels are switched off and the frame shown. */
    method UpdateBlinkt(now: int)
      modifies this
      ensures resourceList == Survivors(old(resourceList), Cutoff(now, resyncPeriod))
      ensures strip == old(strip) + RenderTrace(old(resourceList), Cutoff(now, resyncPeriod), brightness)
    {
      var cutoff := Cutoff(now, resyncPeriod);
      ghost var orig := resourceList;
      ghost var kept, calls := InPlaceList(orig, 0, cutoff), InPlaceCalls(orig, 0, cutoff, strip, brightness);
      var i: int := 0;
      while i < |resourceList|
        invariant 0 <= i <= |resourceList|
        invariant InPlaceList(resourceList, i, cutoff) == kept
        invariant InPlaceCalls(resourceList, i, cutoff, strip, brightness) == calls
        decreases |resourceList| - i
      {
        ghost var list := resourceList;
        if resourceList[i].updated < cutoff {
          resourceList := resourceList[i := resourceList[i].(state := Deleted)];
        }
        var r := resourceList[i];
        assert r == Expire(list[i], cutoff);
        ghost var before := strip;
        if r.state == Added || r.state == Updated {
          if i < Pixels {
            strip := strip + [Flash(i, r.color), Set(i, r.color, brightness)];
          }
          resourceList := resourceList[i := r.(state := Unchanged)];
          assert resourceList == list[i := Settle(list[i])];
          assert strip == before + Lib.Step(Untimed(r), i, brightness);
        } else if r.state == Deleted {
          if i < Pixels {
            strip := strip + [Flash(i, r.color)];
          }
          assert resourceList[..i] + resourceList[i + 1..] == list[..i] + list[i + 1..];
          resourceList := resourceList[..i] + resourceList[i + 1..];
          i := i - 1;
          assert strip == before + Lib.Step(Untimed(r), i + 1, brightness);
        } else {
          if i < Pixels {
            strip := strip + [Set(i, r.color, brightness)];
          }
          assert list[i := Settle(list[i])] == resourceList;
          assert strip == before + Lib.Step(Untimed(r), i, brightness);
        }
        i := i + 1;
      }
      ghost var sweep := strip;
      ghost var n := |resourceList|;
      assert resourceList == kept && sweep == calls;
      while i < Pixels
        invariant n <= i
        invariant resourceList == kept && n == |resourceList|
        invariant OffCalls(i, strip) == OffCalls(n, sweep)
      {
        strip := strip + [Off(i)];
        i := i + 1;
      }
      assert strip == OffCalls(n, calls);
      strip := strip + [Show];
      InPlaceRenders(orig, cutoff, old(strip), brightness);
    }

    /** Add appends a fresh entry stamped `now`, even for a name already
        tracked, and renders. The pass reads the clock again, at `renderTime`:
        the new entry survives it as the last one exactly when it is not yet
        three resync periods old by then, and is evicted at once otherwise. */
    method Add(name: string, color: Color, now: int, renderTime: int)
      modifies this
      ensures var added := old(resourceList) + [Resource(name, color, Added, now)];
        resourceList == Survivors(added, Cutoff(renderTime, resyncPeriod)) &&
        strip == old(strip) + RenderTrace(added, Cutoff(renderTime, resyncPeriod), brightness)
      ensures Valid()
      ensures renderTime - now <= 3 * resyncPeriod ==>
        |resourceList| > 0 && resourceList[|resourceList| - 1] == Resource(name, color, Unchanged, now)
      ensures renderTime - now > 3 * resyncPeriod ==>
        resourceList == Survivors(old(resourceList), Cutoff(renderTime, resyncPeriod))
    {
      resourceList := resourceList + [Resource(name, color, Added, now)];
      UpdateBlinkt(renderTime);
      SurvivorsAppend(old(resourceList), [Resource(name, color, Added, now)], Cutoff(renderTime, resyncPeriod));
    }

    /** Update on an unknown name adds it. On a known name it first stamps
        the entry with `now`; the same colour then changes nothing else and
        renders nothing, a new colour marks the entry updated and renders at
        `renderTime`, which the recoloured entry survives unless it is already
        three resync periods old by then. */
    method Update(name: string, color: Color, now: int, renderTime: int)
      modifies this
      ensures var j := Registry.Find(UntimedAll(old(resourceList)), name);
        var cutoff := Cutoff(renderTime, resyncPeriod);
        if j.None? then
          var added := old(resourceList) + [Resource(name, color, Added, now)];
          resourceList == Survivors(added, cutoff) && strip == old(strip) + RenderTrace(added, cutoff, brightness)
        else if old(resourceList)[j.value].color == color then
          resourceList == old(resourceList)[j.value := old(resourceList)[j.value].(updated := now)] &&
          strip == old(strip)
        else
          var marked := old(resourceList)[j.value := Resource(name, color, Updated, now)];
          resourceList == Survivors(marked, cutoff) && strip == old(strip) + RenderTrace(marked, cutoff, brightness)
      ensures var j := Registry.Find(UntimedAll(old(resourceList)), name);
        j.Some? && old(resourceList)[j.value].color != color && renderTime - now <= 3 * resyncPeriod ==>
          Resource(name, color, Unchanged, now) in resourceList
      ensures old(Valid()) ==> Valid()
    {
      var j := GetResource(name);
      if j == Registry.None {
        Add(name, color, now, renderTime);
        return;
      }
      assert UntimedAll(resourceList)[j.value].name == name;
      resourceList := resourceList[j.value := resourceList[j.value].(updated := now)];
      if color == resourceList[j.value].color {
        return;
      }
      resourceList := resourceList[j.value := resourceList[j.value].(color := color, state := Updated)];
      ghost var marked := resourceList;
      assert marked == old(resourceList)[j.value := Resource(name, color, Updated, now)];
      UpdateBlinkt(renderTime);
      if renderTime - now <= 3 * resyncPeriod {
        LiveEntrySurvives(marked, Cutoff(renderTime, resyncPeriod), j.value);
      }
    }

    /** Delete on an unknown name changes nothing; a known name is marked
        deleted and the render splices it out. */
    method Delete(name: string, now: int)
      modifies this
      ensures var j := Registry.Find(UntimedAll(old(resourceList)), name);
        if j.Some? then
          var marked := old(resourceList)[j.value := old(resourceList)[j.value].(state := Deleted)];
          var cutoff := Cutoff(now, resyncPeriod);
          resourceList == Survivors(marked, cutoff) && strip == old(strip) + RenderTrace(marked, cutoff, brightness)
        else
          resourceList == old(resourceList) && strip == old(strip)
      ensures old(Valid()) ==> Valid()
    {
      var j := GetResource(name);
      if j == Registry.None {
        return;
      }
      resourceList := resourceList[j.value := resourceList[j.value].(state := Deleted)];
      UpdateBlinkt(now);
    }
  }
}
