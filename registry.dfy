/** The ordered, name-keyed list of tracked resources kept by main.go and
    lib/lib.go (both declare the same `resource` struct: name, colour, state),
    its lookup, and what a render pass leaves of it. */
module Registry {
  import opened Blinkt

  datatype Option<T> = None | Some(value: T)

  datatype Resource = Resource(name: string, color: Color, state: State)

  /** Position of the first entry named `name`; None when no entry has that name. */
  function Find(list: seq<Resource>, name: string): (r: Option<nat>)
    ensures r.Some? ==> r.value < |list| && list[r.value].name == name
    ensures r.Some? ==> forall j :: 0 <= j < r.value ==> list[j].name != name
    ensures r.None? <==> forall j :: 0 <= j < |list| ==> list[j].name != name
  {
    if list == [] then None
    else if list[0].name == name then Some(0)
    else match Find(list[1..], name)
      case None => None
      case Some(j) => Some(j + 1)
  }

  /** An entry once a render pass has dealt with it. */
  function Settle(r: Resource): Resource
  {
    r.(state := Unchanged)
  }

  /** Every entry has been rendered: the shape of the list between two events. */
  predicate Settled(list: seq<Resource>)
  {
    forall k :: 0 <= k < |list| ==> list[k].state == Unchanged
  }

  /** The list a render pass leaves behind: deleted entries spliced out,
      the others kept in order and marked unchanged. */
  function Survivors(list: seq<Resource>): (s: seq<Resource>)
    ensures |s| <= |list|
    ensures Settled(s)
  {
    if list == [] then []
    else if list[0].state == Deleted then Survivors(list[1..])
    else [Settle(list[0])] + Survivors(list[1..])
  }

  /** How many of the first j entries survive a render pass; this is the
      pixel index entry j is rendered at. */
  function Rank(list: seq<Resource>, j: nat): (n: nat)
    requires j <= |list|
    ensures n <= j
  {
    if j == 0 then 0
    else (if list[0].state == Deleted then 0 else 1) + Rank(list[1..], j - 1)
  }

  /** Survivors is the order-preserving filter of the non-deleted entries:
      it holds one settled copy of each of them, entry j at position Rank(list, j). */
  lemma {:induction false} SurvivorsAt(list: seq<Resource>)
    ensures |Survivors(list)| == Rank(list, |list|)
    ensures forall j :: 0 <= j < |list| && list[j].state != Deleted ==>
              Rank(list, j) < |Survivors(list)| && Survivors(list)[Rank(list, j)] == Settle(list[j])
  {
    if list != [] {
      SurvivorsAt(list[1..]);
      forall j | 0 <= j < |list| && list[j].state != Deleted
        ensures Rank(list, j) < |Survivors(list)| && Survivors(list)[Rank(list, j)] == Settle(list[j])
      {
        if j > 0 {
          assert list[1..][j - 1] == list[j];
        }
      }
    }
  }

  /** A surviving entry is rendered before every later entry. */
  lemma {:induction false} RankKeepsOrder(list: seq<Resource>, j: nat, k: nat)
    requires j < k <= |list|
    requires list[j].state != Deleted
    ensures Rank(list, j) < Rank(list, k)
  {
    if j > 0 {
      assert list[1..][j - 1] == list[j];
      RankKeepsOrder(list[1..], j - 1, k - 1);
    } else {
      assert Rank(list, k) >= 1;
    }
  }

  /** A list that has already been rendered is left as it is by the next pass. */
  lemma {:induction false} SurvivorsOfSettled(list: seq<Resource>)
    requires Settled(list)
    ensures Survivors(list) == list
  {
    if list != [] {
      assert Settle(list[0]) == list[0];
      SurvivorsOfSettled(list[1..]);
    }
  }

  lemma SurvivorsIdempotent(list: seq<Resource>)
    ensures Survivors(Survivors(list)) == Survivors(list)
  {
    SurvivorsOfSettled(Survivors(list));
  }

  lemma {:induction false} SurvivorsAppend(a: seq<Resource>, b: seq<Resource>)
    ensures Survivors(a + b) == Survivors(a) + Survivors(b)
  {
    if a == [] {
      assert a + b == b;
    } else {
      assert (a + b)[0] == a[0];
      assert (a + b)[1..] == a[1..] + b;
      SurvivorsAppend(a[1..], b);
    }
  }

  /** Appending an added entry to a rendered list and rendering again leaves
      the old list with the new entry, settled, at the end. */
  lemma AddAppends(list: seq<Resource>, name: string, color: Color)
    requires Settled(list)
    ensures Survivors(list + [Resource(name, color, Added)]) == list + [Resource(name, color, Unchanged)]
  {
    SurvivorsAppend(list, [Resource(name, color, Added)]);
    SurvivorsOfSettled(list);
  }

  /** Replacing one entry of a rendered list by a live entry and rendering
      again only settles the replacement: every other entry stays where it is. */
  lemma {:induction false} ReplaceInSettled(list: seq<Resource>, j: nat, r: Resource)
    requires Settled(list) && j < |list| && r.state != Deleted
    ensures Survivors(list[j := r]) == list[j := Settle(r)]
  {
    if j == 0 {
      assert list[j := r] == [r] + list[1..];
      assert list[j := r][1..] == list[1..];
      SurvivorsOfSettled(list[1..]);
    } else {
      assert list[j := r][0] == list[0];
      assert list[j := r][1..] == list[1..][j - 1 := r];
      assert list[j := Settle(r)] == [list[0]] + list[1..][j - 1 := Settle(r)];
      ReplaceInSettled(list[1..], j - 1, r);
    }
  }

  /** Recolouring entry j of a rendered list and rendering again changes only
      that entry's colour: it keeps its name and its place. */
  lemma RecolorInPlace(list: seq<Resource>, j: nat, color: Color)
    requires Settled(list) && j < |list|
    ensures Survivors(list[j := Resource(list[j].name, color, Updated)])
         == list[j := Resource(list[j].name, color, Unchanged)]
  {
    ReplaceInSettled(list, j, Resource(list[j].name, color, Updated));
  }

  /** Marking entry j of a rendered list deleted and rendering again splices
      exactly that entry out; later entries move one place towards the front. */
  lemma DeleteSplices(list: seq<Resource>, j: nat)
    requires Settled(list) && j < |list|
    ensures Survivors(list[j := list[j].(state := Deleted)]) == list[..j] + list[j + 1..]
  {
    var marked := list[j := list[j].(state := Deleted)];
    assert marked == list[..j] + [marked[j]] + list[j + 1..];
    SurvivorsAppend(list[..j] + [marked[j]], list[j + 1..]);
    SurvivorsAppend(list[..j], [marked[j]]);
    SurvivorsOfSettled(list[..j]);
    SurvivorsOfSettled(list[j + 1..]);
  }

  /** Entries appended behind a match do not change what a lookup finds. */
  lemma {:induction false} FindInPrefix(a: seq<Resource>, b: seq<Resource>, name: string)
    requires Find(a, name).Some?
    ensures Find(a + b, name) == Find(a, name)
  {
    assert (a + b)[0] == a[0];
    if a[0].name != name {
      assert (a + b)[1..] == a[1..] + b;
      FindInPrefix(a[1..], b, name);
    }
  }

  /** Adding a name that is already tracked creates a second entry for it,
      and lookups keep finding the older one. */
  lemma DuplicateAddKeepsFirst(list: seq<Resource>, name: string, color: Color)
    requires Settled(list) && Find(list, name).Some?
    ensures var after := Survivors(list + [Resource(name, color, Added)]);
      |after| == |list| + 1 && after[|list|].name == name && Find(after, name) == Find(list, name)
  {
    AddAppends(list, name, color);
    FindInPrefix(list, [Resource(name, color, Unchanged)], name);
  }

  /** The loop index after entry r: a deleted entry is spliced out and the
      index stays on the slot it freed. */
  function Next(r: Resource, i: nat): nat
  {
    if r.state == Deleted then i else i + 1
  }

  /** The list left by the render loop's in-place sweep from loop index i on: a
      deleted entry is spliced out and the loop index stays put (`i--` before
      the loop's `i++`), so the entry that moves into slot i is looked at next. */
  function InPlaceList(list: seq<Resource>, i: nat): seq<Resource>
    requires i <= |list|
    decreases |list| - i
  {
    if i == |list| then list
    else if list[i].state == Deleted then InPlaceList(list[..i] + list[i + 1..], i)
    else InPlaceList(list[i := Settle(list[i])], i + 1)
  }

  /** The in-place sweep, splicing and re-examining slot i after a deletion,
      leaves the entries before i alone and filters the rest in order. */
  lemma {:induction false} InPlaceIsFilter(list: seq<Resource>, i: nat)
    requires i <= |list|
    ensures InPlaceList(list, i) == list[..i] + Survivors(list[i..])
    decreases |list| - i
  {
    if i == |list| {
      assert list[i..] == [] && list[..i] == list;
    } else {
      var r := list[i];
      assert list[i..][0] == r && list[i..][1..] == list[i + 1..];
      if r.state == Deleted {
        var next := list[..i] + list[i + 1..];
        assert next[..i] == list[..i] && next[i..] == list[i + 1..];
        InPlaceIsFilter(next, i);
      } else {
        var next := list[i := Settle(r)];
        assert next[..i + 1] == list[..i] + [Settle(r)] && next[i + 1..] == list[i + 1..];
        InPlaceIsFilter(next, i + 1);
        Assoc(list[..i], [Settle(r)], Survivors(list[i + 1..]));
      }
    }
  }
}
