/** MlxPCIDriver.cpp: the process-wide registry of what must not be freed before a verified
    reset of the device it belongs to: page managers in a table of 16, single mappings in a
    linked list. Each locked region is atomic; the list is the sequence of its nodes. */
module QuarantineRegistry {
  import opened Words

  const SIZE: nat := 16

  /** A retained page manager, or a retained mapping, and the device it was given to. */
  datatype Entry = Entry(item: nat, device: nat)

  // ---------------------------------------------------------------- specification

  /** Entries of other devices, in order. */
  function Others(list: seq<Entry>, device: nat): (kept: seq<Entry>)
    ensures |kept| <= |list| && forall e :: e in kept <==> e in list && e.device != device
  {
    if list == [] then []
    else
      var front := Others(list[..|list| - 1], device);
      if list[|list| - 1].device != device then front + [list[|list| - 1]] else front
  }

  /** Entries of one device, last one first. */
  function Mine(list: seq<Entry>, device: nat): (mine: seq<Entry>)
    ensures forall e :: e in mine <==> e in list && e.device == device
  {
    if list == [] then []
    else
      var front := Mine(list[..|list| - 1], device);
      if list[|list| - 1].device == device then [list[|list| - 1]] + front else front
  }

  /** Splitting a list by device loses nothing and duplicates nothing. */
  lemma {:induction false} SplitConserves(list: seq<Entry>, device: nat)
    ensures multiset(Others(list, device)) + multiset(Mine(list, device)) == multiset(list)
  {
    if list != [] {
      var n := |list| - 1;
      SplitConserves(list[..n], device);
      assert list == list[..n] + [list[n]];
    }
  }

  predicate Holds(slots: seq<Option<Entry>>, i: nat, item: nat)
  {
    i < |slots| && slots[i].Some? && slots[i].value.item == item
  }

  /** No object is in the table twice, so none is freed twice. */
  ghost predicate Once(slots: seq<Option<Entry>>)
  {
    forall i: nat, j: nat, o :: Holds(slots, i, o) && Holds(slots, j, o) ==> i == j
  }

  /** Where the search of MlxRetainQuarantinedPages stops: at the object or at a free slot,
      whichever comes first; 16 when the table is full of others. */
  function StopsAt(slots: seq<Option<Entry>>, item: nat): (k: nat)
    ensures k <= |slots| && (k < |slots| ==> slots[k].None? || slots[k].value.item == item)
    ensures forall i :: 0 <= i < k ==> slots[i].Some? && slots[i].value.item != item
  {
    if slots == [] then 0
    else if slots[0].None? || slots[0].value.item == item then 0
    else 1 + StopsAt(slots[1..], item)
  }

  /** The object is registered in a slot after `k`. */
  ghost predicate Behind(slots: seq<Option<Entry>>, k: nat, item: nat)
  {
    exists j: nat :: k < j && Holds(slots, j, item)
  }

  /** Retaining an object keeps the table free of duplicates unless the object is there already
      and a free slot lies before it; then, and only then, it is entered a second time. */
  lemma RetainKeepsOnce(slots: seq<Option<Entry>>, e: Entry)
    requires Once(slots) && StopsAt(slots, e.item) < |slots|
    ensures var k := StopsAt(slots, e.item);
            Once(slots[k := Some(e)]) <==> !Behind(slots, k, e.item)
  {
    var k := StopsAt(slots, e.item);
    var t := slots[k := Some(e)];
    assert Holds(t, k, e.item);
    forall i: nat, o | i != k ensures Holds(t, i, o) <==> Holds(slots, i, o) {}
    if j: nat :| k < j && Holds(slots, j, e.item) {
      assert Holds(t, j, e.item);
    } else {
      assert forall i: nat :: i != k ==> !Holds(t, i, e.item);
      forall i: nat, j: nat, o | Holds(t, i, o) && Holds(t, j, o) ensures i == j {
        assert i != k && j != k ==> Holds(slots, i, o) && Holds(slots, j, o);
      }
    }
  }

  // ---------------------------------------------------------------- the registry

  class Registry {
    var slots: seq<Option<Entry>>
    var list: seq<Entry>
    /** Objects for which no slot was left: kept alive, and never freed again. */
    ghost var leaked: seq<Entry>

    ghost predicate Valid()
      reads this
    {
      |slots| == SIZE && Once(slots)
    }

    constructor ()
      ensures Valid() && list == [] && leaked == [] && slots == seq(16, _ => None)
    {
      slots := seq(16, _ => None);
      list, leaked := [], [];
    }

    /** MlxRetainQuarantinedPages: entered once, or kept out of reach for good when the table is
        full. Only an object already registered behind a free slot would be entered twice. */
    method RetainPages(e: Entry)
      requires Valid()
      modifies `slots, `leaked
      ensures var k := StopsAt(old(slots), e.item);
              if k == SIZE then slots == old(slots) && leaked == old(leaked) + [e]
              else leaked == old(leaked) && slots == if old(slots)[k].None? then old(slots)[k := Some(e)] else old(slots)
      ensures Valid() <==> !Behind(old(slots), StopsAt(old(slots), e.item), e.item)
    {
      var i := 0;
      while i < 16
        invariant i <= StopsAt(slots, e.item) && i <= 16
        invariant slots == old(slots) && leaked == old(leaked)
      {
        if slots[i].Some? && slots[i].value.item == e.item {
          assert Holds(slots, i, e.item);
          return;
        }
        if slots[i].None? {
          RetainKeepsOnce(slots, e);
          slots := slots[i := Some(e)];
          return;
        }
        i := i + 1;
      }
      leaked := leaked + [e];
    }

    /** MlxRetainQuarantinedDummy. */
    method RetainMapping(e: Entry)
      requires Valid()
      modifies `list
      ensures Valid() && list == [e] + old(list)
    {
      list := [e] + list;
    }

    /** MlxReleaseQuarantinedPagesAfterReset: exactly what belongs to the device is freed, each
        thing once; everything of other devices stays, in place and in order. */
    method ReleaseAfterReset(device: nat) returns (freed: seq<Entry>, completed: seq<Entry>)
      requires Valid()
      modifies `slots, `list
      ensures Valid() && leaked == old(leaked)
      ensures forall i :: 0 <= i < SIZE ==>
                slots[i] == if old(slots)[i].Some? && old(slots)[i].value.device == device then None else old(slots)[i]
      ensures forall e :: e in freed <==> Some(e) in old(slots) && e.device == device
      ensures forall i, j :: 0 <= i < j < |freed| ==> freed[i].item != freed[j].item
      ensures list == Others(old(list), device) && completed == Mine(old(list), device)
      ensures multiset(list) + multiset(completed) == multiset(old(list))
    {
      freed := FreePages(device);
      completed := Unlink(device);
      SplitConserves(old(list), device);
    }

    /** Its first loop, over the table. */
    method FreePages(device: nat) returns (freed: seq<Entry>)
      requires Valid()
      modifies `slots
      ensures Valid()
      ensures forall i :: 0 <= i < SIZE ==>
                slots[i] == if old(slots)[i].Some? && old(slots)[i].value.device == device then None else old(slots)[i]
      ensures forall e :: e in freed <==> Some(e) in old(slots) && e.device == device
      ensures forall i, j :: 0 <= i < j < |freed| ==> freed[i].item != freed[j].item
    {
      freed := [];
      for i := 0 to 16
        invariant |slots| == SIZE && forall j :: i <= j < SIZE ==> slots[j] == old(slots)[j]
        invariant forall j :: 0 <= j < i ==>
                    slots[j] == if old(slots)[j].Some? && old(slots)[j].value.device == device then None else old(slots)[j]
        invariant forall e :: e in freed <==> Some(e) in old(slots)[..i] && e.device == device
        invariant forall j, k :: 0 <= j < k < |freed| ==> freed[j].item != freed[k].item
      {
        assert old(slots)[..i + 1] == old(slots)[..i] + [old(slots)[i]];
        if slots[i].Some? && slots[i].value.device == device {
          FreshToFree(old(slots), i, freed);
          freed := freed + [slots[i].value];
          slots := slots[i := None];
        }
      }
      assert old(slots)[..16] == old(slots);
      forall i: nat, j: nat, o | Holds(slots, i, o) && Holds(slots, j, o) ensures i == j {
        assert Holds(old(slots), i, o) && Holds(old(slots), j, o);
      }
    }

    /** Its second loop: nodes of the device are spliced out onto a list of their own, which is
        then completed from its head. */
    method Unlink(device: nat) returns (completed: seq<Entry>)
      modifies `list
      ensures list == Others(old(list), device) && completed == Mine(old(list), device)
    {
      var release: seq<Entry> := [];
      var link := 0;
      ghost var seen := 0;
      while link < |list|
        invariant 0 <= seen <= |old(list)| && link <= |list|
        invariant list[..link] == Others(old(list)[..seen], device) && list[link..] == old(list)[seen..]
        invariant release == Mine(old(list)[..seen], device)
        decreases |list| - link
      {
        var node := list[link];
        NextNode(old(list), list, seen, link, device);
        if node.device != device {
          link := link + 1;
        } else {
          Spliced(list, link);
          list := list[..link] + list[link + 1..];
          release := [node] + release;
        }
        seen := seen + 1;
      }
      assert old(list)[..seen] == old(list) && list[..link] == list;
      completed := [];
      for i := 0 to |release|
        invariant completed == release[..i]
      {
        completed := completed + [release[i]];
      }
    }
  }

  /** What the next node does to the two halves of the split. */
  lemma NextNode(whole: seq<Entry>, list: seq<Entry>, seen: nat, link: nat, device: nat)
    requires link < |list| && seen <= |whole| && list[link..] == whole[seen..]
    ensures seen < |whole| && list[link] == whole[seen] && list[link + 1..] == whole[seen + 1..]
    ensures list[..link + 1] == list[..link] + [list[link]]
    ensures list[link].device != device ==> Others(whole[..seen + 1], device) == Others(whole[..seen], device) + [list[link]]
    ensures list[link].device != device ==> Mine(whole[..seen + 1], device) == Mine(whole[..seen], device)
    ensures list[link].device == device ==> Others(whole[..seen + 1], device) == Others(whole[..seen], device)
    ensures list[link].device == device ==> Mine(whole[..seen + 1], device) == [list[link]] + Mine(whole[..seen], device)
  {
    assert whole[seen..][0] == list[link..][0];
    assert list[link + 1..] == list[link..][1..] && whole[seen + 1..] == whole[seen..][1..];
    assert whole[..seen + 1][..seen] == whole[..seen];
  }

  lemma Spliced(list: seq<Entry>, link: nat)
    requires link < |list|
    ensures (list[..link] + list[link + 1..])[..link] == list[..link]
    ensures (list[..link] + list[link + 1..])[link..] == list[link + 1..]
  {
  }

  lemma FreshToFree(slots: seq<Option<Entry>>, i: nat, freed: seq<Entry>)
    requires Once(slots) && i < |slots| && slots[i].Some?
    requires forall e :: e in freed ==> Some(e) in slots[..i]
    ensures forall e :: e in freed ==> e.item != slots[i].value.item
  {
    forall e | e in freed ensures e.item != slots[i].value.item {
      var j :| 0 <= j < i && slots[..i][j] == Some(e);
      assert Holds(slots, j, e.item) && Holds(slots, i, slots[i].value.item);
    }
  }
}
