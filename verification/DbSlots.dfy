/** MlxUAR.cpp: the doorbell records of a client, 128-byte slots in up to eight 4 KiB pages that
    are allocated as they are needed. Bitmaps are sequences of 32 flags. Calls of one client are
    serialized by its method lock. */
module DbSlots {
  import opened Words

  const MAX_PAGES: nat := 8
  const PAGE_SIZE: nat := 4096
  const SLOT_SIZE: nat := 128
  const SLOTS_PER_PAGE: nat := 32

  datatype Page = Page(iova: u64, used: seq<bool>, bytes: seq<u8>)

  datatype Code = Success | NoSpace | Failed

  /** The flat offset a slot is known by. */
  function Offset(p: nat, i: nat): nat { p * 4096 + i * 128 }

  function PageOf(offset: nat): nat { offset / 4096 }
  function SlotOf(offset: nat): nat { offset % 4096 / 128 }

  /** An offset leads back to the page and the slot that produced it. */
  lemma OffsetInverts(p: nat, i: nat)
    requires i < SLOTS_PER_PAGE
    ensures PageOf(Offset(p, i)) == p && SlotOf(Offset(p, i)) == i
    ensures Offset(p, i) % 128 == 0 && Offset(p, i) % 4096 == i * 128
  {
    DivModUnique(Offset(p, i), 4096, p, i * 128);
    DivModUnique(i * 128, 128, i, 0);
    DivModUnique(Offset(p, i), 128, p * 32 + i, 0);
  }

  /** And every aligned offset is produced by one. */
  lemma OffsetCovers(offset: nat)
    requires offset % 128 == 0
    ensures SlotOf(offset) < SLOTS_PER_PAGE && Offset(PageOf(offset), SlotOf(offset)) == offset
  {
    assert offset == offset / 4096 * 4096 + offset % 4096;
    assert offset % 4096 % 128 == 0;
  }

  predicate Live(pages: seq<Page>, offset: nat)
  {
    && offset % 128 == 0 && PageOf(offset) < |pages|
    && SlotOf(offset) < |pages[PageOf(offset)].used| && pages[PageOf(offset)].used[SlotOf(offset)]
  }

  /** The DMA address a record is given to the device by. */
  function Address(pages: seq<Page>, offset: nat): nat
    requires PageOf(offset) < |pages|
  {
    pages[PageOf(offset)].iova + offset % 4096
  }

  predicate Apart(a: nat, b: nat, size: nat)
  {
    a + size <= b || b + size <= a
  }

  ghost predicate WellFormed(pages: seq<Page>)
  {
    && |pages| <= MAX_PAGES
    && (forall p :: 0 <= p < |pages| ==> |pages[p].used| == SLOTS_PER_PAGE && |pages[p].bytes| == PAGE_SIZE)
    && (forall p, q :: 0 <= p < q < |pages| ==> Apart(pages[p].iova, pages[q].iova, PAGE_SIZE))
  }

  /** The records of two live slots share no byte, seen by the client or by the device. */
  lemma LiveSlotsAreDisjoint(pages: seq<Page>, a: nat, b: nat)
    requires WellFormed(pages) && Live(pages, a) && Live(pages, b) && a != b
    ensures Apart(a, b, SLOT_SIZE)
    ensures Apart(Address(pages, a), Address(pages, b), SLOT_SIZE)
    ensures a + SLOT_SIZE <= |pages| * PAGE_SIZE
  {
    OffsetCovers(a);
    OffsetCovers(b);
    var p, q := PageOf(a), PageOf(b);
    if p < q {
      assert Apart(pages[p].iova, pages[q].iova, PAGE_SIZE);
    } else if q < p {
      assert Apart(pages[q].iova, pages[p].iova, PAGE_SIZE);
    }
  }

  function Zeroes(n: nat): (s: seq<u8>)
    ensures |s| == n && forall i :: 0 <= i < n ==> s[i] == 0
  {
    seq(n, _ => 0)
  }

  /** `memset(page + within, 0, 128)`. */
  function Wiped(bytes: seq<u8>, within: nat): (r: seq<u8>)
    requires within + 128 <= |bytes|
    ensures |r| == |bytes|
    ensures forall k :: 0 <= k < |bytes| ==> r[k] == if within <= k < within + 128 then 0 else bytes[k]
  {
    bytes[..within] + Zeroes(128) + bytes[within + 128..]
  }

  /** The contents of a record. */
  function Record(pages: seq<Page>, offset: nat): seq<u8>
    requires PageOf(offset) < |pages| && offset % 4096 + 128 <= |pages[PageOf(offset)].bytes|
  {
    pages[PageOf(offset)].bytes[offset % 4096..offset % 4096 + 128]
  }

  function FirstFree(used: seq<bool>): (i: nat)
    ensures i <= |used| && (i < |used| ==> !used[i]) && forall j :: 0 <= j < i ==> used[j]
  {
    if used == [] || !used[0] then 0 else 1 + FirstFree(used[1..])
  }

  predicate Full(page: Page)
  {
    forall i :: 0 <= i < |page.used| ==> page.used[i]
  }

  predicate AllFull(pages: seq<Page>)
  {
    forall p :: 0 <= p < |pages| ==> Full(pages[p])
  }

  /** A slot taken and wiped. */
  function Taken(page: Page, i: nat): Page
    requires i < SLOTS_PER_PAGE == |page.used| && |page.bytes| == PAGE_SIZE
  {
    page.(used := page.used[i := true], bytes := Wiped(page.bytes, i * 128))
  }

  function Given(page: Page, i: nat): Page
    requires i < SLOTS_PER_PAGE == |page.used| && |page.bytes| == PAGE_SIZE
  {
    page.(used := page.used[i := false], bytes := Wiped(page.bytes, i * 128))
  }

  /** `after` has the live slots of `before` with `offset` added (or taken away), and every other
      live record as it was. */
  ghost predicate OnlySlot(before: seq<Page>, after: seq<Page>, offset: nat)
  {
    && WellFormed(before) && WellFormed(after) && |before| <= |after|
    && (forall o :: o != offset ==> (Live(after, o) <==> Live(before, o)))
    && (forall o :: o != offset && Live(before, o) ==> Record(after, o) == Record(before, o) && Address(after, o) == Address(before, o))
  }

  lemma TakenIsOnlySlot(pages: seq<Page>, p: nat, i: nat, page: Page)
    requires WellFormed(pages) && p < |pages| && i < SLOTS_PER_PAGE
    requires page == Taken(pages[p], i) || page == Given(pages[p], i)
    ensures OnlySlot(pages, pages[p := page], Offset(p, i))
  {
    var after := pages[p := page];
    OffsetInverts(p, i);
    forall o: nat | o != Offset(p, i) ensures Live(after, o) <==> Live(pages, o) {
      if o % 128 == 0 {
        OffsetCovers(o);
      }
    }
    forall o: nat | o != Offset(p, i) && Live(pages, o)
      ensures Record(after, o) == Record(pages, o) && Address(after, o) == Address(pages, o)
    {
      OffsetCovers(o);
      if PageOf(o) == p {
        assert SlotOf(o) != i && o % 4096 == SlotOf(o) * 128;
      }
    }
  }

  class Bundle {
    var pages: seq<Page>
    /** Environment: an unverified command has left the device suspect. */
    var quarantined: bool
    /** Pages whose mapping was completed, and pages kept until a reset. */
    ghost var completed: seq<Page>
    ghost var retained: seq<Page>

    ghost predicate Valid()
      reads this
    {
      WellFormed(pages)
    }

    constructor ()
      ensures Valid() && pages == [] && completed == [] && retained == []
    {
      pages, quarantined, completed, retained := [], false, [], [];
    }

    /** AllocClientDbPage: a zeroed page at an address of its own, or an error; a mapping that
        is not contiguous counts as lack of space. */
    method GrowByPage() returns (code: Code)
      requires Valid() && |pages| < MAX_PAGES
      modifies `pages
      ensures Valid()
      ensures code.Success? ==> |pages| == |old(pages)| + 1 && pages[..|old(pages)|] == old(pages)
      ensures code.Success? ==> pages[|old(pages)|].used == seq(32, _ => false) && pages[|old(pages)|].bytes == Zeroes(4096)
      ensures !code.Success? ==> pages == old(pages)
    {
      var address: nat := *;
      var iova: u64 := address % 0x1_0000_0000_0000_0000;
      var ok: bool := *;
      for p := 0 to |pages|
        invariant ok ==> forall q :: 0 <= q < p ==> Apart(pages[q].iova, iova, PAGE_SIZE)
      {
        ok := ok && Apart(pages[p].iova, iova, PAGE_SIZE);
      }
      if ok {
        pages := pages + [Page(iova, seq(32, _ => false), Zeroes(4096))];
        return Success;
      }
      var contiguous: bool := *;
      return if contiguous then Failed else NoSpace;
    }

    /** The search of AllocClientDbSlot: the first free slot of the first page that has one. */
    method Search() returns (found: bool, p: nat, i: nat)
      requires Valid()
      ensures found ==> p < |pages| && i < SLOTS_PER_PAGE && !pages[p].used[i]
      ensures found ==> AllFull(pages[..p]) && forall j :: 0 <= j < i ==> pages[p].used[j]
      ensures !found ==> AllFull(pages)
    {
      found, i := false, 0;
      for n := 0 to |pages|
        invariant AllFull(pages[..n])
      {
        var f := FirstFree(pages[n].used);
        if f < 32 {
          return true, n, f;
        }
        assert pages[..n + 1] == pages[..n] + [pages[n]];
      }
      assert pages[..|pages|] == pages;
      p := 0;
    }

    /** AllocClientDbSlot: a slot nobody has, its record wiped. It is refused only when every
        slot of every page is taken, and with eight pages always for lack of space. */
    method AllocClientDbSlot() returns (code: Code, offset: nat, dma: nat)
      requires Valid()
      modifies `pages
      ensures Valid()
      ensures code.Success? ==> !Live(old(pages), offset) && Live(pages, offset) && OnlySlot(old(pages), pages, offset)
      ensures code.Success? ==> Record(pages, offset) == Zeroes(128) && dma == Address(pages, offset)
      ensures !code.Success? ==> pages == old(pages) && AllFull(pages)
      ensures AllFull(old(pages)) && |old(pages)| == MAX_PAGES ==> code.NoSpace?
      ensures !AllFull(old(pages)) ==> code.Success? && |pages| == |old(pages)|
    {
      offset, dma := 0, 0;
      while true
        invariant Valid() && |old(pages)| <= |pages| && pages[..|old(pages)|] == old(pages)
        invariant |pages| > |old(pages)| ==>
                    AllFull(old(pages)) && |pages| == |old(pages)| + 1 && !pages[|old(pages)|].used[0] && EmptyPage(pages[|old(pages)|])
        decreases MAX_PAGES - |pages|
      {
        var found, p, i := Search();
        if found {
          offset := Offset(p, i);
          OffsetInverts(p, i);
          dma := pages[p].iova + i * 128;
          GrownIsSame(old(pages), pages);
          TakenIsOnlySlot(pages, p, i, Taken(pages[p], i));
          ghost var grown := pages;
          pages := pages[p := Taken(pages[p], i)];
          assert Record(pages, offset) == Zeroes(128);
          StillOnlySlot(old(pages), grown, pages, offset);
          return Success, offset, dma;
        }
        assert |pages| > |old(pages)| ==> Full(pages[|old(pages)|]);
        assert pages == old(pages);
        if |pages| >= MAX_PAGES {
          return NoSpace, 0, 0;
        }
        code := GrowByPage();
        if !code.Success? {
          return code, 0, 0;
        }
      }
    }

    /** FreeClientDbSlot: the slot may be handed out again, unless the device is suspect; then
        nothing changes. */
    method FreeClientDbSlot(offset: nat)
      requires Valid()
      modifies `pages
      ensures Valid()
      ensures quarantined || offset % 128 != 0 || PageOf(offset) >= |pages| ==> pages == old(pages)
      ensures !quarantined ==> !Live(pages, offset) && OnlySlot(old(pages), pages, offset)
      ensures |pages| == |old(pages)|
    {
      if offset % 128 != 0 || quarantined {
        return;
      }
      var p, within := offset / 4096, offset % 4096;
      OffsetCovers(offset);
      OffsetInverts(PageOf(offset), SlotOf(offset));
      if p < |pages| {
        TakenIsOnlySlot(pages, p, within / 128, Given(pages[p], within / 128));
        pages := pages[p := Given(pages[p], within / 128)];
      }
    }

    /** GetClientDbRecord: the record lies where the offset says, within the page. */
    method GetClientDbRecord(offset: nat) returns (at: Option<(nat, nat)>)
      requires Valid()
      ensures at.Some? <==> offset % 128 == 0 && PageOf(offset) < |pages|
      ensures at.Some? ==> at.value.0 == PageOf(offset) && at.value.1 == SlotOf(offset) * 128 <= 4096 - 128
    {
      if offset % 128 != 0 {
        return None;
      }
      var page, within := offset / 4096, offset % 4096;
      if page >= |pages| {
        return None;
      }
      OffsetCovers(offset);
      return Some((page, within));
    }

    /** FreeClientBundle: every page goes, to the allocator or to the quarantine. */
    method FreeClientBundle()
      requires Valid()
      modifies this
      ensures Valid() && pages == [] && quarantined == old(quarantined)
      ensures if quarantined then retained == old(retained) + old(pages) && completed == old(completed)
              else completed == old(completed) + old(pages) && retained == old(retained)
    {
      for p := 0 to |pages|
        invariant Valid() && pages == old(pages) && quarantined == old(quarantined)
        invariant if quarantined then retained == old(retained) + pages[..p] && completed == old(completed)
                  else completed == old(completed) + pages[..p] && retained == old(retained)
      {
        assert pages[..p + 1] == pages[..p] + [pages[p]];
        if quarantined {
          retained := retained + [pages[p]];
        } else {
          completed := completed + [pages[p]];
        }
      }
      assert pages[..|pages|] == pages;
      pages := [];
    }
  }

  predicate EmptyPage(page: Page)
  {
    forall i :: 0 <= i < |page.used| ==> !page.used[i]
  }

  /** A new page with no slot taken adds no live slot. */
  lemma GrownIsSame(before: seq<Page>, after: seq<Page>)
    requires WellFormed(before) && WellFormed(after) && |before| <= |after| <= |before| + 1 && after[..|before|] == before
    requires |after| > |before| ==> EmptyPage(after[|before|])
    ensures forall o :: Live(after, o) <==> Live(before, o)
    ensures forall o :: Live(before, o) ==> after[PageOf(o)] == before[PageOf(o)]
  {
    forall p | 0 <= p < |before| ensures after[p] == before[p] {
      assert after[..|before|][p] == before[p];
    }
  }

  lemma StillOnlySlot(before: seq<Page>, grown: seq<Page>, after: seq<Page>, offset: nat)
    requires WellFormed(before) && |before| <= |grown| && OnlySlot(grown, after, offset)
    requires forall o :: Live(grown, o) <==> Live(before, o)
    requires forall o :: Live(before, o) ==> grown[PageOf(o)] == before[PageOf(o)]
    ensures OnlySlot(before, after, offset)
  {
  }
}
