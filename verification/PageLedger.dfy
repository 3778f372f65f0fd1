/** The values behind MlxFwPages.cpp: page slots, shared DMA regions and the ledger of DMA
    buffers, with the invariant every locked region of the driver keeps. */
module PageLedger {
  import opened Words

  const MAX_PAGES: nat := 16384
  const REGIONS: nat := 10          // boot chunk, init chunk, eight runtime extents
  const FIRST_EXTENT: nat := 2

  type BufId = nat

  datatype PageState = Allocated | GivePending | Given | Returned | Quarantine

  /** `Unused` is `inUse[i] == false`; a page with no buffer of its own lies in a region. */
  datatype Page = Unused | Page(functionId: u16, ownership: nat, state: PageState, own: Option<BufId>, iova: nat)

  /** A boot/init chunk or a runtime extent. */
  datatype Region = Region(inUse: bool, buf: Option<BufId>, iova: nat, numPages: nat,
                           functionId: nat, firmwareOwned: nat, ambiguousOwned: nat)

  const NO_REGION: Region := Region(false, None, 0, 0, 0, 0, 0)

  /** Which structure must release a live buffer. */
  datatype Owner = PageOwns(i: nat) | RegionOwns(r: nat)

  predicate HeldPage(p: Page)
  {
    p.Page? && (p.state.Given? || p.state.GivePending? || p.state.Quarantine?)
  }

  // ---------------------------------------------------------------- accounting

  datatype Class = Host | Firmware | Ambiguous | Handed

  function ClassOf(p: Page): Option<Class>
  {
    match p
    case Unused => None
    case Page(_, _, Allocated, _, _) => Some(Host)
    case Page(_, _, GivePending, _, _) => Some(Ambiguous)
    case Page(_, _, Given, _, _) => Some(Firmware)
    case Page(_, _, Returned, _, _) => Some(Handed)
    case Page(_, _, Quarantine, _, _) => Some(Ambiguous)
  }

  function One(b: bool): nat { if b then 1 else 0 }

  /** What a scan of the page table counts. */
  ghost function Count(pages: seq<Page>, c: Class): nat
  {
    if pages == [] then 0
    else Count(pages[..|pages| - 1], c) + One(ClassOf(pages[|pages| - 1]) == Some(c))
  }

  lemma {:induction false} CountUpdate(pages: seq<Page>, i: nat, p: Page, c: Class)
    requires i < |pages|
    ensures Count(pages[i := p], c) + One(ClassOf(pages[i]) == Some(c)) == Count(pages, c) + One(ClassOf(p) == Some(c))
  {
    var n := |pages| - 1;
    if i == n {
      assert pages[i := p][..n] == pages[..n];
    } else {
      assert pages[i := p][..n] == pages[..n][i := p];
      CountUpdate(pages[..n], i, p, c);
    }
  }

  lemma {:induction false} CountPositive(pages: seq<Page>, c: Class)
    ensures Count(pages, c) > 0 <==> exists i :: 0 <= i < |pages| && ClassOf(pages[i]) == Some(c)
  {
    if pages != [] {
      var n := |pages| - 1;
      CountPositive(pages[..n], c);
      assert forall i :: 0 <= i < n ==> pages[..n][i] == pages[i];
    }
  }

  /** The four redundant counters of the driver. */
  datatype Tally = Tally(host: nat, firmware: nat, ambiguous: nat, handed: nat)

  ghost function Scan(pages: seq<Page>): Tally
  {
    Tally(Count(pages, Host), Count(pages, Firmware), Count(pages, Ambiguous), Count(pages, Handed))
  }

  /** One slot changes; each counter moves by what left it and what entered it. */
  lemma ScanUpdate(pages: seq<Page>, i: nat, p: Page)
    requires i < |pages|
    ensures var s, t, was, now := Scan(pages), Scan(pages[i := p]), ClassOf(pages[i]), ClassOf(p);
            && t.host + One(was == Some(Host)) == s.host + One(now == Some(Host))
            && t.firmware + One(was == Some(Firmware)) == s.firmware + One(now == Some(Firmware))
            && t.ambiguous + One(was == Some(Ambiguous)) == s.ambiguous + One(now == Some(Ambiguous))
            && t.handed + One(was == Some(Handed)) == s.handed + One(now == Some(Handed))
  {
    CountUpdate(pages, i, p, Host);
    CountUpdate(pages, i, p, Firmware);
    CountUpdate(pages, i, p, Ambiguous);
    CountUpdate(pages, i, p, Handed);
  }

  // ---------------------------------------------------------------- backing

  predicate InRange(iova: nat, r: Region) { r.iova <= iova < r.iova + r.numPages * 4096 }

  /** Region `k` is the memory behind a page without a buffer of its own. */
  predicate Backs(r: Region, k: nat, p: Page)
    requires p.Page?
  {
    && r.inUse && r.buf.Some?
    && (if p.ownership == 1 then k == 0
        else if p.ownership == 2 then k == 1
        else k >= FIRST_EXTENT && InRange(p.iova, r))
  }

  predicate HasBacking(regions: seq<Region>, p: Page)
    requires p.Page?
  {
    exists k :: 0 <= k < |regions| && Backs(regions[k], k, p)
  }

  /** Every buffer that exists is owned by exactly the structure that points at it, completed
      buffers are owned by nobody, and every used page still has its memory; only a page that
      has come back, which is never given again, may outlive the region it lies in. */
  datatype Ledger = Ledger(owner: map<BufId, Owner>, completed: set<BufId>, next: BufId)

  ghost predicate Backed(pages: seq<Page>, regions: seq<Region>, l: Ledger)
  {
    && |pages| == MAX_PAGES && |regions| == REGIONS
    && (forall b :: b in l.owner ==> b < l.next && b !in l.completed)
    && (forall b :: b in l.completed ==> b < l.next)
    && (forall b :: 0 <= b < l.next ==> b in l.owner || b in l.completed)
    && (forall b :: b in l.owner ==> Points(pages, regions, l.owner[b], b))
    && (forall i :: 0 <= i < MAX_PAGES && pages[i].Page? ==> PageBacked(pages[i], i, regions, l))
    && (forall k :: 0 <= k < REGIONS ==> RegionBacked(regions[k], k, l))
  }

  ghost predicate Points(pages: seq<Page>, regions: seq<Region>, o: Owner, b: BufId)
    requires |pages| == MAX_PAGES && |regions| == REGIONS
  {
    match o
    case PageOwns(i) => i < MAX_PAGES && pages[i].Page? && pages[i].own == Some(b)
    case RegionOwns(k) => k < REGIONS && regions[k].buf == Some(b)
  }

  ghost predicate PageBacked(p: Page, i: nat, regions: seq<Region>, l: Ledger)
    requires p.Page?
  {
    match p.own
    case Some(b) => b in l.owner && l.owner[b] == PageOwns(i)
    case None => p.state.Returned? || HasBacking(regions, p)
  }

  ghost predicate RegionBacked(r: Region, k: nat, l: Ledger)
  {
    && (r.buf.Some? ==> r.inUse && r.buf.value in l.owner && l.owner[r.buf.value] == RegionOwns(k))
    && (!r.inUse ==> r.buf.None?)
    && (r.buf.None? ==> r.numPages == 0)
  }

  /** The buffer behind page `i`: its own, or that of the region it lies in. */
  ghost predicate BackedBy(pages: seq<Page>, regions: seq<Region>, i: nat, b: BufId)
    requires i < |pages| && pages[i].Page?
  {
    pages[i].own == Some(b) ||
    (pages[i].own.None? && exists k :: 0 <= k < |regions| && Backs(regions[k], k, pages[i]) && regions[k].buf == Some(b))
  }

  /** Safety: while the invariant holds, the memory behind a page that firmware has, may have
      or cannot be proved not to have is not completed. */
  lemma HeldMemoryIsLive(pages: seq<Page>, regions: seq<Region>, l: Ledger, i: nat)
    requires Backed(pages, regions, l) && i < MAX_PAGES && HeldPage(pages[i])
    ensures exists b :: BackedBy(pages, regions, i, b)
    ensures forall b :: BackedBy(pages, regions, i, b) ==> b in l.owner && b !in l.completed
  {
    assert PageBacked(pages[i], i, regions, l);
    if pages[i].own.Some? {
      assert BackedBy(pages, regions, i, pages[i].own.value);
    } else {
      var k :| 0 <= k < |regions| && Backs(regions[k], k, pages[i]);
      assert BackedBy(pages, regions, i, regions[k].buf.value);
    }
    forall b | BackedBy(pages, regions, i, b) ensures b in l.owner && b !in l.completed {
      if pages[i].own.None? {
        var k :| 0 <= k < |regions| && Backs(regions[k], k, pages[i]) && regions[k].buf == Some(b);
        assert RegionBacked(regions[k], k, l);
      }
    }
  }

  // ---------------------------------------------------------------- how steps keep it

  function Complete(l: Ledger, b: Option<BufId>): Ledger
  {
    match b
    case None => l
    case Some(id) => l.(owner := l.owner - {id}, completed := l.completed + {id})
  }

  /** A transition that only changes a page's state or function. */
  lemma KeepsState(pages: seq<Page>, regions: seq<Region>, l: Ledger, i: nat, p: Page)
    requires Backed(pages, regions, l) && i < MAX_PAGES && pages[i].Page? && p.Page?
    requires p.own == pages[i].own && p.iova == pages[i].iova && p.ownership == pages[i].ownership
    requires pages[i].state.Returned? ==> p.state.Returned?
    ensures Backed(pages[i := p], regions, l)
  {
    var q := pages[i := p];
    assert PageBacked(pages[i], i, regions, l);
    if p.own.None? && !p.state.Returned? {
      var k :| 0 <= k < |regions| && Backs(regions[k], k, pages[i]);
      assert Backs(regions[k], k, p);
    }
    forall b | b in l.owner ensures Points(q, regions, l.owner[b], b) {
      assert Points(pages, regions, l.owner[b], b);
    }
  }

  /** A page with its own buffer may change anything but that buffer. */
  lemma KeepsOwn(pages: seq<Page>, regions: seq<Region>, l: Ledger, i: nat, p: Page)
    requires Backed(pages, regions, l) && i < MAX_PAGES && pages[i].Page? && p.Page?
    requires p.own == pages[i].own && p.own.Some?
    ensures Backed(pages[i := p], regions, l)
  {
    assert PageBacked(pages[i], i, regions, l);
    forall b | b in l.owner ensures Points(pages[i := p], regions, l.owner[b], b) {
      assert Points(pages, regions, l.owner[b], b);
    }
  }

  /** Clearing a slot completes the buffer it owned. */
  lemma KeepsFree(pages: seq<Page>, regions: seq<Region>, l: Ledger, i: nat)
    requires Backed(pages, regions, l) && i < MAX_PAGES && pages[i].Page?
    ensures Backed(pages[i := Unused], regions, Complete(l, pages[i].own))
  {
    var m := Complete(l, pages[i].own);
    assert PageBacked(pages[i], i, regions, l);
    forall b | b in m.owner ensures Points(pages[i := Unused], regions, m.owner[b], b) {
      assert Points(pages, regions, l.owner[b], b);
    }
    forall j | 0 <= j < MAX_PAGES && j != i && pages[j].Page? ensures PageBacked(pages[j], j, regions, m) {
      assert PageBacked(pages[j], j, regions, l);
    }
    forall k | 0 <= k < REGIONS ensures RegionBacked(regions[k], k, m) {
      assert RegionBacked(regions[k], k, l);
    }
  }

  /** A free slot filled with a freshly mapped buffer. */
  lemma KeepsNewOwn(pages: seq<Page>, regions: seq<Region>, l: Ledger, i: nat, p: Page)
    requires Backed(pages, regions, l) && i < MAX_PAGES && pages[i].Unused? && p.Page? && p.own == Some(l.next)
    ensures Backed(pages[i := p], regions, l.(owner := l.owner[l.next := PageOwns(i)], next := l.next + 1))
  {
    var m := l.(owner := l.owner[l.next := PageOwns(i)], next := l.next + 1);
    forall b | b in m.owner ensures Points(pages[i := p], regions, m.owner[b], b) {
      if b != l.next {
        assert Points(pages, regions, l.owner[b], b);
      }
    }
    var q := pages[i := p];
    forall j | 0 <= j < MAX_PAGES && q[j].Page? ensures PageBacked(q[j], j, regions, m) {
      if j != i {
        assert PageBacked(pages[j], j, regions, l);
      }
    }
    forall k | 0 <= k < REGIONS ensures RegionBacked(regions[k], k, m) {
      assert RegionBacked(regions[k], k, l);
    }
  }

  /** A free slot filled with a page of a region that is already mapped. */
  lemma KeepsNewShared(pages: seq<Page>, regions: seq<Region>, l: Ledger, i: nat, p: Page, k: nat)
    requires Backed(pages, regions, l) && i < MAX_PAGES && pages[i].Unused? && p.Page? && p.own.None?
    requires k < REGIONS && Backs(regions[k], k, p)
    ensures Backed(pages[i := p], regions, l)
  {
    forall b | b in l.owner ensures Points(pages[i := p], regions, l.owner[b], b) {
      assert Points(pages, regions, l.owner[b], b);
    }
  }

  /** A buffer that is mapped and then given up before anybody points at it. */
  lemma KeepsScrapped(pages: seq<Page>, regions: seq<Region>, l: Ledger)
    requires Backed(pages, regions, l)
    ensures Backed(pages, regions, l.(completed := l.completed + {l.next}, next := l.next + 1))
  {
    var m := l.(completed := l.completed + {l.next}, next := l.next + 1);
    forall j | 0 <= j < MAX_PAGES && pages[j].Page? ensures PageBacked(pages[j], j, regions, m) {
      assert PageBacked(pages[j], j, regions, l);
    }
    forall k | 0 <= k < REGIONS ensures RegionBacked(regions[k], k, m) {
      assert RegionBacked(regions[k], k, l);
    }
  }

  /** A region nobody relies on (it has no buffer) may be reserved, cleared or relabelled. */
  lemma KeepsBare(pages: seq<Page>, regions: seq<Region>, l: Ledger, k: nat, r: Region)
    requires Backed(pages, regions, l) && k < REGIONS && regions[k].buf.None? && r.buf.None? && r.numPages == 0
    ensures Backed(pages, regions[k := r], l)
  {
    var s := regions[k := r];
    forall b | b in l.owner ensures Points(pages, s, l.owner[b], b) {
      assert Points(pages, regions, l.owner[b], b);
    }
    forall j | 0 <= j < MAX_PAGES && pages[j].Page? ensures PageBacked(pages[j], j, s, l) {
      assert PageBacked(pages[j], j, regions, l);
      if pages[j].own.None? && !pages[j].state.Returned? {
        var n :| 0 <= n < |regions| && Backs(regions[n], n, pages[j]);
        assert Backs(s[n], n, pages[j]);
      }
    }
    forall n | 0 <= n < REGIONS ensures RegionBacked(s[n], n, l) {
      assert RegionBacked(regions[n], n, l);
    }
  }

  /** A mapped buffer is installed in a reserved region. */
  lemma KeepsInstalled(pages: seq<Page>, regions: seq<Region>, l: Ledger, k: nat, r: Region)
    requires Backed(pages, regions, l) && k < REGIONS && regions[k].buf.None? && r.inUse && r.buf == Some(l.next)
    ensures Backed(pages, regions[k := r], l.(owner := l.owner[l.next := RegionOwns(k)], next := l.next + 1))
  {
    var s := regions[k := r];
    var m := l.(owner := l.owner[l.next := RegionOwns(k)], next := l.next + 1);
    forall b | b in m.owner ensures Points(pages, s, m.owner[b], b) {
      if b != l.next {
        assert Points(pages, regions, l.owner[b], b);
      }
    }
    forall j | 0 <= j < MAX_PAGES && pages[j].Page? ensures PageBacked(pages[j], j, s, m) {
      assert PageBacked(pages[j], j, regions, l);
      if pages[j].own.None? && !pages[j].state.Returned? {
        var n :| 0 <= n < |regions| && Backs(regions[n], n, pages[j]);
        assert Backs(s[n], n, pages[j]);
      }
    }
    forall n | 0 <= n < REGIONS ensures RegionBacked(s[n], n, m) {
      assert RegionBacked(regions[n], n, l);
    }
  }

  /** A region grows by a page or changes its counters: what it backed it still backs. */
  lemma KeepsGrown(pages: seq<Page>, regions: seq<Region>, l: Ledger, k: nat, r: Region)
    requires Backed(pages, regions, l) && k < REGIONS
    requires r.inUse == regions[k].inUse && r.buf == regions[k].buf && r.iova == regions[k].iova && r.numPages >= regions[k].numPages
    requires r.buf.Some? || r.numPages == regions[k].numPages
    ensures Backed(pages, regions[k := r], l)
  {
    var s := regions[k := r];
    forall b | b in l.owner ensures Points(pages, s, l.owner[b], b) {
      assert Points(pages, regions, l.owner[b], b);
    }
    forall j | 0 <= j < MAX_PAGES && pages[j].Page? ensures PageBacked(pages[j], j, s, l) {
      assert PageBacked(pages[j], j, regions, l);
      if pages[j].own.None? && !pages[j].state.Returned? {
        var n :| 0 <= n < |regions| && Backs(regions[n], n, pages[j]);
        assert Backs(s[n], n, pages[j]);
      }
    }
    forall n | 0 <= n < REGIONS ensures RegionBacked(s[n], n, l) {
      assert RegionBacked(regions[n], n, l);
    }
  }

  /** What ReleaseHostMappings tests before it gives a region up: no held page of the chunk's
      ownership, or no held page whose address lies in the extent. */
  predicate Needs(regions: seq<Region>, k: nat, p: Page)
    requires k < |regions|
  {
    HeldPage(p) && (if k == 0 then p.ownership == 1 else if k == 1 then p.ownership == 2 else InRange(p.iova, regions[k]))
  }

  /** An unheld page lies in region `k` and nowhere else. */
  predicate Relies(regions: seq<Region>, k: nat, p: Page)
    requires k < |regions|
  {
    && p.Page? && p.own.None? && !HeldPage(p) && !p.state.Returned?
    && forall n :: 0 <= n < |regions| && n != k ==> !Backs(regions[n], n, p)
  }

  /** No held page needs region `k`. Its buffer can be completed if and only if no allocated
      page relies on it either. */
  lemma DropIsSound(pages: seq<Page>, regions: seq<Region>, l: Ledger, k: nat)
    requires Backed(pages, regions, l) && k < REGIONS
    requires forall i :: 0 <= i < MAX_PAGES ==> !Needs(regions, k, pages[i])
    ensures Backed(pages, regions[k := NO_REGION], Complete(l, regions[k].buf)) <==>
              forall i :: 0 <= i < MAX_PAGES ==> !Relies(regions, k, pages[i])
  {
    if i :| 0 <= i < MAX_PAGES && Relies(regions, k, pages[i]) {
      assert !HasBacking(regions[k := NO_REGION], pages[i]);
    } else {
      KeepsDropped(pages, regions, l, k);
    }
  }

  lemma KeepsDropped(pages: seq<Page>, regions: seq<Region>, l: Ledger, k: nat)
    requires Backed(pages, regions, l) && k < REGIONS
    requires forall i :: 0 <= i < MAX_PAGES ==> !Needs(regions, k, pages[i]) && !Relies(regions, k, pages[i])
    ensures Backed(pages, regions[k := NO_REGION], Complete(l, regions[k].buf))
  {
    var s := regions[k := NO_REGION];
    var m := Complete(l, regions[k].buf);
    assert RegionBacked(regions[k], k, l);
    forall b | b in m.owner ensures Points(pages, s, m.owner[b], b) {
      assert Points(pages, regions, l.owner[b], b);
    }
    forall j | 0 <= j < MAX_PAGES && pages[j].Page? ensures PageBacked(pages[j], j, s, m) {
      assert PageBacked(pages[j], j, regions, l) && !Needs(regions, k, pages[j]) && !Relies(regions, k, pages[j]);
      if pages[j].own.None? && !pages[j].state.Returned? {
        var n :| 0 <= n < |regions| && n != k && Backs(regions[n], n, pages[j]);
        assert Backs(s[n], n, pages[j]);
      }
    }
    forall n | 0 <= n < REGIONS ensures RegionBacked(s[n], n, m) {
      assert RegionBacked(regions[n], n, l);
    }
  }
}
