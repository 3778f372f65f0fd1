/** MlxFwPages with several threads inside it. An operation is a chain of regions under the
    lock; between two of them other threads run theirs. An `Act` is one such region, and the
    operations that leave gaps are taken apart here and let any acts run in the gaps. */
module FwPageThreads {
  import opened Words
  import opened PageLedger
  import opened FwPages

  /** The regions under the lock, and the one write ProvidePages makes without it. */
  datatype Act =
    | Alloc
    | Stamp(slot: nat, ownership: Kind, functionId: u16)
    | Release(index: nat)
    | Mark(idx: seq<nat>)
    | Settle(idx: seq<nat>, code: Code, functionId: u16)
    | Accept(functionId: u16, pas: seq<nat>)
    | Reserve(thread: nat, k: nat, functionId: u16)
    | Install(thread: nat, numPages: nat, functionId: u16, mapping: Mapping)
    | Credit(k: nat, given: nat, ownership: Kind)
    | ClearOne
    | Drop(k: nat)
    | Isolation
    | IsolationOf(functionId: u16)
    | Lifting

  /** Regions that threads have reserved and are still mapping a buffer for. */
  predicate Reserved(resv: map<nat, nat>, regions: seq<Region>)
  {
    && (forall t :: t in resv ==> Bare(regions, resv[t]))
    && (forall t, u :: t in resv && u in resv && resv[t] == resv[u] ==> t == u)
  }

  predicate Bare(regions: seq<Region>, k: nat)
  {
    k < |regions| && regions[k].inUse && regions[k].buf.None?
  }

  /** Which acts are right where: a region may be dropped unless an allocated page relies on it
      or a thread has it reserved, and a page that lies in a region may only be stamped with
      an ownership that leaves it there. Every other act is always right. */
  ghost predicate Safe(pages: seq<Page>, regions: seq<Region>, resv: map<nat, nat>, act: Act)
  {
    match act
    case Stamp(slot, ownership, functionId) =>
      slot < |pages| && pages[slot].Page? && pages[slot].own.None? && !pages[slot].state.Returned? ==>
        HasBacking(regions, pages[slot].(ownership := ownership))
    case Drop(k) =>
      k < |regions| && FwPages.Dropped(regions, k, pages) ==>
        k !in resv.Values && forall i :: 0 <= i < |pages| ==> !Relies(regions, k, pages[i])
    case _ => true
  }

  function KindOf(k: nat): Kind
  {
    if k == 0 then 1 else if k == 1 then 2 else 3
  }

  // ---------------------------------------------------------------- what acts leave alone

  predicate Discards(act: Act, i: nat)
  {
    act.ClearOne? || (act.Release? && act.index == i)
  }

  /** A slot keeps the memory it has. */
  predicate SlotKept(p: Page, q: Page)
  {
    p.Page? ==> q.Page? && q.own == p.own && q.iova == p.iova
  }

  predicate BufferKept(r: Region, t: Region)
  {
    r.buf.Some? ==> t.buf == r.buf
  }

  /** No page that lies in a region is, or is about to be, offered to firmware. */
  predicate NoneLoose(pages: seq<Page>)
  {
    forall i {:trigger Loose(pages[i])} :: 0 <= i < |pages| ==> !Loose(pages[i])
  }

  predicate Loose(p: Page)
  {
    p.Page? && p.own.None? && (p.state.Allocated? || p.state.GivePending?)
  }

  /** Firmware's pages stay firmware's, unless it named them in a reply. */
  predicate StaysGiven(p: Page, q: Page, log: set<nat>)
  {
    match p
    case Page(_, _, Given, own, iova) => iova in log || (SlotKept(p, q) && (q.state.Given? || q.state.Quarantine?))
    case Page(_, _, Quarantine, own, iova) => SlotKept(p, q) && q.state.Quarantine?
    case _ => true
  }

  ghost predicate PagesStay(was: seq<Page>, now: seq<Page>, log: set<nat>)
  {
    |was| == |now| && forall i {:trigger StaysGiven(was[i], now[i], log)} :: 0 <= i < |was| ==> StaysGiven(was[i], now[i], log)
  }

  ghost predicate SlotsStay(was: seq<Page>, now: seq<Page>, act: Act)
  {
    |was| == |now| && forall i {:trigger SlotKept(was[i], now[i])} :: 0 <= i < |was| && !Discards(act, i) ==> SlotKept(was[i], now[i])
  }

  ghost predicate BuffersStay(was: seq<Region>, now: seq<Region>)
  {
    |was| == |now| && forall k {:trigger BufferKept(was[k], now[k])} :: 0 <= k < |was| ==> BufferKept(was[k], now[k])
  }

  lemma ExtentsKeep(was: seq<Region>, now: seq<Region>, resv: map<nat, nat>)
    requires SameExtents(was, now) && Reserved(resv, was)
    ensures Reserved(resv, now) && BuffersStay(was, now)
  {
    forall k | 0 <= k < |was| ensures SameExtent(was[k], now[k]) {}
    forall t | t in resv ensures Bare(now, resv[t]) {
      assert Bare(was, resv[t]);
    }
  }

  lemma KeptStays(was: seq<Page>, now: seq<Page>, log: set<nat>)
    requires Kept(was, now, log)
    ensures PagesStay(was, now, log)
  {
    forall i | 0 <= i < |was| ensures StaysGiven(was[i], now[i], log) {
      assert KeptPage(was[i], now[i], log);
    }
  }

  // ---------------------------------------------------------------- one act

  /** One act. The invariant and the reservations hold afterwards if and only if the act was
      right where it happened. */
  method Do(m: Manager, act: Act, resv: map<nat, nat>) returns (now: map<nat, nat>, sound: bool)
    requires m.Valid() && Reserved(resv, m.regions)
    modifies m
    ensures sound <==> m.Valid() && Reserved(now, m.regions)
    ensures sound <==> Safe(old(m.pages), old(m.regions), resv, act)
    ensures |m.pages| == MAX_PAGES && |m.regions| == REGIONS
    ensures Grew(old(m.ledger), m.ledger) && old(m.log) <= m.log
    ensures SlotsStay(old(m.pages), m.pages, act) && (!act.Drop? ==> BuffersStay(old(m.regions), m.regions))
    ensures !act.Lifting? ==> PagesStay(old(m.pages), m.pages, m.log)
    ensures !act.Install? && NoneLoose(old(m.pages)) ==> NoneLoose(m.pages)
    ensures !act.Reserve? ==> now.Keys <= resv.Keys
  {
    now, sound := resv, true;
    ExtentsKeep(m.regions, m.regions, resv);
    match act {
      case Stamp(slot, ownership, functionId) =>
        sound := DoStamp(m, slot, ownership, functionId);
      case Reserve(thread, k, functionId) =>
        now := DoReserve(m, thread, k, functionId, resv);
      case Install(thread, numPages, functionId, mapping) =>
        now := DoInstall(m, thread, numPages, functionId, mapping, resv);
        KeptStays(old(m.pages), m.pages, m.log);
      case Drop(k) =>
        sound := DoDrop(m, k, resv);
      case _ =>
        DoOther(m, act, resv);
    }
    if !act.Install? {
      forall i | 0 <= i < MAX_PAGES ensures Loose(m.pages[i]) ==> Loose(old(m.pages)[i]) || !NoneLoose(old(m.pages)) {}
    }
  }

  /** The acts that are always right and leave regions where they are. */
  method DoOther(m: Manager, act: Act, ghost resv: map<nat, nat>)
    requires m.Valid() && Reserved(resv, m.regions)
    requires !act.Stamp? && !act.Reserve? && !act.Install? && !act.Drop?
    modifies m
    ensures m.Valid() && Reserved(resv, m.regions)
    ensures Grew(old(m.ledger), m.ledger) && old(m.log) <= m.log
    ensures SlotsStay(old(m.pages), m.pages, act) && BuffersStay(old(m.regions), m.regions)
    ensures !act.Lifting? ==> PagesStay(old(m.pages), m.pages, m.log)
    ensures NoneLoose(old(m.pages)) ==> NoneLoose(m.pages)
  {
    ExtentsKeep(m.regions, m.regions, resv);
    if OnSlots(act) {
      DoOnSlots(m, act);
    } else if act.Accept? {
      DoAccept(m, act.functionId, act.pas, resv);
    } else if act.Credit? {
      if act.k < REGIONS {
        m.CreditRegion(act.k, act.given, act.ownership);
        ExtentsKeep(old(m.regions), m.regions, resv);
      }
    } else if act.Isolation? {
      m.EnterQuarantine();
      ExtentsKeep(old(m.regions), m.regions, resv);
      KeptStays(old(m.pages), m.pages, m.log);
    } else if act.IsolationOf? {
      m.QuarantineFunction(act.functionId);
      KeptStays(old(m.pages), m.pages, m.log);
    } else {
      m.ReleaseQuarantineAfterReset();
      ExtentsKeep(old(m.regions), m.regions, resv);
    }
    forall i | 0 <= i < MAX_PAGES ensures Loose(m.pages[i]) ==> Loose(old(m.pages)[i]) {}
  }

  predicate OnSlots(act: Act)
  {
    act.Alloc? || act.Release? || act.Mark? || act.Settle? || act.ClearOne?
  }

  /** Those of them that touch slots and their own buffers only. */
  method DoOnSlots(m: Manager, act: Act)
    requires m.Valid() && OnSlots(act)
    modifies m`pages, m`hostAllocated, m`returnedCount, m`ambiguousOwned, m`firmwareOwned, m`quarantined, m`ledger
    ensures m.Valid() && Grew(old(m.ledger), m.ledger)
    ensures SlotsStay(old(m.pages), m.pages, act) && PagesStay(old(m.pages), m.pages, m.log)
    ensures forall i :: 0 <= i < MAX_PAGES ==> (Loose(m.pages[i]) ==> Loose(old(m.pages)[i]))
  {
    match act {
      case Alloc =>
        var code, slot := m.AllocPage();
      case Release(index) =>
        m.ReleasePage(index);
      case Mark(idx) =>
        if forall n :: 0 <= n < |idx| ==> idx[n] < MAX_PAGES {
          m.MarkPending(idx);
        }
      case Settle(idx, code, functionId) =>
        if forall n :: 0 <= n < |idx| ==> idx[n] < MAX_PAGES {
          m.SettleBatch(idx, code, functionId);
        }
      case ClearOne =>
        var found := m.ClearNext();
    }
  }

  method DoStamp(m: Manager, slot: nat, ownership: Kind, functionId: u16) returns (sound: bool)
    requires m.Valid()
    modifies m`pages
    ensures sound <==> m.Valid()
    ensures sound <==> Safe(old(m.pages), m.regions, map[], Stamp(slot, ownership, functionId))
    ensures m.pages == if slot < MAX_PAGES && old(m.pages)[slot].Page?
                       then old(m.pages)[slot := old(m.pages)[slot].(ownership := ownership, functionId := functionId)] else old(m.pages)
  {
    sound := true;
    if slot < MAX_PAGES && m.pages[slot].Page? {
      var p := m.pages[slot].(ownership := ownership, functionId := functionId);
      ScanUpdate(m.pages, slot, p);
      sound := p.own.None? && !p.state.Returned? ==> HasBacking(m.regions, p);
      StampIsSound(m.pages, m.regions, m.ledger, slot, p);
      m.pages := m.pages[slot := p];
    }
  }

  lemma StampIsSound(pages: seq<Page>, regions: seq<Region>, l: Ledger, i: nat, p: Page)
    requires Backed(pages, regions, l) && i < MAX_PAGES && pages[i].Page? && p.Page?
    requires p == pages[i].(ownership := p.ownership, functionId := p.functionId)
    ensures Backed(pages[i := p], regions, l) <==> (p.own.None? && !p.state.Returned? ==> HasBacking(regions, p))
  {
    var q := pages[i := p];
    assert PageBacked(pages[i], i, regions, l);
    assert q[i] == p;
    forall b | b in l.owner ensures Points(q, regions, l.owner[b], b) {
      assert Points(pages, regions, l.owner[b], b);
    }
    forall j | 0 <= j < MAX_PAGES && j != i && q[j].Page? ensures PageBacked(q[j], j, regions, l) {
      assert PageBacked(pages[j], j, regions, l);
    }
  }

  method DoAccept(m: Manager, functionId: nat, pas: seq<nat>, ghost resv: map<nat, nat>)
    requires m.Valid() && Reserved(resv, m.regions)
    modifies m
    ensures m.Valid() && Reserved(resv, m.regions) && m.ledger == old(m.ledger) && old(m.log) <= m.log
    ensures BuffersStay(old(m.regions), m.regions) && PagesStay(old(m.pages), m.pages, m.log)
    ensures forall i :: 0 <= i < MAX_PAGES ==>
              m.pages[i] == old(m.pages)[i] || (GivenTo(old(m.pages)[i], None) && m.pages[i] == old(m.pages)[i].(state := Returned))
  {
    ExtentsKeep(m.regions, m.regions, resv);
    var valid := m.AcceptReply(functionId, pas);
    if valid {
      ExtentsKeep(old(m.regions), m.regions, resv);
    }
    KeptStays(old(m.pages), m.pages, m.log);
  }

  /** The region is taken unless it is in use or the manager is in quarantine. */
  method DoReserve(m: Manager, thread: nat, k: nat, functionId: u16, resv: map<nat, nat>) returns (now: map<nat, nat>)
    requires m.Valid() && Reserved(resv, m.regions)
    modifies m`regions
    ensures m.Valid() && Reserved(now, m.regions) && BuffersStay(old(m.regions), m.regions)
    ensures now == if thread !in resv && k < REGIONS && !old(m.regions)[k].inUse && !m.quarantined then resv[thread := k] else resv
    ensures m.regions == if now == resv then old(m.regions) else old(m.regions)[k := NO_REGION.(inUse := true, functionId := m.regions[k].functionId)]
  {
    now := resv;
    if thread !in resv && k < REGIONS && !m.regions[k].inUse && !m.quarantined {
      assert RegionBacked(m.regions[k], k, m.ledger);
      forall t | t in resv ensures resv[t] != k && Bare(m.regions, resv[t]) {}
      var reserved := NO_REGION.(inUse := true, functionId := if k >= FIRST_EXTENT then functionId else 0);
      KeepsBare(m.pages, m.regions, m.ledger, k, reserved);
      m.regions := m.regions[k := reserved];
      now := resv[thread := k];
      forall t | t in now ensures Bare(m.regions, now[t]) {
        assert t != thread ==> Bare(old(m.regions), resv[t]);
      }
    }
  }

  /** The thread installs its buffer and fills the region, or gives the reservation back. */
  method DoInstall(m: Manager, thread: nat, numPages: nat, functionId: u16, mapping: Mapping, resv: map<nat, nat>) returns (now: map<nat, nat>)
    requires m.Valid() && Reserved(resv, m.regions)
    modifies m`pages, m`regions, m`hostAllocated, m`ledger
    ensures m.Valid() && Reserved(now, m.regions) && Grew(old(m.ledger), m.ledger) && now == resv - {thread}
    ensures BuffersStay(old(m.regions), m.regions) && Kept(old(m.pages), m.pages, m.log)
    ensures forall i :: 0 <= i < MAX_PAGES && old(m.pages)[i].Page? ==> m.pages[i] == old(m.pages)[i]
  {
    now := resv - {thread};
    if thread in resv {
      var k := resv[thread];
      assert Bare(m.regions, k);
      var ok, idx := InstallInto(m, k, numPages, functionId, mapping);
      forall t | t in now ensures Bare(m.regions, now[t]) {
        assert Bare(old(m.regions), resv[t]) && resv[t] != k;
      }
    }
  }

  method InstallInto(m: Manager, k: nat, numPages: nat, functionId: u16, mapping: Mapping) returns (ok: bool, idx: seq<nat>)
    requires m.Valid() && Bare(m.regions, k)
    modifies m`pages, m`regions, m`hostAllocated, m`ledger
    ensures m.Valid() && Grew(old(m.ledger), m.ledger) && Kept(old(m.pages), m.pages, m.log)
    ensures ok <==> Usable(mapping, numPages) && FwPages.Frees(old(m.pages)) >= numPages
    ensures ok ==> FilledWith(old(m.pages), m.pages, idx, functionId, KindOf(k), mapping.address) && |idx| == numPages
    ensures ok ==> m.regions[k].inUse && m.regions[k].buf.Some? && m.regions[k].iova == mapping.address && m.regions[k].numPages == numPages
    ensures !ok ==> m.pages == old(m.pages) && !m.regions[k].inUse
    ensures m.regions == old(m.regions)[k := m.regions[k]]
    ensures forall i :: 0 <= i < MAX_PAGES && old(m.pages)[i].Page? ==> m.pages[i] == old(m.pages)[i]
  {
    assert RegionBacked(m.regions[k], k, m.ledger);
    var base;
    base, ok := m.MapRegion(k, numPages, mapping);
    idx := [];
    if ok {
      idx := m.FillRegion(k, numPages, KindOf(k), functionId, base);
      FilledKeepsUsed(old(m.pages), m.pages, idx, functionId, KindOf(k), base);
    } else {
      KeepsBare(m.pages, m.regions, m.ledger, k, m.regions[k].(inUse := false));
      m.regions := m.regions[k := m.regions[k].(inUse := false)];
    }
  }

  lemma FilledKeepsUsed(was: seq<Page>, now: seq<Page>, idx: seq<nat>, functionId: u16, ownership: nat, base: nat)
    requires FilledWith(was, now, idx, functionId, ownership, base)
    ensures forall i :: 0 <= i < |was| && was[i].Page? ==> now[i] == was[i]
  {
    forall i | 0 <= i < |was| && was[i].Page? ensures now[i] == was[i] {
      forall m | 0 <= m < |idx| ensures idx[m] != i {
        assert FilledNth(was, now, idx, m, functionId, ownership, base);
      }
      assert LeftAlone(was, now, idx, i);
    }
  }

  method DoDrop(m: Manager, k: nat, resv: map<nat, nat>) returns (sound: bool)
    requires m.Valid() && Reserved(resv, m.regions)
    modifies m`regions, m`ledger
    ensures sound <==> m.Valid() && Reserved(resv, m.regions)
    ensures sound <==> Safe(m.pages, old(m.regions), resv, Drop(k))
    ensures Grew(old(m.ledger), m.ledger)
    ensures m.regions == if k < REGIONS then old(m.regions)[k := AfterRelease(old(m.regions), k, m.pages)] else old(m.regions)
    ensures m.ledger == if k < REGIONS && FwPages.Dropped(old(m.regions), k, m.pages) then Complete(old(m.ledger), old(m.regions)[k].buf) else old(m.ledger)
  {
    sound := true;
    if k < REGIONS {
      var was := m.regions[k].inUse;
      sound := m.DropUnneeded(k);
      var gone := was && !m.regions[k].inUse;
      if gone && k in resv.Values {
        var t :| t in resv && resv[t] == k;
        assert !Bare(m.regions, resv[t]);
        sound := false;
      }
      forall t | t in resv && resv[t] != k ensures Bare(m.regions, resv[t]) {
        assert Bare(old(m.regions), resv[t]);
      }
    }
  }

  // ---------------------------------------------------------------- any acts

  /** Acts that are right wherever they happen. */
  predicate Harmless(act: Act) { !act.Stamp? && !act.Drop? }

  predicate AllHarmless(acts: seq<Act>)
  {
    forall n :: 0 <= n < |acts| ==> Harmless(acts[n])
  }

  predicate Spared(acts: seq<Act>, i: nat)
  {
    forall n :: 0 <= n < |acts| ==> !Discards(acts[n], i)
  }

  predicate NoDrops(acts: seq<Act>)
  {
    forall n :: 0 <= n < |acts| ==> !acts[n].Drop?
  }

  predicate NothingInstalled(acts: seq<Act>)
  {
    forall n :: 0 <= n < |acts| ==> !acts[n].Install? && !acts[n].Reserve?
  }

  predicate NothingLifted(acts: seq<Act>)
  {
    forall n :: 0 <= n < |acts| ==> !acts[n].Lifting?
  }

  /** What a run of acts leaves alone, as its acts do. */
  ghost predicate SlotsSpared(was: seq<Page>, now: seq<Page>, acts: seq<Act>)
  {
    |was| == |now| && forall i {:trigger SlotKept(was[i], now[i])} :: 0 <= i < |was| && Spared(acts, i) ==> SlotKept(was[i], now[i])
  }

  /** Any interleaving: acts of any threads, in any order. It goes on as long as each act is
      right where it happens, and only then. Until then the memory behind every page firmware
      has or may have is live, no buffer changes hands, and without a verified reset firmware
      loses only pages it has named. */
  method Interleave(m: Manager, acts: seq<Act>, resv: map<nat, nat>) returns (now: map<nat, nat>, sound: bool, done: nat)
    requires m.Valid() && Reserved(resv, m.regions)
    modifies m
    ensures sound <==> m.Valid() && Reserved(now, m.regions)
    ensures done <= |acts| && (sound ==> done == |acts|)
    ensures acts == [] ==> sound && unchanged(m) && now == resv
    ensures |m.pages| == MAX_PAGES && |m.regions| == REGIONS
    ensures Grew(old(m.ledger), m.ledger) && old(m.log) <= m.log
    ensures AllHarmless(acts) ==> sound
    ensures NothingLifted(acts) ==> PagesStay(old(m.pages), m.pages, m.log)
    ensures SlotsSpared(old(m.pages), m.pages, acts)
    ensures NoDrops(acts) ==> BuffersStay(old(m.regions), m.regions)
    ensures NothingInstalled(acts) ==> (NoneLoose(old(m.pages)) ==> NoneLoose(m.pages)) && now.Keys <= resv.Keys
    ensures sound ==> forall i, b :: 0 <= i < MAX_PAGES && HeldPage(m.pages[i]) && BackedBy(m.pages, m.regions, i, b) ==>
              b in m.ledger.owner && b !in m.ledger.completed
  {
    now, sound, done := resv, true, 0;
    while done < |acts| && sound
      invariant sound <==> m.Valid() && Reserved(now, m.regions)
      invariant done <= |acts| && (done == 0 ==> sound && unchanged(m) && now == resv)
      invariant |m.pages| == MAX_PAGES && |m.regions| == REGIONS
      invariant Grew(old(m.ledger), m.ledger) && old(m.log) <= m.log
      invariant AllHarmless(acts) ==> sound
      invariant NothingLifted(acts) ==> PagesStay(old(m.pages), m.pages, m.log)
      invariant SlotsSpared(old(m.pages), m.pages, acts)
      invariant NoDrops(acts) ==> BuffersStay(old(m.regions), m.regions)
      invariant NothingInstalled(acts) ==> (NoneLoose(old(m.pages)) ==> NoneLoose(m.pages)) && now.Keys <= resv.Keys
      decreases |acts| - done
    {
      ghost var pages, regions, log := m.pages, m.regions, m.log;
      now, sound := Do(m, acts[done], now);
      SlotsOn(old(m.pages), pages, m.pages, acts, done);
      if NothingLifted(acts) {
        PagesOn(old(m.pages), pages, m.pages, log, m.log);
      }
      if NoDrops(acts) {
        BuffersOn(old(m.regions), regions, m.regions);
      }
      done := done + 1;
    }
    if sound {
      HeldIsLive(m);
    }
  }

  lemma HeldIsLive(m: Manager)
    requires m.Valid()
    ensures forall i, b :: 0 <= i < MAX_PAGES && HeldPage(m.pages[i]) && BackedBy(m.pages, m.regions, i, b) ==>
              b in m.ledger.owner && b !in m.ledger.completed
  {
    forall i | 0 <= i < MAX_PAGES && HeldPage(m.pages[i])
      ensures forall b :: BackedBy(m.pages, m.regions, i, b) ==> b in m.ledger.owner && b !in m.ledger.completed
    {
      HeldMemoryIsLive(m.pages, m.regions, m.ledger, i);
    }
  }

  lemma SlotsOn(a: seq<Page>, b: seq<Page>, c: seq<Page>, acts: seq<Act>, n: nat)
    requires n < |acts| && SlotsSpared(a, b, acts) && SlotsStay(b, c, acts[n])
    ensures SlotsSpared(a, c, acts)
  {
    forall i | 0 <= i < |a| && Spared(acts, i) ensures SlotKept(a[i], c[i]) {
      assert SlotKept(a[i], b[i]) && SlotKept(b[i], c[i]);
    }
  }

  lemma PagesOn(a: seq<Page>, b: seq<Page>, c: seq<Page>, early: set<nat>, late: set<nat>)
    requires PagesStay(a, b, early) && PagesStay(b, c, late) && early <= late
    ensures PagesStay(a, c, late)
  {
    forall i | 0 <= i < |a| ensures StaysGiven(a[i], c[i], late) {
      assert StaysGiven(a[i], b[i], early) && StaysGiven(b[i], c[i], late);
    }
  }

  lemma BuffersOn(a: seq<Region>, b: seq<Region>, c: seq<Region>)
    requires BuffersStay(a, b) && BuffersStay(b, c)
    ensures BuffersStay(a, c)
  {
    forall k | 0 <= k < |a| ensures BufferKept(a[k], c[k]) {
      assert BufferKept(a[k], b[k]) && BufferKept(b[k], c[k]);
    }
  }

  // ---------------------------------------------------------------- a GIVE among other threads

  /** The gap of ManagePages: the pages are tested without the lock and the command is laid out
      for them; before they are marked other threads act. When the command goes to firmware,
      a buffer behind a page it names is live if and only if the slot or region that had it
      still has it; and so it is when nobody in between discards one of the slots, drops a
      region or stamps a page. */
  method TestAmong(m: Manager, idx: seq<nat>, others: seq<Act>, resv: map<nat, nat>)
    returns (accepted: bool, now: map<nat, nat>, sound: bool)
    requires m.Valid() && Reserved(resv, m.regions)
    modifies m
    ensures accepted <==> GiveAccepted(old(m.pages), idx)
    ensures !accepted ==> sound && unchanged(m)
    ensures others == [] ==> sound && unchanged(m)
    ensures |m.pages| == MAX_PAGES && |m.regions| == REGIONS
    ensures sound <==> m.Valid() && Reserved(now, m.regions)
    ensures sound ==> forall n, b {:trigger Named(old(m.pages), old(m.regions), idx, n, b)} ::
              Named(old(m.pages), old(m.regions), idx, n, b) ==>
                b in old(m.ledger).owner && (b !in m.ledger.completed <==> Points(m.pages, m.regions, old(m.ledger).owner[b], b))
    ensures AllHarmless(others) && (forall n :: 0 <= n < |idx| ==> Spared(others, idx[n])) ==>
              sound && forall n, b {:trigger Named(old(m.pages), old(m.regions), idx, n, b)} ::
                Named(old(m.pages), old(m.regions), idx, n, b) ==> b !in m.ledger.completed
  {
    now, sound := resv, true;
    accepted := m.TestBatch(idx);
    if accepted {
      assert forall n :: 0 <= n < |idx| ==> IsAllocated(m.pages, idx[n]);
      var done;
      now, sound, done := Interleave(m, others, resv);
    }
    if sound {
      forall n, b | Named(old(m.pages), old(m.regions), idx, n, b)
        ensures b in old(m.ledger).owner && (b !in m.ledger.completed <==> Points(m.pages, m.regions, old(m.ledger).owner[b], b))
        ensures AllHarmless(others) && (forall n :: 0 <= n < |idx| ==> Spared(others, idx[n])) ==> b !in m.ledger.completed
      {
        NamedIsOwned(old(m.pages), old(m.regions), old(m.ledger), idx, n, b);
        LiveWhereItWas(old(m.ledger), m.pages, m.regions, m.ledger, b);
        if accepted && AllHarmless(others) && forall n :: 0 <= n < |idx| ==> Spared(others, idx[n]) {
          SparedIsLive(old(m.pages), old(m.regions), old(m.ledger), m.pages, m.regions, idx, n, b, others);
        }
      }
    }
  }

  /** The whole of it. `table`, `extents` and `books` are what the command finds. */
  method GiveAmong(m: Manager, idx: seq<nat>, functionId: u16, answer: Answer, others: seq<Act>, resv: map<nat, nat>, drain: bool)
    returns (code: FwPages.Code, sound: bool, ghost table: seq<Page>, ghost extents: seq<Region>, ghost books: Ledger)
    requires m.Valid() && Reserved(resv, m.regions)
    modifies m
    ensures sound ==> m.Valid()
    ensures !GiveAccepted(old(m.pages), idx) ==> code.BadArgument? && unchanged(m)
    ensures |table| == MAX_PAGES && |extents| == REGIONS
    ensures sound ==> forall n, b {:trigger Named(old(m.pages), old(m.regions), idx, n, b)} ::
              Named(old(m.pages), old(m.regions), idx, n, b) ==>
                b in old(m.ledger).owner && (b !in books.completed <==> Points(table, extents, old(m.ledger).owner[b], b))
    ensures AllHarmless(others) && (forall n :: 0 <= n < |idx| ==> Spared(others, idx[n])) ==>
              sound && forall n, b {:trigger Named(old(m.pages), old(m.regions), idx, n, b)} ::
                Named(old(m.pages), old(m.regions), idx, n, b) ==> b !in books.completed
    ensures others == [] && !drain && GiveAccepted(old(m.pages), idx) ==>
              code == answer.code && forall i :: 0 <= i < MAX_PAGES ==> m.pages[i] == AfterGive(old(m.pages)[i], i in idx, code, functionId)
  {
    var accepted, now;
    accepted, now, sound := TestAmong(m, idx, others, resv);
    table, extents, books := m.pages, m.regions, m.ledger;
    if !accepted || !sound {
      return BadArgument, sound, table, extents, books;
    }
    code := m.FinishGive(idx, functionId, answer, drain);
  }

  /** `b` is a buffer behind the n-th page of the batch. */
  ghost predicate Named(pages: seq<Page>, regions: seq<Region>, idx: seq<nat>, n: nat, b: nat)
  {
    n < |idx| && IsAllocated(pages, idx[n]) && BackedBy(pages, regions, idx[n], b)
  }

  lemma NamedIsOwned(pages: seq<Page>, regions: seq<Region>, l: Ledger, idx: seq<nat>, n: nat, b: nat)
    requires Backed(pages, regions, l) && Named(pages, regions, idx, n, b)
    ensures b in l.owner && b < l.next && b !in l.completed
    ensures if pages[idx[n]].own.Some? then l.owner[b] == PageOwns(idx[n])
            else exists k :: 0 <= k < REGIONS && l.owner[b] == RegionOwns(k) && regions[k].buf == Some(b)
  {
    var i := idx[n];
    assert PageBacked(pages[i], i, regions, l);
    if pages[i].own.None? {
      var k :| 0 <= k < |regions| && Backs(regions[k], k, pages[i]) && regions[k].buf == Some(b);
      assert RegionBacked(regions[k], k, l);
    }
  }

  /** Live means: where it was. */
  lemma LiveWhereItWas(was: Ledger, pages: seq<Page>, regions: seq<Region>, l: Ledger, b: nat)
    requires Backed(pages, regions, l) && Grew(was, l) && b in was.owner && b < was.next
    ensures b !in l.completed <==> Points(pages, regions, was.owner[b], b)
  {
    if b in l.owner {
      assert Points(pages, regions, l.owner[b], b);
    } else {
      match was.owner[b]
      case PageOwns(i) =>
        assert i < MAX_PAGES && pages[i].Page? ==> PageBacked(pages[i], i, regions, l);
      case RegionOwns(k) =>
        assert k < REGIONS ==> RegionBacked(regions[k], k, l);
    }
  }

  lemma SparedIsLive(p0: seq<Page>, r0: seq<Region>, l0: Ledger, pages: seq<Page>, regions: seq<Region>,
                     idx: seq<nat>, n: nat, b: nat, others: seq<Act>)
    requires Backed(p0, r0, l0) && |pages| == MAX_PAGES && |regions| == REGIONS && Named(p0, r0, idx, n, b) && b in l0.owner
    requires SlotsSpared(p0, pages, others) && BuffersStay(r0, regions) && Spared(others, idx[n])
    ensures Points(pages, regions, l0.owner[b], b)
  {
    NamedIsOwned(p0, r0, l0, idx, n, b);
    assert SlotKept(p0[idx[n]], pages[idx[n]]);
    if p0[idx[n]].own.None? {
      var k :| 0 <= k < REGIONS && l0.owner[b] == RegionOwns(k) && r0[k].buf == Some(b);
      assert BufferKept(r0[k], regions[k]);
    }
  }

  // ---------------------------------------------------------------- releasing among other threads

  /** The gap of ReleaseHostMappings: its two stages take the lock anew. */
  method ReleaseAmong(m: Manager, others: seq<Act>, resv: map<nat, nat>) returns (code: FwPages.Code, now: map<nat, nat>, sound: bool)
    requires m.Valid() && Reserved(resv, m.regions)
    modifies m
    ensures sound <==> m.Valid() && Reserved(now, m.regions)
    ensures old(m.quarantined) || old(m.ambiguousOwned) > 0 ==> code.NotReady? && sound && unchanged(m)
    ensures resv == map[] && AllHarmless(others) && NothingInstalled(others) ==> sound
    ensures Grew(old(m.ledger), m.ledger)
  {
    now, sound := resv, true;
    var ambiguous := m.GetAmbiguousOwned();
    if m.quarantined || ambiguous > 0 {
      return NotReady, resv, true;
    }
    m.ReleasePages();
    OnlyGivenIsLeft(old(m.pages), m.pages);
    var done;
    now, sound, done := Interleave(m, others, resv);
    var k := 0;
    while k < REGIONS && sound
      invariant k <= REGIONS && (sound <==> m.Valid() && Reserved(now, m.regions)) && Grew(old(m.ledger), m.ledger)
      invariant resv == map[] && AllHarmless(others) && NothingInstalled(others) ==> sound && NoneLoose(m.pages) && now == map[]
    {
      if resv == map[] && AllHarmless(others) && NothingInstalled(others) {
        NothingRelies(m.pages, m.regions, k);
      }
      sound := DoDrop(m, k, now);
      k := k + 1;
    }
    code := Success;
  }

  lemma OnlyGivenIsLeft(was: seq<Page>, now: seq<Page>)
    requires |was| == |now| == MAX_PAGES && Scan(was).ambiguous == 0
    requires forall i :: 0 <= i < MAX_PAGES ==> now[i] == if HeldPage(was[i]) then was[i] else Unused
    ensures NoneLoose(now)
  {
    CountPositive(was, Ambiguous);
    forall i | 0 <= i < MAX_PAGES ensures !Loose(now[i]) {
      assert ClassOf(was[i]) != Some(Ambiguous);
    }
  }

  lemma NothingRelies(pages: seq<Page>, regions: seq<Region>, k: nat)
    requires NoneLoose(pages) && k < |regions|
    ensures forall i :: 0 <= i < |pages| ==> !Relies(regions, k, pages[i])
  {
    forall i | 0 <= i < |pages| ensures !Relies(regions, k, pages[i]) {
      assert !Loose(pages[i]);
    }
  }
}
