/** MlxFwPages.cpp: page slots given to firmware with MANAGE_PAGES and taken back. Firmware
    and the allocator are the environment: their answers are parameters where a run below needs
    to choose them and arbitrary (`*`) elsewhere. A command may service queued PAGE_REQUEST
    events before it returns; `drain` says whether the caller may trigger that, since
    DrainPendingPageRequests does not nest. */
module FwPages {
  import opened Words
  import opened PageLedger

  datatype Code = Success | Timeout | NotReady | Busy | BadArgument | NoMemory | NoSpace | IOError | InternalError

  const MANAGE_MAX: nat := 512

  // ---------------------------------------------------------------- what the environment says

  /** One MANAGE_PAGES command: the outcome, whether the host finds room for the reply before
      and after it, the addresses a TAKE reply names, and the page requests serviced before
      the command returns. */
  datatype Answer = Answer(room: bool, code: Code, scratch: bool, reply: seq<nat>, queue: seq<Request>)

  datatype Request = Request(functionId: u16, numPages: int, mapping: Mapping, answers: seq<Answer>)

  /** What mapping a large buffer comes to. */
  datatype Mapping = Mapping(indices: bool, memory: bool, mapped: bool, segCount: nat, address: nat, length: nat)

  function Nth(answers: seq<Answer>, n: nat): Answer
  {
    if n < |answers| then answers[n] else Answer(false, NotReady, false, [], [])
  }

  function BufferSize(numPages: nat): nat
  {
    if 0x2_0000 < numPages * 4096 then (numPages * 4096 + 0x3FFF) / 0x4000 * 0x4000 else 0x2_0000
  }

  predicate Usable(m: Mapping, numPages: nat)
  {
    m.indices && m.memory && m.mapped && m.segCount == 1 && m.length >= BufferSize(numPages) && m.address != 0 && m.address % 4096 == 0
  }

  /** The time without progress, in steps of 50 ms. */
  function Pause(noProgressMs: nat, taken: nat): nat
  {
    if taken > 0 then 0 else noProgressMs + 50
  }

  /** A TAKE that firmware carries out, for all the pages asked. */
  predicate Whole(a: Answer, numPages: nat)
  {
    a.room && a.code.Success? && a.scratch && |a.reply| == numPages
  }

  // ---------------------------------------------------------------- what batches do to the table

  /** A GIVE batch is encoded only for 1..512 slots that are all allocated. */
  ghost predicate GiveAccepted(pages: seq<Page>, idx: seq<nat>)
  {
    && 0 < |idx| <= MANAGE_MAX
    && forall n :: 0 <= n < |idx| ==> IsAllocated(pages, idx[n])
  }

  predicate IsAllocated(pages: seq<Page>, i: nat)
  {
    i < |pages| && pages[i].Page? && pages[i].state.Allocated?
  }

  /** What a page in flight becomes once the command's outcome is known. */
  function Settled(p: Page, code: Code, functionId: u16): Page
    requires p.Page?
  {
    match code
    case Success => p.(state := Given, functionId := functionId)
    case Timeout => p.(state := Quarantine)
    case _ => p.(state := Allocated)
  }

  predicate Matches(p: Page, functionId: nat, pa: nat)
  {
    p.Page? && p.state.Given? && p.functionId == functionId && p.iova == pa
  }

  ghost predicate IsFirstMatch(pages: seq<Page>, functionId: nat, pa: nat, slot: nat)
  {
    && slot < |pages| && Matches(pages[slot], functionId, pa)
    && forall j :: 0 <= j < slot ==> !Matches(pages[j], functionId, pa)
  }

  ghost predicate IsGiven(pages: seq<Page>, functionId: nat, pa: nat)
  {
    exists j :: 0 <= j < |pages| && Matches(pages[j], functionId, pa)
  }

  /** A TAKE reply is acceptable when every address is a page address, names a page this
      driver gave to that function, and no page is named twice. */
  ghost predicate GoodReply(pages: seq<Page>, functionId: nat, pas: seq<nat>)
  {
    && (forall n :: 0 <= n < |pas| ==> pas[n] != 0 && pas[n] % 4096 == 0 && IsGiven(pages, functionId, pas[n]))
    && (forall m, n :: 0 <= m < n < |pas| ==> pas[m] != pas[n])
  }

  ghost function TakeBack(pages: seq<Page>, slots: seq<nat>): (r: seq<Page>)
    requires forall n :: 0 <= n < |slots| ==> slots[n] < |pages|
    ensures |r| == |pages|
  {
    if slots == [] then pages
    else
      var q := TakeBack(pages, slots[..|slots| - 1]);
      var i := slots[|slots| - 1];
      if q[i].Page? then q[i := q[i].(state := Returned)] else q
  }

  /** What went back is what the reply names. */
  lemma NamedWentBack(was: seq<Page>, slots: seq<nat>, functionId: nat, pas: seq<nat>)
    requires |slots| == |pas| && forall n :: 0 <= n < |pas| ==> slots[n] < |was| && Matches(was[slots[n]], functionId, pas[n])
    requires forall m, n :: 0 <= m < n < |slots| ==> slots[m] != slots[n]
    ensures forall n :: 0 <= n < |pas| ==> WentBack(was, TakeBack(was, slots), functionId, pas[n])
    ensures forall i :: 0 <= i < |was| && i in slots ==> was[i].Page? && was[i].iova in pas
  {
    TakeBackIs(was, slots);
    forall i | 0 <= i < |was| && i in slots ensures was[i].Page? && was[i].iova in pas {
      var n :| 0 <= n < |slots| && slots[n] == i;
      assert Matches(was[slots[n]], functionId, pas[n]);
    }
    forall n | 0 <= n < |pas| ensures WentBack(was, TakeBack(was, slots), functionId, pas[n]) {
      assert slots[n] in slots && Matches(was[slots[n]], functionId, pas[n]);
    }
  }

  /** Exactly the named slots change, from GIVEN to RETURNED. */
  lemma {:induction false} TakeBackIs(pages: seq<Page>, slots: seq<nat>)
    requires forall n :: 0 <= n < |slots| ==> slots[n] < |pages| && pages[slots[n]].Page? && pages[slots[n]].state.Given?
    requires forall m, n :: 0 <= m < n < |slots| ==> slots[m] != slots[n]
    ensures forall i :: 0 <= i < |pages| ==>
              TakeBack(pages, slots)[i] == if i in slots then pages[i].(state := Returned) else pages[i]
    ensures Scan(TakeBack(pages, slots)).firmware + |slots| == Scan(pages).firmware
    ensures Scan(TakeBack(pages, slots)).handed == Scan(pages).handed + |slots|
    ensures Scan(TakeBack(pages, slots)).host == Scan(pages).host
    ensures Scan(TakeBack(pages, slots)).ambiguous == Scan(pages).ambiguous
  {
    if slots != [] {
      var n := |slots| - 1;
      var rest, i := slots[..n], slots[n];
      assert slots == rest + [i];
      assert i !in rest;
      TakeBackIs(pages, rest);
      var q := TakeBack(pages, rest);
      assert q[i] == pages[i];
      ScanUpdate(q, i, q[i].(state := Returned));
    }
  }

  /** Quarantine of the pages of one function, or (None) of all of them. */
  function Isolate(p: Page, functionId: Option<nat>): Page
  {
    if p.Page? && (functionId.None? || p.functionId == functionId.value) && (p.state.Given? || p.state.GivePending?)
    then p.(state := Quarantine) else p
  }

  /** A verified reset turns a quarantined page into a returned one. */
  function AfterReset(p: Page): Page
  {
    if p.Page? && p.state.Quarantine? then p.(state := Returned) else p
  }

  predicate SameMemory(p: Page, q: Page)
  {
    p.Page? && q.Page? && p.own == q.own && p.iova == q.iova && p.ownership == q.ownership
  }

  /** How a slot may change in the absence of a reset: a quarantined page not at all; a page
      in flight keeps its memory and stays ambiguous; a given page keeps its memory and stays
      with firmware, unless firmware named its address in an accepted TAKE reply. */
  ghost predicate KeptPage(was: Page, now: Page, log: set<nat>)
  {
    match was
    case Page(_, _, Quarantine, _, _) => now == was
    case Page(_, _, GivePending, _, _) => SameMemory(was, now) && (now.state.GivePending? || now.state.Quarantine?)
    case Page(_, _, Given, _, iova) => iova in log || (SameMemory(was, now) && (now.state.Given? || now.state.Quarantine?))
    case _ => true
  }

  ghost predicate Kept(was: seq<Page>, now: seq<Page>, log: set<nat>)
  {
    |was| == |now| && forall i :: 0 <= i < |was| ==> KeptPage(was[i], now[i], log)
  }

  lemma KeptTransitive(a: seq<Page>, b: seq<Page>, c: seq<Page>, early: set<nat>, late: set<nat>)
    requires Kept(a, b, early) && Kept(b, c, late) && early <= late
    ensures Kept(a, c, late)
  {
    forall i | 0 <= i < |a| ensures KeptPage(a[i], c[i], late) {
      assert KeptPage(a[i], b[i], early) && KeptPage(b[i], c[i], late);
    }
  }

  lemma KeptStep(a: seq<Page>, b: seq<Page>, i: nat, p: Page, log: set<nat>)
    requires Kept(a, b, log) && i < |b| && KeptPage(b[i], p, log)
    ensures Kept(a, b[i := p], log)
  {
    assert KeptPage(a[i], b[i], log);
  }

  /** Buffers are completed once and for all, and a live buffer never changes owner. */
  ghost predicate Grew(was: Ledger, now: Ledger)
  {
    && was.completed <= now.completed && was.next <= now.next
    && forall b {:trigger b in now.owner} :: b in now.owner && b < was.next ==> b in was.owner && now.owner[b] == was.owner[b]
  }

  /** A region survives ReleaseHostMappings exactly when some held page needs it. */
  ghost function AfterRelease(regions: seq<Region>, k: nat, pages: seq<Page>): Region
    requires k < |regions|
  {
    if Dropped(regions, k, pages) then NO_REGION else regions[k]
  }

  ghost predicate Dropped(regions: seq<Region>, k: nat, pages: seq<Page>)
    requires k < |regions|
  {
    regions[k].inUse && forall i :: 0 <= i < |pages| ==> !Needs(regions, k, pages[i])
  }

  /** The effect of a whole GIVE batch on one slot. */
  function AfterGive(p: Page, inBatch: bool, code: Code, functionId: u16): Page
  {
    if inBatch && p.Page? then Settled(p, code, functionId) else p
  }

  function SettledIn(p: Page, inBatch: bool, code: Code, functionId: u16): Page
  {
    if inBatch && InFlight(p) then Settled(p, code, functionId) else p
  }

  function MarkedIn(p: Page, inBatch: bool): Page
  {
    if inBatch && p.Page? && p.state.Allocated? then p.(state := GivePending) else p
  }

  predicate InFlight(p: Page) { p.Page? && p.state.GivePending? }

  /** Every page of the function that firmware has or may have is quarantined, no other page
      has changed. */
  ghost predicate IsolatedFrom(was: seq<Page>, now: seq<Page>, functionId: nat)
  {
    |was| == |now| && forall i :: 0 <= i < |was| ==> now[i] == Isolate(was[i], Some(functionId))
  }

  ghost predicate WentBack(was: seq<Page>, now: seq<Page>, functionId: nat, pa: nat)
    requires |was| == |now|
  {
    exists i :: 0 <= i < |was| && Matches(was[i], functionId, pa) && now[i] == was[i].(state := Returned)
  }

  /** The pages the reply names have gone from GIVEN to RETURNED, and no others. */
  ghost predicate TookBack(was: seq<Page>, extents: seq<Region>, now: seq<Page>, regions: seq<Region>, functionId: nat, pas: seq<nat>)
  {
    && |was| == |now| && SameExtents(extents, regions)
    && (forall n :: 0 <= n < |pas| ==> WentBack(was, now, functionId, pas[n]))
    && (forall i :: 0 <= i < |was| && now[i] != was[i] ==> was[i].Page? && was[i].iova in pas && now[i] == was[i].(state := Returned))
    && Scan(now).firmware + |pas| == Scan(was).firmware && Scan(now).handed == Scan(was).handed + |pas|
    && Scan(now).host == Scan(was).host && Scan(now).ambiguous == Scan(was).ambiguous
  }

  /** The same, and every page and extent nobody needs has then been released. */
  ghost predicate Withdrawn(was: seq<Page>, extents: seq<Region>, now: seq<Page>, regions: seq<Region>, functionId: nat, pas: seq<nat>)
  {
    && |was| == |now| && |extents| == |regions|
    && (forall i :: 0 <= i < |was| ==> now[i] == was[i] || now[i].Unused?)
    && (forall i :: 0 <= i < |was| && now[i].Page? ==> HeldPage(now[i]))
    && (forall i :: 0 <= i < |was| && HeldPage(was[i]) && was[i].iova !in pas ==> now[i] == was[i])
    && (forall n :: 0 <= n < |pas| ==> Vanished(was, now, functionId, pas[n]))
    && (forall k {:trigger ExtentAfter(extents, regions, k, now)} :: 0 <= k < |extents| ==> ExtentAfter(extents, regions, k, now))
  }

  ghost predicate Vanished(was: seq<Page>, now: seq<Page>, functionId: nat, pa: nat)
    requires |was| == |now|
  {
    exists i :: 0 <= i < |was| && Matches(was[i], functionId, pa) && now[i].Unused?
  }

  ghost predicate ExtentAfter(extents: seq<Region>, regions: seq<Region>, k: nat, pages: seq<Page>)
    requires k < |extents| == |regions|
  {
    if extents[k].inUse && forall i :: 0 <= i < |pages| ==> !Needs(extents, k, pages[i])
    then regions[k] == NO_REGION else SameExtent(extents[k], regions[k])
  }

  lemma ReleasedIsWithdrawn(was: seq<Page>, extents: seq<Region>, mid: seq<Page>, between: seq<Region>,
                            now: seq<Page>, regions: seq<Region>, functionId: nat, pas: seq<nat>)
    requires |was| == |mid| == |now| == MAX_PAGES && |extents| == |between| == |regions| == REGIONS
    requires TookBack(was, extents, mid, between, functionId, pas)
    requires forall i :: 0 <= i < MAX_PAGES ==> now[i] == if HeldPage(mid[i]) then mid[i] else Unused
    requires forall k :: 0 <= k < REGIONS ==> regions[k] == AfterRelease(between, k, now)
    ensures Withdrawn(was, extents, now, regions, functionId, pas)
  {
    forall n | 0 <= n < |pas| ensures Vanished(was, now, functionId, pas[n]) {
      assert WentBack(was, mid, functionId, pas[n]);
      var i :| 0 <= i < |was| && Matches(was[i], functionId, pas[n]) && mid[i] == was[i].(state := Returned);
      assert now[i].Unused?;
    }
    forall k | 0 <= k < REGIONS ensures ExtentAfter(extents, regions, k, now) {
      assert SameExtent(extents[k], between[k]) && regions[k] == AfterRelease(between, k, now);
      assert forall i :: 0 <= i < MAX_PAGES ==> Needs(between, k, now[i]) == Needs(extents, k, now[i]);
    }
  }

  /** Nothing changed but pages of one function going from GIVEN to RETURNED. */
  ghost predicate OnlyReturns(was: seq<Page>, now: seq<Page>, functionId: nat)
  {
    && |was| == |now|
    && forall i :: 0 <= i < |was| ==>
         now[i] == was[i] || (was[i].Page? && was[i].state.Given? && was[i].functionId == functionId && now[i] == was[i].(state := Returned))
  }

  /** Extents differ in their counters at most. */
  ghost predicate SameExtents(was: seq<Region>, now: seq<Region>)
  {
    |was| == |now| && forall k {:trigger SameExtent(was[k], now[k])} :: 0 <= k < |was| ==> SameExtent(was[k], now[k])
  }

  lemma SameExtentsOn(a: seq<Region>, b: seq<Region>, c: seq<Region>)
    requires SameExtents(a, b) && SameExtents(b, c)
    ensures SameExtents(a, c)
  {
    forall k | 0 <= k < |a| ensures SameExtent(a[k], c[k]) {
      assert SameExtent(a[k], b[k]) && SameExtent(b[k], c[k]);
    }
  }

  predicate SameExtent(r: Region, t: Region)
  {
    t == r.(firmwareOwned := t.firmwareOwned, ambiguousOwned := t.ambiguousOwned)
  }

  /** The first runtime extent that contains the address. */
  predicate FirstHome(regions: seq<Region>, k: nat, pa: nat)
    requires k < |regions|
  {
    && FIRST_EXTENT <= k && regions[k].inUse && InRange(pa, regions[k])
    && forall n :: FIRST_EXTENT <= n < k ==> !(regions[n].inUse && InRange(pa, regions[n]))
  }

  function Debited(r: Region): Region
  {
    if r.firmwareOwned > 0 then r.(firmwareOwned := r.firmwareOwned - 1) else r
  }

  predicate Distinct(idx: seq<nat>)
  {
    forall m, n :: 0 <= m < n < |idx| ==> idx[m] != idx[n]
  }

  /** A settled batch of distinct pages: success moves each of them to firmware, any other
      answer leaves firmware with what it had. */
  lemma {:induction false} GiveCounts(was: seq<Page>, now: seq<Page>, idx: seq<nat>, code: Code, functionId: u16)
    requires |was| == |now| && Distinct(idx) && forall n :: 0 <= n < |idx| ==> IsAllocated(was, idx[n])
    requires forall i :: 0 <= i < |was| ==> now[i] == AfterGive(was[i], i in idx, code, functionId)
    ensures Scan(now).firmware == Scan(was).firmware + if code.Success? then |idx| else 0
    decreases |idx|
  {
    if idx == [] {
      assert now == was;
    } else {
      var n := |idx| - 1;
      var i, rest := idx[n], idx[..n];
      assert IsAllocated(was, i);
      var mid := now[i := was[i]];
      assert idx == rest + [i] && i !in rest;
      GiveCounts(was, mid, rest, code, functionId);
      ScanUpdate(mid, i, now[i]);
      assert mid[i := now[i]] == now;
    }
  }

  /** A region's pages take the slots `idx`, which were free; nothing else changes. */
  ghost predicate FilledWith(was: seq<Page>, now: seq<Page>, idx: seq<nat>, functionId: u16, ownership: nat, base: nat)
  {
    && |was| == |now| && Distinct(idx)
    && (forall m {:trigger FilledNth(was, now, idx, m, functionId, ownership, base)} :: 0 <= m < |idx| ==>
          FilledNth(was, now, idx, m, functionId, ownership, base))
    && (forall i {:trigger LeftAlone(was, now, idx, i)} :: 0 <= i < |was| ==> LeftAlone(was, now, idx, i))
  }

  predicate FilledNth(was: seq<Page>, now: seq<Page>, idx: seq<nat>, m: nat, functionId: u16, ownership: nat, base: nat)
    requires m < |idx|
  {
    FilledAt(was, now, idx[m], Page(functionId, ownership, Allocated, None, base + m * 4096))
  }

  predicate FilledAt(was: seq<Page>, now: seq<Page>, i: nat, p: Page)
  {
    i < |was| == |now| && was[i].Unused? && now[i] == p
  }

  predicate LeftAlone(was: seq<Page>, now: seq<Page>, idx: seq<nat>, i: nat)
    requires i < |was| == |now|
  {
    i in idx || now[i] == was[i]
  }

  lemma FilledOne(was: seq<Page>, now: seq<Page>, idx: seq<nat>, functionId: u16, ownership: nat, base: nat, slot: nat)
    requires FilledWith(was, now, idx, functionId, ownership, base) && slot < |now| && now[slot].Unused?
    ensures FilledWith(was, now[slot := Page(functionId, ownership, Allocated, None, base + |idx| * 4096)], idx + [slot], functionId, ownership, base)
  {
    var next, more := now[slot := Page(functionId, ownership, Allocated, None, base + |idx| * 4096)], idx + [slot];
    forall l | 0 <= l < |idx| ensures idx[l] != slot {
      assert FilledNth(was, now, idx, l, functionId, ownership, base);
    }
    assert LeftAlone(was, now, idx, slot);
    forall m | 0 <= m < |more| ensures FilledNth(was, next, more, m, functionId, ownership, base) {
      assert m < |idx| ==> more[m] == idx[m] && FilledNth(was, now, idx, m, functionId, ownership, base);
    }
    forall i | 0 <= i < |was| ensures LeftAlone(was, next, more, i) {
      assert more[|idx|] == slot && LeftAlone(was, now, idx, i);
    }
  }

  lemma FilledIsAllocated(was: seq<Page>, now: seq<Page>, idx: seq<nat>, functionId: u16, ownership: nat, base: nat)
    requires FilledWith(was, now, idx, functionId, ownership, base)
    ensures Distinct(idx) && forall m :: 0 <= m < |idx| ==> IsAllocated(now, idx[m])
  {
    forall m | 0 <= m < |idx| ensures IsAllocated(now, idx[m]) {
      assert FilledNth(was, now, idx, m, functionId, ownership, base);
    }
  }

  ghost predicate GaveAll(was: seq<Page>, extents: seq<Region>, now: seq<Page>, regions: seq<Region>, idx: seq<nat>, functionId: u16)
  {
    |was| == |now| && SameExtents(extents, regions) && forall i :: 0 <= i < |was| ==> now[i] == AfterGive(was[i], i in idx, Success, functionId)
  }

  predicate HasExtent(regions: seq<Region>)
  {
    exists k :: FIRST_EXTENT <= k < |regions| && !regions[k].inUse
  }

  /** A runtime request can be met: an extent, a mapping and page slots are there. */
  ghost predicate Grantable(pages: seq<Page>, regions: seq<Region>, mapping: Mapping, numPages: nat)
  {
    HasExtent(regions) && Usable(mapping, numPages) && Frees(pages) >= numPages
  }

  /** Firmware has got `numPages` pages of a new extent at `base`; nothing else changes. */
  ghost predicate Granted(was: seq<Page>, extents: seq<Region>, now: seq<Page>, regions: seq<Region>, functionId: u16, numPages: nat, base: nat)
  {
    exists idx: seq<nat>, k: nat :: GrantedIn(was, extents, now, regions, functionId, numPages, base, idx, k)
  }

  ghost predicate GrantedIn(was: seq<Page>, extents: seq<Region>, now: seq<Page>, regions: seq<Region>, functionId: u16, numPages: nat, base: nat,
                            idx: seq<nat>, k: nat)
  {
    && |was| == |now| && |idx| == numPages && Distinct(idx)
    && (forall m :: 0 <= m < |idx| ==> FilledAt(was, now, idx[m], Page(functionId, 3, Given, None, base + m * 4096)))
    && (forall i :: 0 <= i < |was| && i !in idx ==> now[i] == was[i])
    && FIRST_EXTENT <= k < |extents| == |regions| && !extents[k].inUse
    && regions[k].inUse && regions[k].iova == base && regions[k].numPages == numPages
    && (forall n :: 0 <= n < |extents| && n != k ==> SameExtent(extents[n], regions[n]))
  }

  lemma FilledIsGranted(was: seq<Page>, extents: seq<Region>, filled: seq<Page>, between: seq<Region>, now: seq<Page>, regions: seq<Region>,
                        functionId: u16, numPages: nat, base: nat, idx: seq<nat>, k: nat)
    requires FilledWith(was, filled, idx, functionId, 3, base) && |idx| == numPages && GaveAll(filled, between, now, regions, idx, functionId)
    requires FIRST_EXTENT <= k < |extents| == |between| && !extents[k].inUse
    requires between[k].inUse && between[k].iova == base && between[k].numPages == numPages
    requires forall n :: 0 <= n < |extents| && n != k ==> between[n] == extents[n]
    ensures Granted(was, extents, now, regions, functionId, numPages, base) && Scan(now).ambiguous == Scan(was).ambiguous
  {
    forall m | 0 <= m < |idx| ensures FilledAt(was, now, idx[m], Page(functionId, 3, Given, None, base + m * 4096)) {
      assert FilledNth(was, filled, idx, m, functionId, 3, base) && idx[m] in idx;
    }
    forall i | 0 <= i < |was| && i !in idx ensures now[i] == was[i] {
      assert LeftAlone(was, filled, idx, i);
    }
    forall n | 0 <= n < |extents| ensures SameExtent(between[n], regions[n]) {}
    assert GrantedIn(was, extents, now, regions, functionId, numPages, base, idx, k);
    NewPagesAreGiven(was, now);
  }

  lemma {:induction false} NewPagesAreGiven(was: seq<Page>, now: seq<Page>)
    requires |was| == |now| && forall i :: 0 <= i < |was| ==> now[i] == was[i] || (was[i].Unused? && GivenTo(now[i], None))
    ensures Scan(now).ambiguous == Scan(was).ambiguous
  {
    if was != [] {
      NewPagesAreGiven(was[..|was| - 1], now[..|was| - 1]);
    }
  }

  /** Releasing pages firmware does not hold leaves firmware's count alone. */
  lemma {:induction false} FirmwareSurvives(was: seq<Page>, now: seq<Page>)
    requires |was| == |now| && forall i :: 0 <= i < |was| ==> now[i] == was[i] || (now[i].Unused? && !HeldPage(was[i]))
    ensures Scan(now).firmware == Scan(was).firmware && Scan(now).ambiguous == Scan(was).ambiguous
  {
    if was != [] {
      FirmwareSurvives(was[..|was| - 1], now[..|was| - 1]);
    }
  }

  lemma NothingIsHeld(pages: seq<Page>)
    requires Scan(pages).firmware == 0 && Scan(pages).ambiguous == 0
    ensures forall i :: 0 <= i < |pages| ==> !HeldPage(pages[i])
  {
    CountPositive(pages, Firmware);
    CountPositive(pages, Ambiguous);
    forall i | 0 <= i < |pages| ensures !HeldPage(pages[i]) {
      assert ClassOf(pages[i]) != Some(Firmware) && ClassOf(pages[i]) != Some(Ambiguous);
    }
  }

  /** No slot, no region, no live buffer is left. */
  ghost predicate Emptied(pages: seq<Page>, regions: seq<Region>, l: Ledger)
    requires |pages| == MAX_PAGES && |regions| == REGIONS
  {
    && (forall i :: 0 <= i < MAX_PAGES ==> pages[i].Unused?)
    && (forall k :: 0 <= k < REGIONS ==> !regions[k].inUse)
    && l.owner == map[] && forall b :: 0 <= b < l.next ==> b in l.completed
  }

  /** With every slot and region empty, the ledger has no live buffer: all were completed. */
  lemma NothingIsOwned(pages: seq<Page>, regions: seq<Region>, l: Ledger)
    requires Backed(pages, regions, l)
    requires forall i :: 0 <= i < MAX_PAGES ==> pages[i].Unused?
    requires forall k :: 0 <= k < REGIONS ==> !regions[k].inUse
    ensures l.owner == map[]
  {
    forall k | 0 <= k < REGIONS ensures regions[k].buf.None? {
      assert RegionBacked(regions[k], k, l);
    }
    forall b ensures b !in l.owner {
      assert b in l.owner ==> Points(pages, regions, l.owner[b], b);
    }
  }

  predicate GivenTo(p: Page, functionId: Option<nat>)
  {
    p.Page? && p.state.Given? && (functionId.None? || p.functionId == functionId.value)
  }

  predicate FirstGiven(pages: seq<Page>, i: nat, functionId: nat)
  {
    i < |pages| && GivenTo(pages[i], Some(functionId)) && forall j :: 0 <= j < i ==> !GivenTo(pages[j], None)
  }

  /** How many pages a function holds. */
  ghost function Holdings(pages: seq<Page>, functionId: nat): nat
  {
    if pages == [] then 0 else Holdings(pages[..|pages| - 1], functionId) + One(GivenTo(pages[|pages| - 1], Some(functionId)))
  }

  lemma {:induction false} NoHoldings(pages: seq<Page>, functionId: nat)
    requires forall i :: 0 <= i < |pages| ==> !GivenTo(pages[i], None)
    ensures Holdings(pages, functionId) == 0
  {
    if pages != [] {
      NoHoldings(pages[..|pages| - 1], functionId);
      assert !GivenTo(pages[|pages| - 1], None);
    }
  }

  lemma {:induction false} HoldingsWithin(pages: seq<Page>, functionId: nat)
    ensures Holdings(pages, functionId) <= Scan(pages).firmware
  {
    if pages != [] {
      HoldingsWithin(pages[..|pages| - 1], functionId);
    }
  }

  ghost function Frees(pages: seq<Page>): nat
  {
    if pages == [] then 0 else Frees(pages[..|pages| - 1]) + One(pages[|pages| - 1].Unused?)
  }

  lemma {:induction false} FreesUpdate(pages: seq<Page>, i: nat, p: Page)
    requires i < |pages|
    ensures Frees(pages[i := p]) + One(pages[i].Unused?) == Frees(pages) + One(p.Unused?)
  {
    var n := |pages| - 1;
    if i == n {
      assert pages[i := p][..n] == pages[..n];
    } else {
      assert pages[i := p][..n] == pages[..n][i := p];
      FreesUpdate(pages[..n], i, p);
    }
  }

  lemma {:induction false} FreesWitness(pages: seq<Page>)
    requires Frees(pages) > 0
    ensures exists i :: 0 <= i < |pages| && pages[i].Unused?
  {
    var n := |pages| - 1;
    if !pages[n].Unused? {
      FreesWitness(pages[..n]);
      var i :| 0 <= i < n && pages[..n][i].Unused?;
      assert pages[i].Unused?;
    }
  }

  datatype Op =
    | Query
    | Provide(numPages: nat, ownership: Kind, functionId: u16)
    | ProvideContig(numPages: nat, ownership: Kind, functionId: u16, mapping: Mapping, answers: seq<Answer>)
    | PageRequest(functionId: u16, count: int, mapping: Mapping, answers: seq<Answer>)
    | Take(functionId: u16, numPages: nat, answers: seq<Answer>)
    | Reclaim(drain: bool, turns: nat)
    | ReleaseHost
    | Isolation
    | Reset
    | Teardown

  /** 1 boot, 2 init, 3 runtime. */
  type Kind = x: int | 1 <= x <= 3 witness 1

  class Manager {
    var pages: seq<Page>
    var regions: seq<Region>
    var hostAllocated: nat
    var firmwareOwned: nat
    var ambiguousOwned: nat
    var returnedCount: nat
    var quarantined: bool
    var deviceQuarantined: bool
    var negativeTakeRequests: nat
    var negativeTakePages: nat
    var negativeTakeReturned: nat
    var rtActive: bool
    var rtFuncId: nat
    var rtTarget: nat
    var rtGiven: nat
    var rtLatestOutstanding: nat
    var rtLastError: Code
    var ledger: Ledger
    /** Addresses firmware named in accepted TAKE replies. */
    ghost var log: set<nat>
    /** Pages firmware gained and lost through requests serviced inside other commands. */
    ghost var inflow: nat
    ghost var outflow: nat

    /** The counters equal a scan of the table. */
    ghost predicate Accounted()
      reads this
    {
      Scan(pages) == Tally(hostAllocated, firmwareOwned, ambiguousOwned, returnedCount)
    }

    ghost predicate Valid()
      reads this
    {
      Backed(pages, regions, ledger) && Accounted()
    }

    constructor ()
      ensures Valid() && ledger == Ledger(map[], {}, 0) && !quarantined && ambiguousOwned == 0 && !rtActive
      ensures forall i :: 0 <= i < MAX_PAGES ==> pages[i].Unused?
      ensures forall k :: 0 <= k < REGIONS ==> !regions[k].inUse
    {
      pages := seq(MAX_PAGES, _ => Unused);
      regions := seq(REGIONS, _ => NO_REGION);
      hostAllocated, firmwareOwned, ambiguousOwned, returnedCount := 0, 0, 0, 0;
      quarantined, deviceQuarantined := false, false;
      negativeTakeRequests, negativeTakePages, negativeTakeReturned := 0, 0, 0;
      rtActive, rtFuncId, rtTarget, rtGiven, rtLatestOutstanding, rtLastError := false, 0, 0, 0, 0, Success;
      ledger := Ledger(map[], {}, 0);
      inflow, outflow := 0, 0;
      new;
      CountPositive(pages, Host);
      CountPositive(pages, Firmware);
      CountPositive(pages, Ambiguous);
      CountPositive(pages, Handed);
    }

    // -------------------------------------------------------------- scans

    /** GetFirmwareOwned. */
    method GetFirmwareOwned() returns (c: nat)
      requires |pages| == MAX_PAGES
      ensures c == Scan(pages).firmware
    {
      c := 0;
      for i := 0 to MAX_PAGES
        invariant c == Count(pages[..i], Firmware)
      {
        assert pages[..i + 1][..i] == pages[..i];
        if pages[i].Page? && pages[i].state.Given? {
          c := c + 1;
        }
      }
      assert pages[..MAX_PAGES] == pages;
    }

    /** GetAmbiguousOwned. */
    method GetAmbiguousOwned() returns (c: nat)
      requires |pages| == MAX_PAGES
      ensures c == Scan(pages).ambiguous
    {
      c := 0;
      for i := 0 to MAX_PAGES
        invariant c == Count(pages[..i], Ambiguous)
      {
        assert pages[..i + 1][..i] == pages[..i];
        if pages[i].Page? && (pages[i].state.GivePending? || pages[i].state.Quarantine?) {
          c := c + 1;
        }
      }
      assert pages[..MAX_PAGES] == pages;
    }

    /** ValidateAccounting: one scan compared with the four counters. */
    method ValidateAccounting() returns (ok: bool)
      requires |pages| == MAX_PAGES
      ensures ok <==> Accounted()
    {
      var host, fw, returned, ambiguous := 0, 0, 0, 0;
      for i := 0 to MAX_PAGES
        invariant Scan(pages[..i]) == Tally(host, fw, ambiguous, returned)
      {
        assert pages[..i + 1][..i] == pages[..i];
        match pages[i] {
          case Unused =>
          case Page(_, _, Allocated, _, _) => host := host + 1;
          case Page(_, _, Given, _, _) => fw := fw + 1;
          case Page(_, _, Returned, _, _) => returned := returned + 1;
          case Page(_, _, GivePending, _, _) => ambiguous := ambiguous + 1;
          case Page(_, _, Quarantine, _, _) => ambiguous := ambiguous + 1;
        }
      }
      assert pages[..MAX_PAGES] == pages;
      ok := host == hostAllocated && fw == firmwareOwned && returned == returnedCount && ambiguous == ambiguousOwned;
    }

    // -------------------------------------------------------------- quarantine and reset

    /** EnterQuarantine: nothing firmware may have is released from here on. */
    method EnterQuarantine()
      requires Valid()
      modifies `pages, `regions, `firmwareOwned, `ambiguousOwned, `quarantined
      ensures Valid() && quarantined
      ensures forall i :: 0 <= i < MAX_PAGES ==> pages[i] == Isolate(old(pages)[i], None)
      ensures Kept(old(pages), pages, log) && SameExtents(old(regions), regions)
    {
      quarantined := true;
      for i := 0 to MAX_PAGES
        invariant Valid() && quarantined && regions == old(regions)
        invariant forall j :: 0 <= j < i ==> pages[j] == Isolate(old(pages)[j], None)
        invariant forall j :: i <= j < MAX_PAGES ==> pages[j] == old(pages)[j]
      {
        IsolateAt(i, None);
      }
      for k := FIRST_EXTENT to REGIONS
        invariant Valid() && quarantined && SameExtents(old(regions), regions)
        invariant forall j :: 0 <= j < MAX_PAGES ==> pages[j] == Isolate(old(pages)[j], None)
      {
        if regions[k].inUse {
          var e := regions[k].(ambiguousOwned := regions[k].ambiguousOwned + regions[k].firmwareOwned, firmwareOwned := 0);
          KeepsGrown(pages, regions, ledger, k, e);
          SameExtentsOn(old(regions), regions, regions[k := e]);
          regions := regions[k := e];
        }
      }
    }

    /** QuarantineFunction: the pages of one function, and the device. */
    method QuarantineFunction(functionId: nat)
      requires Valid()
      modifies `pages, `firmwareOwned, `ambiguousOwned, `quarantined, `deviceQuarantined
      ensures Valid() && quarantined && deviceQuarantined
      ensures forall i :: 0 <= i < MAX_PAGES ==> pages[i] == Isolate(old(pages)[i], Some(functionId))
      ensures Kept(old(pages), pages, log)
    {
      quarantined := true;
      for i := 0 to MAX_PAGES
        invariant Valid() && quarantined
        invariant forall j :: 0 <= j < i ==> pages[j] == Isolate(old(pages)[j], Some(functionId))
        invariant forall j :: i <= j < MAX_PAGES ==> pages[j] == old(pages)[j]
      {
        if pages[i].Page? && pages[i].functionId == functionId {
          IsolateAt(i, Some(functionId));
        }
      }
      deviceQuarantined := true;
    }

    /** The body of both loops. */
    method IsolateAt(i: nat, functionId: Option<nat>)
      requires Valid() && i < MAX_PAGES
      requires functionId.Some? ==> pages[i].Page? && pages[i].functionId == functionId.value
      modifies `pages, `firmwareOwned, `ambiguousOwned
      ensures Valid() && pages == old(pages)[i := Isolate(old(pages)[i], functionId)]
    {
      if pages[i].Page? && (pages[i].state.Given? || pages[i].state.GivePending?) {
        var p := pages[i].(state := Quarantine);
        ScanUpdate(pages, i, p);
        KeepsState(pages, regions, ledger, i, p);
        if pages[i].state.Given? {
          if firmwareOwned > 0 {
            firmwareOwned := firmwareOwned - 1;
          }
          ambiguousOwned := ambiguousOwned + 1;
        }
        pages := pages[i := p];
      }
    }

    /** ReleaseQuarantineAfterReset: the one step that makes quarantined pages releasable. */
    method ReleaseQuarantineAfterReset()
      requires Valid()
      modifies `pages, `regions, `ambiguousOwned, `returnedCount, `quarantined
      ensures Valid() && !quarantined && SameExtents(old(regions), regions)
      ensures forall i :: 0 <= i < MAX_PAGES ==> pages[i] == AfterReset(old(pages)[i])
    {
      for i := 0 to MAX_PAGES
        invariant Valid() && regions == old(regions)
        invariant forall j :: 0 <= j < i ==> pages[j] == AfterReset(old(pages)[j])
        invariant forall j :: i <= j < MAX_PAGES ==> pages[j] == old(pages)[j]
      {
        if pages[i].Page? && pages[i].state.Quarantine? {
          var p := pages[i].(state := Returned);
          ScanUpdate(pages, i, p);
          KeepsState(pages, regions, ledger, i, p);
          pages := pages[i := p];
          if ambiguousOwned > 0 {
            ambiguousOwned := ambiguousOwned - 1;
          }
          returnedCount := returnedCount + 1;
        }
      }
      for k := FIRST_EXTENT to REGIONS
        invariant Valid() && SameExtents(old(regions), regions)
        invariant forall j :: 0 <= j < MAX_PAGES ==> pages[j] == AfterReset(old(pages)[j])
      {
        var e := regions[k].(ambiguousOwned := 0, firmwareOwned := 0);
        KeepsGrown(pages, regions, ledger, k, e);
        SameExtentsOn(old(regions), regions, regions[k := e]);
        regions := regions[k := e];
      }
      quarantined := false;
    }

    // -------------------------------------------------------------- single pages

    /** AllocPage: first free slot, one 4 KiB buffer, one aligned segment. */
    method AllocPage() returns (code: Code, slot: nat)
      requires Valid()
      modifies `pages, `hostAllocated, `ledger
      ensures Valid() && Grew(old(ledger), ledger)
      ensures code.Success? ==> slot < MAX_PAGES && old(pages)[slot].Unused? && IsAllocated(pages, slot)
      ensures code.Success? ==> (forall j :: 0 <= j < slot ==> old(pages)[j].Page?)
      ensures code.Success? ==> pages == old(pages)[slot := pages[slot]] && pages[slot].own.Some?
      ensures !code.Success? ==> pages == old(pages)
    {
      slot := 0;
      while slot < MAX_PAGES && pages[slot].Page?
        invariant slot <= MAX_PAGES && forall j :: 0 <= j < slot ==> pages[j].Page?
      {
        slot := slot + 1;
      }
      if slot == MAX_PAGES {
        return NoSpace, 0;
      }
      var obtained: bool, mapped: bool := *, *;
      if !obtained {
        return NoMemory, 0;
      }
      var segCount: nat, address: nat, length: nat := *, *, *;
      var buf := ledger.next;
      if !mapped || segCount != 1 || length < 4096 || address == 0 || address % 4096 != 0 {
        KeepsScrapped(pages, regions, ledger);
        ledger := ledger.(completed := ledger.completed + {buf}, next := buf + 1);
        return NoSpace, 0;
      }
      var p := Page(0, 0, Allocated, Some(buf), address);
      ScanUpdate(pages, slot, p);
      KeepsNewOwn(pages, regions, ledger, slot, p);
      ledger := ledger.(owner := ledger.owner[buf := PageOwns(slot)], next := buf + 1);
      pages := pages[slot := p];
      hostAllocated := hostAllocated + 1;
      return Success, slot;
    }

    /** ReleasePage: refused for a page firmware has or may have, and during quarantine. */
    method ReleasePage(index: nat)
      requires Valid()
      modifies `pages, `hostAllocated, `returnedCount, `ledger
      ensures Valid() && Grew(old(ledger), ledger)
      ensures index >= MAX_PAGES || quarantined || HeldPage(old(pages)[index]) ==> pages == old(pages) && ledger == old(ledger)
      ensures index < MAX_PAGES && !quarantined && !HeldPage(old(pages)[index]) ==>
                pages == old(pages)[index := Unused] &&
                ledger == if old(pages)[index].Page? then Complete(old(ledger), old(pages)[index].own) else old(ledger)
    {
      if index >= MAX_PAGES || pages[index].Unused? || quarantined || HeldPage(pages[index]) {
        return;
      }
      Clear(index);
    }

    /** Detaches a host-owned slot under the lock and completes its buffer outside it. */
    method Clear(i: nat)
      requires Valid() && i < MAX_PAGES && pages[i].Page? && !HeldPage(pages[i])
      modifies `pages, `hostAllocated, `returnedCount, `ledger
      ensures Valid() && Grew(old(ledger), ledger)
      ensures pages == old(pages)[i := Unused] && ledger == Complete(old(ledger), old(pages)[i].own)
      ensures hostAllocated + returnedCount + 1 == old(hostAllocated + returnedCount)
    {
      ScanUpdate(pages, i, Unused);
      KeepsFree(pages, regions, ledger, i);
      if pages[i].state.Allocated? && hostAllocated > 0 {
        hostAllocated := hostAllocated - 1;
      }
      if pages[i].state.Returned? && returnedCount > 0 {
        returnedCount := returnedCount - 1;
      }
      ledger := Complete(ledger, pages[i].own);
      pages := pages[i := Unused];
    }

    /** ReleaseHostMappings: every page that is not held goes, then every region no held page
        needs. Held pages and what they rely on stay. */
    method ReleaseHostMappings() returns (code: Code)
      requires Valid()
      modifies `pages, `regions, `hostAllocated, `returnedCount, `ledger
      ensures Valid() && Grew(old(ledger), ledger) && Kept(old(pages), pages, log)
      ensures quarantined || ambiguousOwned > 0 ==> code.NotReady? && unchanged(this)
      ensures !quarantined && ambiguousOwned == 0 ==> code.Success?
      ensures code.Success? ==> forall i :: 0 <= i < MAX_PAGES ==>
                pages[i] == if HeldPage(old(pages)[i]) then old(pages)[i] else Unused
      ensures code.Success? ==> forall k :: 0 <= k < REGIONS ==>
                regions[k] == AfterRelease(old(regions), k, pages)
    {
      var ambiguous := GetAmbiguousOwned();
      if quarantined || ambiguous > 0 {
        return NotReady;
      }
      ReleasePages();
      ReleaseRegions();
      return Success;
    }

    /** Stage 2: boot chunk, init chunk, runtime extents. */
    method ReleaseRegions()
      requires Valid()
      requires forall i :: 0 <= i < MAX_PAGES ==> pages[i].Unused? || HeldPage(pages[i])
      modifies `regions, `ledger
      ensures Valid() && Grew(old(ledger), ledger)
      ensures forall k :: 0 <= k < REGIONS ==> regions[k] == AfterRelease(old(regions), k, pages)
    {
      for k := 0 to REGIONS
        invariant Valid() && Grew(old(ledger), ledger)
        invariant forall n :: 0 <= n < k ==> regions[n] == AfterRelease(old(regions), n, pages)
        invariant forall n :: k <= n < REGIONS ==> regions[n] == old(regions)[n]
      {
        assert forall i :: 0 <= i < MAX_PAGES ==> Needs(regions, k, pages[i]) == Needs(old(regions), k, pages[i]);
        var sound := DropUnneeded(k);
      }
    }

    /** Its step for one region, under the lock: the region goes if no held page needs it. That
        is right if and only if no allocated page relies on it either. */
    method DropUnneeded(k: nat) returns (sound: bool)
      requires Valid() && k < REGIONS
      modifies `regions, `ledger
      ensures Grew(old(ledger), ledger) && regions == old(regions)[k := AfterRelease(old(regions), k, pages)]
      ensures ledger == if Dropped(old(regions), k, pages) then Complete(old(ledger), old(regions)[k].buf) else old(ledger)
      ensures sound <==> Valid()
      ensures sound <==> (Dropped(old(regions), k, pages) ==> forall i :: 0 <= i < MAX_PAGES ==> !Relies(old(regions), k, pages[i]))
    {
      sound := true;
      var needed := RegionNeeded(k);
      if regions[k].inUse && !needed {
        DropIsSound(pages, regions, ledger, k);
        sound := forall i :: 0 <= i < MAX_PAGES ==> !Relies(regions, k, pages[i]);
        ledger := Complete(ledger, regions[k].buf);
        regions := regions[k := NO_REGION];
      }
    }

    /** Stage 1 of ReleaseHostMappings: restart the search after every page released. */
    method ReleasePages()
      requires Valid()
      modifies `pages, `hostAllocated, `returnedCount, `ledger
      ensures Valid() && Grew(old(ledger), ledger)
      ensures forall i :: 0 <= i < MAX_PAGES ==> pages[i] == if HeldPage(old(pages)[i]) then old(pages)[i] else Unused
    {
      var found := true;
      while found
        invariant Valid() && Grew(old(ledger), ledger)
        invariant forall i :: 0 <= i < MAX_PAGES ==> pages[i] == old(pages)[i] || (pages[i].Unused? && !HeldPage(old(pages)[i]))
        invariant !found ==> forall i :: 0 <= i < MAX_PAGES ==> pages[i].Unused? || HeldPage(pages[i])
        decreases found, hostAllocated + returnedCount
      {
        found := ClearNext();
      }
    }

    /** One turn of it, under the lock: the first page that is not held goes. */
    method ClearNext() returns (found: bool)
      requires Valid()
      modifies `pages, `hostAllocated, `returnedCount, `ledger
      ensures Valid() && Grew(old(ledger), ledger)
      ensures forall i :: 0 <= i < MAX_PAGES ==> pages[i] == old(pages)[i] || (pages[i].Unused? && !HeldPage(old(pages)[i]))
      ensures found ==> hostAllocated + returnedCount + 1 == old(hostAllocated + returnedCount)
      ensures !found ==> pages == old(pages) && forall i :: 0 <= i < MAX_PAGES ==> pages[i].Unused? || HeldPage(pages[i])
    {
      var i := 0;
      while i < MAX_PAGES && (pages[i].Unused? || HeldPage(pages[i]))
        invariant i <= MAX_PAGES && forall j :: 0 <= j < i ==> pages[j].Unused? || HeldPage(pages[j])
      {
        i := i + 1;
      }
      found := i < MAX_PAGES;
      if found {
        Clear(i);
      }
    }

    method RegionNeeded(k: nat) returns (needed: bool)
      requires |pages| == MAX_PAGES && |regions| == REGIONS && k < REGIONS
      ensures needed <==> exists i :: 0 <= i < MAX_PAGES && Needs(regions, k, pages[i])
    {
      needed := false;
      for i := 0 to MAX_PAGES
        invariant needed <==> exists j :: 0 <= j < i && Needs(regions, k, pages[j])
      {
        if HeldPage(pages[i]) &&
           (if k == 0 then pages[i].ownership == 1 else if k == 1 then pages[i].ownership == 2 else InRange(pages[i].iova, regions[k])) {
          assert Needs(regions, k, pages[i]);
          needed := true;
        }
      }
    }

    // -------------------------------------------------------------- commands

    /** What every operation but the reset keeps: the invariant, firmware's hold on pages,
        completed buffers, and the record of what firmware said. */
    twostate predicate Steady()
      reads this
    {
      Valid() && Kept(old(pages), pages, log) && old(log) <= log && Grew(old(ledger), ledger)
    }

    /** MlxPCIDriver::Exec of MANAGE_PAGES. The outcome is firmware's; before returning, the
        outermost command services whatever PAGE_REQUEST events have been queued. */
    method Exec(drain: bool, answer: Answer) returns (code: Code)
      requires Valid()
      modifies this
      ensures Steady() && code == answer.code
      ensures !drain ==> unchanged(this)
      ensures Flowed(old(inflow), old(outflow), Scan(old(pages)).firmware, Scan(pages).firmware)
      decreases drain, 1, 0
    {
      code := answer.code;
      if drain {
        for n := 0 to |answer.queue|
          invariant Steady() && Flowed(old(inflow), old(outflow), Scan(old(pages)).firmware, Scan(pages).firmware)
        {
          ghost var before, early, gained, lost := pages, log, inflow, outflow;
          var q := answer.queue[n];
          var _ := HandleRuntimePageRequest(q.functionId, q.numPages, q.mapping, q.answers, false);
          KeptTransitive(old(pages), before, pages, early, log);
          ghost var was, now := Scan(before).firmware, Scan(pages).firmware;
          inflow, outflow := gained + if now > was then now - was else 0, lost + if now < was then was - now else 0;
        }
      }
    }

    /** The firmware count has moved by what serviced requests gave and took. */
    ghost predicate Flowed(gained: nat, lost: nat, was: nat, now: nat)
      reads this
    {
      inflow >= gained && outflow >= lost && now + (outflow - lost) == was + (inflow - gained)
    }

    /** MANAGE_PAGES(ALLOCATION_FAIL); its result is only logged. */
    method NotifyAllocationFailure(drain: bool)
      requires Valid()
      modifies this
      ensures Steady()
      ensures !drain ==> unchanged(this)
      decreases drain, 2, 0
    {
      var answer: Answer := *;
      var _ := Exec(drain, answer);
    }

    /** ManagePages with op GIVE. The pages are ambiguous from before the doorbell until the
        outcome is known; a timeout quarantines them, any other error returns them. */
    method Give(idx: seq<nat>, functionId: u16, answer: Answer, drain: bool) returns (code: Code)
      requires Valid()
      modifies this
      ensures Steady()
      ensures !drain ==> ledger == old(ledger) && regions == old(regions) && log == old(log)
      ensures !GiveAccepted(old(pages), idx) ==> code.BadArgument? && unchanged(this)
      ensures !drain && GiveAccepted(old(pages), idx) ==> forall i :: 0 <= i < MAX_PAGES ==>
                pages[i] == AfterGive(old(pages)[i], i in idx, code, functionId)
      ensures !drain && GiveAccepted(old(pages), idx) ==> quarantined == (old(quarantined) || code.Timeout?) && code == answer.code
      decreases drain, 3, 0
    {
      var accepted := TestBatch(idx);
      if !accepted {
        return BadArgument;
      }
      code := FinishGive(idx, functionId, answer, drain);
    }

    /** Its test, made without the lock; the command is then laid out for the pages tested. */
    method TestBatch(idx: seq<nat>) returns (accepted: bool)
      requires |pages| == MAX_PAGES
      ensures accepted <==> GiveAccepted(pages, idx)
    {
      if idx == [] || |idx| > MAX_PAGES {
        return false;
      }
      for n := 0 to |idx|
        invariant forall m :: 0 <= m < n ==> IsAllocated(pages, idx[m])
      {
        if idx[n] >= MAX_PAGES || !(pages[idx[n]].Page? && pages[idx[n]].state.Allocated?) {
          assert !IsAllocated(pages, idx[n]);
          return false;
        }
      }
      return |idx| <= MANAGE_MAX;
    }

    /** The rest of it: marking, command, outcome. */
    method FinishGive(idx: seq<nat>, functionId: u16, answer: Answer, drain: bool) returns (code: Code)
      requires Valid() && idx != [] && forall n :: 0 <= n < |idx| ==> idx[n] < MAX_PAGES
      modifies this
      ensures Valid() && Grew(old(ledger), ledger) && old(log) <= log && code == answer.code
      ensures !drain ==> ledger == old(ledger) && regions == old(regions) && log == old(log)
      ensures GiveAccepted(old(pages), idx) ==> Steady()
      ensures !drain && GiveAccepted(old(pages), idx) ==> forall i :: 0 <= i < MAX_PAGES ==>
                pages[i] == AfterGive(old(pages)[i], i in idx, code, functionId)
      ensures !drain && GiveAccepted(old(pages), idx) ==> quarantined == (old(quarantined) || code.Timeout?)
      decreases drain, 2, 1
    {
      MarkPending(idx);
      ghost var marked, early := pages, log;
      code := Exec(drain, answer);
      KeptTransitive(old(pages), marked, pages, early, log);
      ghost var answered := pages;
      SettleBatch(idx, code, functionId);
      if GiveAccepted(old(pages), idx) {
        assert IsAllocated(old(pages), idx[0]);
        forall i | 0 <= i < MAX_PAGES ensures KeptPage(old(pages)[i], pages[i], log) {
          assert KeptPage(old(pages)[i], answered[i], log);
        }
      }
      if code.Timeout? {
        deviceQuarantined := true;
      }
    }

    /** Whatever of the batch is still allocated becomes ambiguous. */
    method MarkPending(idx: seq<nat>)
      requires Valid() && forall n :: 0 <= n < |idx| ==> idx[n] < MAX_PAGES
      modifies `pages, `hostAllocated, `ambiguousOwned
      ensures Valid() && Kept(old(pages), pages, log)
      ensures forall i :: 0 <= i < MAX_PAGES ==> pages[i] == MarkedIn(old(pages)[i], i in idx)
    {
      for n := 0 to |idx|
        invariant Valid()
        invariant forall i :: 0 <= i < MAX_PAGES ==> pages[i] == MarkedIn(old(pages)[i], i in idx[..n])
      {
        var i := idx[n];
        assert idx[..n + 1] == idx[..n] + [i];
        if pages[i].Page? && pages[i].state.Allocated? {
          var p := pages[i].(state := GivePending);
          ScanUpdate(pages, i, p);
          KeepsState(pages, regions, ledger, i, p);
          pages := pages[i := p];
          if hostAllocated > 0 {
            hostAllocated := hostAllocated - 1;
          }
          ambiguousOwned := ambiguousOwned + 1;
        }
      }
      assert idx[..|idx|] == idx;
    }

    method SettleBatch(idx: seq<nat>, code: Code, functionId: u16)
      requires Valid() && forall n :: 0 <= n < |idx| ==> idx[n] < MAX_PAGES
      modifies `pages, `hostAllocated, `ambiguousOwned, `firmwareOwned, `quarantined
      ensures Valid()
      ensures forall i :: 0 <= i < MAX_PAGES ==>
                pages[i] == SettledIn(old(pages)[i], i in idx, code, functionId)
      ensures quarantined == (old(quarantined) || (code.Timeout? && exists n :: 0 <= n < |idx| && InFlight(old(pages)[idx[n]])))
    {
      for n := 0 to |idx|
        invariant Valid()
        invariant forall i :: 0 <= i < MAX_PAGES ==>
                    pages[i] == SettledIn(old(pages)[i], i in idx[..n], code, functionId)
        invariant quarantined == (old(quarantined) || (code.Timeout? && exists m :: 0 <= m < n && InFlight(old(pages)[idx[m]])))
      {
        assert idx[..n + 1] == idx[..n] + [idx[n]];
        SettleOne(idx[n], code, functionId);
      }
      assert idx[..|idx|] == idx;
    }

    method SettleOne(i: nat, code: Code, functionId: u16)
      requires Valid() && i < MAX_PAGES
      modifies `pages, `hostAllocated, `ambiguousOwned, `firmwareOwned, `quarantined
      ensures Valid() && pages == old(pages)[i := SettledIn(old(pages)[i], true, code, functionId)]
      ensures quarantined == (old(quarantined) || (code.Timeout? && InFlight(old(pages)[i])))
    {
      if InFlight(pages[i]) {
        var p := Settled(pages[i], code, functionId);
        ScanUpdate(pages, i, p);
        KeepsState(pages, regions, ledger, i, p);
        pages := pages[i := p];
        if code.Success? {
          if ambiguousOwned > 0 {
            ambiguousOwned := ambiguousOwned - 1;
          }
          firmwareOwned := firmwareOwned + 1;
        } else if code.Timeout? {
          quarantined := true;
        } else {
          if ambiguousOwned > 0 {
            ambiguousOwned := ambiguousOwned - 1;
          }
          hostAllocated := hostAllocated + 1;
        }
      }
    }

    // -------------------------------------------------------------- TAKE

    /** The locked half of one TAKE batch: validate the whole reply, then move every page it
        names, or none. */
    method AcceptReply(functionId: nat, pas: seq<nat>) returns (valid: bool)
      requires Valid()
      modifies `pages, `regions, `firmwareOwned, `returnedCount, `log
      ensures Valid() && Kept(old(pages), pages, log) && old(log) <= log
      ensures valid <==> GoodReply(old(pages), functionId, pas)
      ensures !valid ==> pages == old(pages) && regions == old(regions) && log == old(log)
      ensures valid ==> OnlyReturns(old(pages), pages, functionId) && SameExtents(old(regions), regions)
      ensures valid ==> forall i :: 0 <= i < MAX_PAGES && pages[i] != old(pages)[i] ==> old(pages)[i].iova in pas
      ensures valid ==> Scan(pages).firmware + |pas| == Scan(old(pages)).firmware
      ensures valid ==> Scan(pages).ambiguous == Scan(old(pages)).ambiguous && Scan(pages).host == Scan(old(pages)).host
      ensures valid ==> Scan(pages).handed == Scan(old(pages)).handed + |pas|
      ensures valid ==> forall n :: 0 <= n < |pas| ==> WentBack(old(pages), pages, functionId, pas[n])
    {
      var slots;
      valid, slots := MatchReply(functionId, pas);
      if valid {
        log := log + set n | 0 <= n < |pas| :: pas[n];
        TakeBackIs(pages, slots);
        ApplyReply(pas, slots, functionId);
        NamedWentBack(old(pages), slots, functionId, pas);
      }
    }

    method ApplyReply(pas: seq<nat>, slots: seq<nat>, functionId: nat)
      requires Valid() && |slots| == |pas|
      requires forall n :: 0 <= n < |pas| ==> slots[n] < MAX_PAGES && Matches(pages[slots[n]], functionId, pas[n])
      requires forall m, n :: 0 <= m < n < |slots| ==> slots[m] != slots[n]
      modifies `pages, `regions, `firmwareOwned, `returnedCount
      ensures Valid() && pages == TakeBack(old(pages), slots) && SameExtents(old(regions), regions)
    {
      for n := 0 to |slots|
        invariant Valid() && SameExtents(old(regions), regions)
        invariant pages == TakeBack(old(pages), slots[..n])
      {
        var i := slots[n];
        assert slots[..n + 1][..n] == slots[..n];
        TakeBackIs(old(pages), slots[..n]);
        assert pages[i] == old(pages)[i] by {
          assert i !in slots[..n];
        }
        var p := pages[i].(state := Returned);
        ScanUpdate(pages, i, p);
        KeepsState(pages, regions, ledger, i, p);
        pages := pages[i := p];
        if firmwareOwned > 0 {
          firmwareOwned := firmwareOwned - 1;
        }
        returnedCount := returnedCount + 1;
        ghost var extents := regions;
        DebitExtent(pas[n]);
        SameExtentsOn(old(regions), extents, regions);
      }
      assert slots[..|slots|] == slots;
    }

    /** The first extent whose range contains a returned address owns one page less. */
    method DebitExtent(pa: nat)
      requires Valid()
      modifies `regions
      ensures Valid() && SameExtents(old(regions), regions)
      ensures forall k :: 0 <= k < REGIONS ==> regions[k] == if FirstHome(old(regions), k, pa) then Debited(old(regions)[k]) else old(regions)[k]
    {
      for k := FIRST_EXTENT to REGIONS
        invariant Valid() && regions == old(regions)
        invariant forall n :: FIRST_EXTENT <= n < k ==> !(regions[n].inUse && InRange(pa, regions[n]))
      {
        if regions[k].inUse && InRange(pa, regions[k]) {
          if regions[k].firmwareOwned > 0 {
            var e := regions[k].(firmwareOwned := regions[k].firmwareOwned - 1);
            KeepsGrown(pages, regions, ledger, k, e);
            regions := regions[k := e];
          }
          return;
        }
      }
    }

    method MatchReply(functionId: nat, pas: seq<nat>) returns (valid: bool, slots: seq<nat>)
      requires |pages| == MAX_PAGES
      ensures valid <==> GoodReply(pages, functionId, pas)
      ensures valid ==> |slots| == |pas|
      ensures valid ==> forall n :: 0 <= n < |pas| ==> slots[n] < MAX_PAGES && Matches(pages[slots[n]], functionId, pas[n])
      ensures valid ==> forall m, n :: 0 <= m < n < |slots| ==> slots[m] != slots[n]
    {
      slots := [];
      for n := 0 to |pas|
        invariant |slots| == n
        invariant forall m :: 0 <= m < n ==> pas[m] != 0 && pas[m] % 4096 == 0 && IsFirstMatch(pages, functionId, pas[m], slots[m])
        invariant forall l, m :: 0 <= l < m < n ==> slots[l] != slots[m] && pas[l] != pas[m]
      {
        if pas[n] == 0 || pas[n] % 4096 != 0 {
          return false, slots;
        }
        var slot := 0;
        while slot < MAX_PAGES && !Matches(pages[slot], functionId, pas[n])
          invariant slot <= MAX_PAGES && forall j :: 0 <= j < slot ==> !Matches(pages[j], functionId, pas[n])
        {
          slot := slot + 1;
        }
        if slot == MAX_PAGES {
          assert !IsGiven(pages, functionId, pas[n]);
          return false, slots;
        }
        for m := 0 to n
          invariant forall l :: 0 <= l < m ==> slots[l] != slot
        {
          if slots[m] == slot {
            assert pas[m] == pas[n];
            return false, slots;
          }
        }
        assert forall m :: 0 <= m < n ==> pas[m] != pas[n];
        slots := slots + [slot];
      }
      forall n | 0 <= n < |pas| ensures IsGiven(pages, functionId, pas[n]) {
        assert Matches(pages[slots[n]], functionId, pas[n]);
      }
      return true, slots;
    }

    /** TakePages, one command per 512 pages. Whatever is wrong with a reply isolates the
        function; `answered` and `reply` are the table and the reply of the last command. */
    method TakePages(functionId: u16, numPages: nat, answers: seq<Answer>, drain: bool)
      returns (code: Code, taken: nat, ghost answered: seq<Page>, ghost reply: Option<seq<nat>>)
      requires Valid()
      modifies this
      ensures Steady()
      ensures numPages > 0 && (old(quarantined) || old(ambiguousOwned) > 0) ==> code.NotReady? && taken == 0 && unchanged(this)
      ensures inflow >= old(inflow) && outflow >= old(outflow)
      ensures !drain ==> ledger == old(ledger) && inflow == old(inflow) && outflow == old(outflow) && rtActive == old(rtActive)
      ensures !drain && code.Success? ==> quarantined == old(quarantined) && ambiguousOwned == old(ambiguousOwned)
      ensures code.Success? ==> taken <= numPages && Flowed(old(inflow), old(outflow), Scan(old(pages)).firmware, Scan(pages).firmware + taken)
      ensures !drain && code.Success? ==> OnlyReturns(old(pages), pages, functionId)
      ensures !code.Success? && (code.Timeout? || reply.Some?) ==> quarantined && deviceQuarantined && IsolatedFrom(answered, pages, functionId)
      ensures reply.Some? && code.Success? ==> forall n :: 0 <= n < |reply.value| ==> IsGiven(answered, functionId, reply.value[n])
      ensures !drain && 0 < numPages <= MANAGE_MAX && !old(quarantined) && old(ambiguousOwned) == 0 && Whole(Nth(answers, 0), numPages) &&
              GoodReply(old(pages), functionId, Nth(answers, 0).reply) ==>
                code.Success? && taken == numPages && TookBack(old(pages), old(regions), pages, regions, functionId, Nth(answers, 0).reply)
      decreases drain, 4, 0
    {
      answered, reply := pages, None;
      if numPages == 0 {
        return Success, 0, pages, None;
      }
      var ambiguous := GetAmbiguousOwned();
      if quarantined || ambiguous > 0 {
        return NotReady, 0, pages, None;
      }
      taken := 0;
      var remaining := numPages;
      var turn := 0;
      while remaining > 0
        invariant Steady() && taken + remaining == numPages && remaining >= 0
        invariant !drain ==> ledger == old(ledger) && quarantined == old(quarantined) && ambiguousOwned == old(ambiguousOwned)
        invariant !drain ==> inflow == old(inflow) && outflow == old(outflow) && rtActive == old(rtActive)
        invariant Flowed(old(inflow), old(outflow), Scan(old(pages)).firmware, Scan(pages).firmware + taken)
        invariant !drain ==> OnlyReturns(old(pages), pages, functionId)
        invariant reply.Some? ==> forall n :: 0 <= n < |reply.value| ==> IsGiven(answered, functionId, reply.value[n])
        invariant turn == 0 ==> unchanged(this) && remaining == numPages
        invariant !drain && numPages <= MANAGE_MAX && turn > 0 && Whole(Nth(answers, 0), numPages) &&
                  GoodReply(old(pages), functionId, Nth(answers, 0).reply) ==>
                    remaining == 0 && TookBack(old(pages), old(regions), pages, regions, functionId, Nth(answers, 0).reply)
        decreases remaining
      {
        var b := if remaining < MANAGE_MAX then remaining else MANAGE_MAX;
        if !Nth(answers, turn).room {
          return NoMemory, 0, pages, None;
        }
        var claimed;
        code, claimed, answered, reply := TakeBatch(functionId, b, Nth(answers, turn), drain, old(pages));
        if !code.Success? {
          return code, taken, answered, reply;
        }
        taken := taken + claimed;
        remaining := remaining - claimed;
        turn := turn + 1;
        if claimed == 0 {
          break;
        }
      }
      return Success, taken, answered, reply;
    }

    /** One command of TakePages and what is made of its reply. */
    method TakeBatch(functionId: u16, b: nat, answer: Answer, drain: bool, ghost first: seq<Page>)
      returns (code: Code, claimed: nat, ghost answered: seq<Page>, ghost reply: Option<seq<nat>>)
      requires Valid() && Kept(first, pages, log)
      modifies this
      ensures Steady() && Kept(first, pages, log)
      ensures inflow >= old(inflow) && outflow >= old(outflow)
      ensures !drain ==> answered == old(pages) && ledger == old(ledger) && inflow == old(inflow) && outflow == old(outflow)
      ensures !drain ==> rtActive == old(rtActive)
      ensures code.Success? <==> answer.code.Success? && answer.scratch && |answer.reply| <= b && GoodReply(answered, functionId, answer.reply)
      ensures answer.code.Success? && answer.scratch ==> reply == Some(answer.reply)
      ensures !code.Success? && (code.Timeout? || reply.Some?) ==> quarantined && deviceQuarantined && IsolatedFrom(answered, pages, functionId)
      ensures code.Success? ==> claimed <= b && Flowed(old(inflow), old(outflow), Scan(old(pages)).firmware, Scan(pages).firmware + claimed)
      ensures !drain && code.Success? ==> quarantined == old(quarantined) && ambiguousOwned == old(ambiguousOwned)
      ensures code.Success? ==> claimed == |answer.reply| && reply == Some(answer.reply)
      ensures !drain && code.Success? ==> TookBack(old(pages), old(regions), pages, regions, functionId, answer.reply)
      ensures !drain && code.Success? ==> OnlyReturns(old(pages), pages, functionId)
      ensures !drain && code.Success? && OnlyReturns(first, old(pages), functionId) ==> OnlyReturns(first, pages, functionId)
      decreases drain, 3, 0
    {
      code := Exec(drain, answer);
      answered, reply := pages, None;
      ghost var early := log;
      KeptTransitive(first, old(pages), pages, old(log), log);
      if !code.Success? {
        if code.Timeout? {
          QuarantineFunction(functionId);
          KeptTransitive(old(pages), answered, pages, early, log);
          KeptTransitive(first, answered, pages, early, log);
        }
        return code, 0, answered, None;
      }
      code, claimed, reply := FinishTake(functionId, b, answer);
      KeptTransitive(old(pages), answered, pages, early, log);
      KeptTransitive(first, answered, pages, early, log);
    }

    /** TakePages after a command that succeeded: the whole reply is checked before any page
        moves, and a reply that cannot be right isolates the function. */
    method FinishTake(functionId: u16, b: nat, answer: Answer) returns (code: Code, claimed: nat, ghost reply: Option<seq<nat>>)
      requires Valid()
      modifies `pages, `regions, `firmwareOwned, `returnedCount, `ambiguousOwned, `quarantined, `deviceQuarantined, `log
      ensures Steady()
      ensures code.Success? <==> answer.scratch && |answer.reply| <= b && GoodReply(old(pages), functionId, answer.reply)
      ensures reply == if answer.scratch then Some(answer.reply) else None
      ensures !code.Success? ==> claimed == 0 && quarantined && deviceQuarantined && IsolatedFrom(old(pages), pages, functionId)
      ensures code.Success? ==> quarantined == old(quarantined) && ambiguousOwned == old(ambiguousOwned)
      ensures code.Success? ==> claimed == |answer.reply| && TookBack(old(pages), old(regions), pages, regions, functionId, answer.reply)
      ensures code.Success? ==> OnlyReturns(old(pages), pages, functionId)
    {
      reply := None;
      if !answer.scratch {
        QuarantineFunction(functionId);
        return NoMemory, 0, None;
      }
      reply := Some(answer.reply);
      var valid := |answer.reply| <= b;
      if valid {
        valid := AcceptReply(functionId, answer.reply);
      }
      if !valid {
        QuarantineFunction(functionId);
        return IOError, 0, reply;
      }
      return Success, |answer.reply|, reply;
    }

    // -------------------------------------------------------------- providing pages

    /** The shared failure path of both providers: take back what this call gave, or
        quarantine. */
    method Undo(functionId: u16, given: nat, ownership: nat, contig: bool, drain: bool)
      requires Valid()
      modifies this
      ensures Steady()
      ensures !drain ==> quarantined || Scan(pages).firmware + given == Scan(old(pages)).firmware
      decreases drain, 4, 1
    {
      var taken := 0;
      var code := Success;
      if given > 0 {
        var answers: seq<Answer> := *;
        ghost var answered, reply;
        code, taken, answered, reply := TakePages(functionId, given, answers, drain);
      }
      ghost var reached, early := pages, log;
      if !code.Success? || taken < given {
        EnterQuarantine();
        KeptTransitive(old(pages), reached, pages, early, log);
      } else {
        if contig && ownership == 3 {
          rtGiven := 0;
        }
        var _ := ReleaseHostMappings();
        KeptTransitive(old(pages), reached, pages, early, log);
        FirmwareSurvives(reached, pages);
        if ownership == 3 && given == 0 {
          reached, early := pages, log;
          NotifyAllocationFailure(drain);
          KeptTransitive(old(pages), reached, pages, early, log);
        }
      }
    }

    /** What both do when a GIVE has failed. */
    method IsolateOrUndo(code: Code, functionId: u16, given: nat, ownership: nat, contig: bool, drain: bool)
      requires Valid()
      modifies this
      ensures Steady()
      ensures !drain ==> quarantined || Scan(pages).firmware + given == Scan(old(pages)).firmware
      decreases drain, 5, 0
    {
      var ambiguous := GetAmbiguousOwned();
      if code.Timeout? || ambiguous > 0 {
        EnterQuarantine();
      } else {
        Undo(functionId, given, ownership, contig, drain);
      }
    }

    /** One chunk of single pages; a failed allocation releases the ones before it. */
    method AllocChunk(n: nat, ownership: nat, functionId: u16) returns (code: Code, idx: seq<nat>)
      requires Valid()
      modifies `pages, `hostAllocated, `returnedCount, `ledger
      ensures Steady()
      ensures Scan(pages).firmware == Scan(old(pages)).firmware && Scan(pages).ambiguous == Scan(old(pages)).ambiguous
      ensures code.Success? ==> |idx| == n && Distinct(idx) && forall m :: 0 <= m < n ==> IsAllocated(pages, idx[m])
    {
      idx := [];
      for i := 0 to n
        invariant Steady()
        invariant Scan(pages).firmware == Scan(old(pages)).firmware && Scan(pages).ambiguous == Scan(old(pages)).ambiguous
        invariant |idx| == i && Distinct(idx) && forall m :: 0 <= m < i ==> IsAllocated(pages, idx[m])
      {
        ghost var before := pages;
        var slot;
        code, slot := AllocPage();
        if !code.Success? {
          for j := 0 to |idx|
            invariant Steady()
            invariant Scan(pages).firmware == Scan(old(pages)).firmware && Scan(pages).ambiguous == Scan(old(pages)).ambiguous
          {
            ReleaseOne(idx[j], old(pages));
          }
          return;
        }
        ScanUpdate(before, slot, pages[slot]);
        KeptStep(old(pages), before, slot, pages[slot], log);
        Label(slot, ownership, functionId, old(pages));
        idx := idx + [slot];
      }
      return Success, idx;
    }

    /** ProvidePages stamps the fresh page with its owner and function. */
    method Label(slot: nat, ownership: nat, functionId: u16, ghost first: seq<Page>)
      requires Valid() && Kept(first, pages, log)
      requires IsAllocated(pages, slot) && pages[slot].own.Some?
      modifies `pages
      ensures Valid() && Kept(first, pages, log)
      ensures pages == old(pages)[slot := old(pages)[slot].(ownership := ownership, functionId := functionId)]
      ensures Scan(pages) == Scan(old(pages))
    {
      var p := pages[slot].(ownership := ownership, functionId := functionId);
      ScanUpdate(pages, slot, p);
      KeepsOwn(pages, regions, ledger, slot, p);
      KeptStep(first, pages, slot, p, log);
      pages := pages[slot := p];
    }

    /** ReleasePage as the failure paths use it. */
    method ReleaseOne(i: nat, ghost first: seq<Page>)
      requires Valid() && Kept(first, pages, log)
      modifies `pages, `hostAllocated, `returnedCount, `ledger
      ensures Valid() && Kept(first, pages, log) && Grew(old(ledger), ledger)
      ensures Scan(pages).firmware == Scan(old(pages)).firmware && Scan(pages).ambiguous == Scan(old(pages)).ambiguous
    {
      if i < MAX_PAGES && !quarantined && !HeldPage(pages[i]) {
        ScanUpdate(pages, i, Unused);
        KeptStep(first, pages, i, Unused, log);
      }
      ReleasePage(i);
    }

    /** ProvidePages: separate 4 KiB buffers, given in chunks of 64. */
    method ProvidePages(numPages: nat, ownership: nat, functionId: u16, drain: bool) returns (code: Code)
      requires Valid() && 1 <= ownership <= 3
      modifies this
      ensures Steady()
      ensures !drain && code.Success? ==>
                quarantined == old(quarantined) && Scan(pages).firmware == Scan(old(pages)).firmware + numPages
      ensures !drain && !code.Success? ==> quarantined || Scan(pages).firmware == Scan(old(pages)).firmware
      decreases drain, 6, 0
    {
      if numPages == 0 {
        return Success;
      }
      if numPages > MAX_PAGES {
        return NoSpace;
      }
      var given := 0;
      while given < numPages
        invariant Steady() && given <= numPages
        invariant !drain ==> quarantined == old(quarantined) && Scan(pages).firmware == Scan(old(pages)).firmware + given
        decreases numPages - given
      {
        var n := if numPages - given < 64 then numPages - given else 64;
        var idx;
        ghost var before, early := pages, log;
        code, idx := AllocChunk(n, ownership, functionId);
        KeptTransitive(old(pages), before, pages, early, log);
        ghost var chunk, chunkLog := pages, log;
        if !code.Success? {
          Undo(functionId, given, ownership, false, drain);
          KeptTransitive(old(pages), chunk, pages, chunkLog, log);
          return;
        }
        var answer: Answer := *;
        code := Give(idx, functionId, answer, drain);
        KeptTransitive(old(pages), chunk, pages, chunkLog, log);
        if !drain {
          GiveCounts(chunk, pages, idx, code, functionId);
        }
        if !code.Success? {
          GiveFailed(idx, code, functionId, given, ownership, drain, old(pages));
          return;
        }
        given := given + n;
      }
      return Success;
    }

    /** Failure of a GIVE in ProvidePages: release the chunk, then quarantine or undo. */
    method GiveFailed(idx: seq<nat>, code: Code, functionId: u16, given: nat, ownership: nat, drain: bool, ghost first: seq<Page>)
      requires Valid() && Kept(first, pages, log)
      modifies this
      ensures Steady() && Kept(first, pages, log)
      ensures !drain ==> quarantined || Scan(pages).firmware + given == Scan(old(pages)).firmware
      decreases drain, 5, 1
    {
      for j := 0 to |idx|
        invariant Steady() && Scan(pages).firmware == Scan(old(pages)).firmware
      {
        ReleaseOne(idx[j], old(pages));
      }
      ghost var released, early := pages, log;
      IsolateOrUndo(code, functionId, given, ownership, false, drain);
      KeptTransitive(old(pages), released, pages, early, log);
      KeptTransitive(first, old(pages), pages, old(log), log);
    }

    // -------------------------------------------------------------- contiguous regions

    /** The region a request of this ownership uses; REGIONS when no extent is free. */
    method PickRegion(ownership: nat) returns (k: nat)
      requires |regions| == REGIONS
      ensures k <= REGIONS
      ensures ownership == 3 && k < REGIONS ==> k >= FIRST_EXTENT && !regions[k].inUse
      ensures ownership == 3 && k == REGIONS ==> !HasExtent(regions)
      ensures ownership == 2 ==> k == 1
      ensures ownership == 1 ==> k == 0
    {
      if ownership == 3 {
        k := FIRST_EXTENT;
        while k < REGIONS && regions[k].inUse
          invariant FIRST_EXTENT <= k <= REGIONS && forall n :: FIRST_EXTENT <= n < k ==> regions[n].inUse
        {
          k := k + 1;
        }
      } else if ownership == 2 {
        k := 1;
      } else {
        k := 0;
      }
    }

    /** ProvidePagesContig: one large buffer, its pages given in batches of 512. */
    method ProvidePagesContig(numPages: nat, ownership: nat, functionId: u16, mapping: Mapping, answers: seq<Answer>, drain: bool)
      returns (code: Code)
      requires Valid() && 1 <= ownership <= 3
      modifies this
      ensures Steady()
      ensures !drain && code.Success? ==>
                quarantined == old(quarantined) && Scan(pages).firmware == Scan(old(pages)).firmware + numPages
      ensures !drain && !code.Success? ==> quarantined || Scan(pages).firmware == Scan(old(pages)).firmware
      ensures !drain && 0 < numPages <= 512 && ownership == 3 && Grantable(old(pages), old(regions), mapping, numPages) &&
              !old(quarantined) && Nth(answers, 0).code.Success? ==>
                code.Success? && Granted(old(pages), old(regions), pages, regions, functionId, numPages, mapping.address) &&
                Scan(pages).ambiguous == Scan(old(pages)).ambiguous
      decreases drain, 6, 0
    {
      if numPages == 0 || numPages > MAX_PAGES {
        return BadArgument;
      }
      var k := PickRegion(ownership);
      if k == REGIONS {
        return Busy;
      }
      if regions[k].inUse || quarantined {
        return if quarantined then NotReady else Busy;
      }
      assert RegionBacked(regions[k], k, ledger);
      var reserved := NO_REGION.(inUse := true, functionId := if ownership == 3 then functionId else 0);
      KeepsBare(pages, regions, ledger, k, reserved);
      regions := regions[k := reserved];

      var base, obtained := MapRegion(k, numPages, mapping);
      if !obtained {
        KeepsBare(pages, regions, ledger, k, regions[k].(inUse := false));
        regions := regions[k := regions[k].(inUse := false)];
        if ownership == 3 {
          NotifyAllocationFailure(drain);
        }
        var why :| why == NoMemory || why == NoSpace;
        return why;
      }
      ghost var mapped, early := pages, log;
      code := FillAndGive(k, numPages, ownership, functionId, base, answers, drain, old(regions));
      KeptTransitive(old(pages), mapped, pages, early, log);
    }

    /** The second half: the pages of a region that is mapped. */
    method FillAndGive(k: nat, numPages: nat, ownership: nat, functionId: u16, base: nat, answers: seq<Answer>, drain: bool,
                       ghost first: seq<Region>)
      returns (code: Code)
      requires Valid() && 1 <= ownership <= 3 && k < REGIONS && Frees(pages) >= numPages
      requires (ownership == 1 ==> k == 0) && (ownership == 2 ==> k == 1) && (ownership == 3 ==> k >= FIRST_EXTENT)
      requires regions[k].inUse && regions[k].buf.Some? && regions[k].iova == base && regions[k].numPages == 0
      requires |first| == REGIONS && !first[k].inUse && forall n :: 0 <= n < REGIONS && n != k ==> regions[n] == first[n]
      modifies this
      ensures Steady()
      ensures !drain && code.Success? ==>
                quarantined == old(quarantined) && Scan(pages).firmware == Scan(old(pages)).firmware + numPages
      ensures !drain && !code.Success? ==> quarantined || Scan(pages).firmware == Scan(old(pages)).firmware
      ensures !drain && 0 < numPages <= 512 && ownership == 3 && Nth(answers, 0).code.Success? ==>
                code.Success? && Granted(old(pages), first, pages, regions, functionId, numPages, base) &&
                Scan(pages).ambiguous == Scan(old(pages)).ambiguous
      decreases drain, 5, 2
    {
      var idx := FillRegion(k, numPages, ownership, functionId, base);
      ghost var filled, early, installed := pages, log, regions;
      FilledIsAllocated(old(pages), pages, idx, functionId, ownership, base);
      code := GiveRegion(k, idx, ownership, functionId, answers, drain);
      KeptTransitive(old(pages), filled, pages, early, log);
      if !drain && 0 < numPages <= 512 && ownership == 3 && Nth(answers, 0).code.Success? {
        FilledIsGranted(old(pages), first, filled, installed, pages, regions, functionId, numPages, base, idx, k);
      }
    }

    /** Allocation, mapping and the capacity test; what is not installed is completed. */
    method MapRegion(k: nat, numPages: nat, mapping: Mapping) returns (base: nat, ok: bool)
      requires Valid() && k < REGIONS && regions[k].inUse && regions[k].buf.None? && regions[k].numPages == 0
      modifies `regions, `ledger
      ensures Valid() && Grew(old(ledger), ledger)
      ensures ok <==> Usable(mapping, numPages) && Frees(pages) >= numPages
      ensures !ok ==> regions == old(regions)
      ensures ok ==> base == mapping.address
      ensures ok ==> regions == old(regions)[k := regions[k]] && regions[k].inUse && regions[k].buf.Some?
      ensures ok ==> regions[k].iova == base && regions[k].numPages == 0 && Frees(pages) >= numPages
    {
      base := 0;
      if !mapping.indices || !mapping.memory {
        return 0, false;
      }
      var buf := ledger.next;
      var freeSlots := CountFree();
      if !Usable(mapping, numPages) || freeSlots < numPages {
        KeepsScrapped(pages, regions, ledger);
        ledger := ledger.(completed := ledger.completed + {buf}, next := buf + 1);
        return 0, false;
      }
      var r := regions[k].(buf := Some(buf), iova := mapping.address);
      KeepsInstalled(pages, regions, ledger, k, r);
      ledger := ledger.(owner := ledger.owner[buf := RegionOwns(k)], next := buf + 1);
      regions := regions[k := r];
      return mapping.address, true;
    }

    method CountFree() returns (c: nat)
      requires |pages| == MAX_PAGES
      ensures c == Frees(pages)
    {
      c := 0;
      for i := 0 to MAX_PAGES
        invariant c == Frees(pages[..i])
      {
        assert pages[..i + 1][..i] == pages[..i];
        if pages[i].Unused? {
          c := c + 1;
        }
      }
      assert pages[..MAX_PAGES] == pages;
    }

    /** Page `i` of the region lies at its base plus i pages. The capacity test makes the
        "no slot" exit of the source unreachable. */
    method FillRegion(k: nat, numPages: nat, ownership: nat, functionId: u16, base: nat) returns (idx: seq<nat>)
      requires Valid() && 1 <= ownership <= 3 && k < REGIONS && Frees(pages) >= numPages
      requires (ownership == 1 ==> k == 0) && (ownership == 2 ==> k == 1) && (ownership == 3 ==> k >= FIRST_EXTENT)
      requires regions[k].inUse && regions[k].buf.Some? && regions[k].iova == base && regions[k].numPages == 0
      modifies `pages, `regions, `hostAllocated
      ensures Valid() && Kept(old(pages), pages, log)
      ensures FilledWith(old(pages), pages, idx, functionId, ownership, base) && |idx| == numPages
      ensures regions == old(regions)[k := old(regions)[k].(numPages := numPages)]
      ensures Scan(pages).firmware == Scan(old(pages)).firmware && Scan(pages).ambiguous == Scan(old(pages)).ambiguous
    {
      idx := [];
      for i := 0 to numPages
        invariant Valid() && Kept(old(pages), pages, log) && Frees(pages) >= numPages - i
        invariant regions[k].inUse && regions[k].buf.Some? && regions[k].iova == base && regions[k].numPages == i
        invariant |idx| == i && FilledWith(old(pages), pages, idx, functionId, ownership, base)
        invariant regions == old(regions)[k := old(regions)[k].(numPages := i)]
        invariant Scan(pages).firmware == Scan(old(pages)).firmware && Scan(pages).ambiguous == Scan(old(pages)).ambiguous
      {
        ghost var before := pages;
        var slot := AddPage(k, ownership, functionId, base + i * 4096);
        KeptStep(old(pages), before, slot, pages[slot], log);
        FilledOne(old(pages), before, idx, functionId, ownership, base, slot);
        idx := idx + [slot];
      }
    }

    /** One turn of the loop: first free slot, next page of the region. */
    method AddPage(k: nat, ownership: nat, functionId: u16, iova: nat) returns (slot: nat)
      requires Valid() && 1 <= ownership <= 3 && k < REGIONS && Frees(pages) > 0
      requires (ownership == 1 ==> k == 0) && (ownership == 2 ==> k == 1) && (ownership == 3 ==> k >= FIRST_EXTENT)
      requires regions[k].inUse && regions[k].buf.Some? && iova == regions[k].iova + regions[k].numPages * 4096
      modifies `pages, `regions, `hostAllocated
      ensures Valid() && slot < MAX_PAGES && old(pages)[slot].Unused?
      ensures pages == old(pages)[slot := Page(functionId, ownership, Allocated, None, iova)]
      ensures regions == old(regions)[k := old(regions)[k].(numPages := old(regions)[k].numPages + 1)]
      ensures Frees(pages) + 1 == Frees(old(pages))
      ensures Scan(pages).firmware == Scan(old(pages)).firmware && Scan(pages).ambiguous == Scan(old(pages)).ambiguous
    {
      FreesWitness(pages);
      slot := 0;
      while slot < MAX_PAGES && pages[slot].Page?
        invariant slot <= MAX_PAGES && forall j :: 0 <= j < slot ==> pages[j].Page?
      {
        slot := slot + 1;
      }
      var r := regions[k].(numPages := regions[k].numPages + 1);
      KeepsGrown(pages, regions, ledger, k, r);
      regions := regions[k := r];
      var p := Page(functionId, ownership, Allocated, None, iova);
      ScanUpdate(pages, slot, p);
      FreesUpdate(pages, slot, p);
      KeepsNewShared(pages, regions, ledger, slot, p, k);
      pages := pages[slot := p];
      hostAllocated := hostAllocated + 1;
    }

    /** The GIVE loop of ProvidePagesContig. */
    method GiveRegion(k: nat, idx: seq<nat>, ownership: nat, functionId: u16, answers: seq<Answer>, drain: bool)
      returns (code: Code)
      requires Valid() && k < REGIONS && Distinct(idx) && forall m :: 0 <= m < |idx| ==> IsAllocated(pages, idx[m])
      modifies this
      ensures Steady()
      ensures !drain && code.Success? ==>
                quarantined == old(quarantined) && Scan(pages).firmware == Scan(old(pages)).firmware + |idx|
      ensures !drain && !code.Success? ==> quarantined || Scan(pages).firmware == Scan(old(pages)).firmware
      ensures !drain && 0 < |idx| <= 512 && Nth(answers, 0).code.Success? ==> code.Success? && GaveAll(old(pages), old(regions), pages, regions, idx, functionId)
      decreases drain, 5, 1
    {
      var start, turn := 0, 0;
      while start < |idx|
        invariant Steady() && start <= |idx|
        invariant !drain ==> quarantined == old(quarantined) && Scan(pages).firmware == Scan(old(pages)).firmware + start
        invariant !drain ==> forall m :: start <= m < |idx| ==> IsAllocated(pages, idx[m])
        invariant turn == 0 ==> start == 0 && pages == old(pages) && regions == old(regions)
        invariant !drain && |idx| <= 512 && turn > 0 && Nth(answers, 0).code.Success? ==>
                    start == |idx| && GaveAll(old(pages), old(regions), pages, regions, idx, functionId)
        decreases |idx| - start
      {
        var n := if |idx| - start < 512 then |idx| - start else 512;
        var batch := idx[start..start + n];
        assert n == |idx| ==> batch == idx;
        ghost var before, early := pages, log;
        code := Give(batch, functionId, Nth(answers, turn), drain);
        KeptTransitive(old(pages), before, pages, early, log);
        if !drain {
          assert Distinct(batch);
          GiveCounts(before, pages, batch, code, functionId);
        }
        if !code.Success? {
          ghost var refused, refusedLog := pages, log;
          IsolateOrUndo(code, functionId, start, ownership, true, drain);
          KeptTransitive(old(pages), refused, pages, refusedLog, log);
          return;
        }
        assert !drain ==> forall m :: start + n <= m < |idx| ==> idx[m] !in batch;
        CreditRegion(k, start + n, ownership);
        start, turn := start + n, turn + 1;
      }
      return Success;
    }

    method CreditRegion(k: nat, given: nat, ownership: nat)
      requires Valid() && k < REGIONS
      modifies `regions, `rtGiven
      ensures Valid() && SameExtents(old(regions), regions)
    {
      if ownership == 3 {
        var r := regions[k].(firmwareOwned := given);
        KeepsGrown(pages, regions, ledger, k, r);
        regions := regions[k := r];
        rtGiven := given;
      }
    }

    // -------------------------------------------------------------- page requests

    /** HandleRuntimePageRequest: positive counts are granted from a new extent, negative ones
        taken back; a request for more than firmware holds quarantines before any command. */
    method HandleRuntimePageRequest(functionId: u16, numPages: int, mapping: Mapping, answers: seq<Answer>, drain: bool)
      returns (code: Code)
      requires Valid()
      modifies this
      ensures Steady()
      ensures numPages < 0 && -numPages > Scan(old(pages)).firmware ==>
                code.BadArgument? && quarantined && log == old(log) && ledger == old(ledger) && inflow == old(inflow) && outflow == old(outflow) &&
                forall i :: 0 <= i < MAX_PAGES ==> pages[i] == Isolate(old(pages)[i], None)
      ensures !drain && code.Success? && !old(rtActive) ==> Scan(pages).firmware == Scan(old(pages)).firmware + numPages
      ensures !drain && numPages < 0 && code.Success? ==> Scan(pages).firmware == Scan(old(pages)).firmware + numPages
      ensures !drain && -512 <= numPages < 0 && -numPages <= Scan(old(pages)).firmware && !old(quarantined) && old(ambiguousOwned) == 0 &&
              Whole(Nth(answers, 0), -numPages) && GoodReply(old(pages), functionId, Nth(answers, 0).reply) ==>
                code.Success? && !quarantined && ambiguousOwned == 0 && rtActive == old(rtActive) &&
                Withdrawn(old(pages), old(regions), pages, regions, functionId, Nth(answers, 0).reply)
      ensures !drain && 0 < numPages <= 512 && Grantable(old(pages), old(regions), mapping, numPages) && !old(rtActive) && !old(quarantined) &&
              old(ambiguousOwned) == 0 && Nth(answers, 0).code.Success? ==>
                code.Success? && !rtActive && !quarantined && ambiguousOwned == 0 &&
                Granted(old(pages), old(regions), pages, regions, functionId, numPages, mapping.address)
      decreases drain, 7, 0
    {
      if numPages > 0 {
        code := ServeGive(functionId, numPages, mapping, answers, drain);
        return;
      }
      if numPages < 0 {
        var n := -numPages;
        var owned := GetFirmwareOwned();
        if n > owned {
          EnterQuarantine();
          return BadArgument;
        }
        negativeTakeRequests := negativeTakeRequests + 1;
        negativeTakePages := negativeTakePages + n;
        code := ServeTake(functionId, n, answers, drain);
        return;
      }
      return Success;
    }

    /** Its positive branch: one request at a time, a repeated one is merged. */
    method ServeGive(functionId: u16, n: nat, mapping: Mapping, answers: seq<Answer>, drain: bool) returns (code: Code)
      requires Valid() && n > 0
      modifies this
      ensures Steady()
      ensures !drain && code.Success? && !old(rtActive) ==> Scan(pages).firmware == Scan(old(pages)).firmware + n
      ensures !drain && n <= 512 && Grantable(old(pages), old(regions), mapping, n) && !old(rtActive) && !old(quarantined) &&
              old(ambiguousOwned) == 0 && Nth(answers, 0).code.Success? ==>
                code.Success? && !rtActive && !quarantined && ambiguousOwned == 0 &&
                Granted(old(pages), old(regions), pages, regions, functionId, n, mapping.address)
      decreases drain, 6, 1
    {
      if rtActive {
        if functionId == rtFuncId {
          rtLatestOutstanding := n;
          return Success;
        }
        return Busy;
      }
      rtActive, rtFuncId, rtTarget, rtGiven := true, functionId, n, 0;
      rtLatestOutstanding, rtLastError := n, Success;
      code := ProvidePagesContig(n, 3, functionId, mapping, answers, drain);
      rtActive, rtLastError := false, code;
    }

    /** Its negative branch: everything asked for comes back, or everything is isolated. */
    method ServeTake(functionId: u16, n: nat, answers: seq<Answer>, drain: bool) returns (code: Code)
      requires Valid() && n > 0
      modifies this
      ensures Steady()
      ensures !drain && code.Success? ==> Scan(pages).firmware + n == Scan(old(pages)).firmware
      ensures !drain && n <= MANAGE_MAX && !old(quarantined) && old(ambiguousOwned) == 0 && Whole(Nth(answers, 0), n) &&
              GoodReply(old(pages), functionId, Nth(answers, 0).reply) ==>
                code.Success? && !quarantined && ambiguousOwned == 0 && rtActive == old(rtActive) &&
                Withdrawn(old(pages), old(regions), pages, regions, functionId, Nth(answers, 0).reply)
      ensures !drain ==> rtActive == old(rtActive)
      decreases drain, 6, 0
    {
      var taken;
      ghost var answered, reply;
      code, taken, answered, reply := TakePages(functionId, n, answers, drain);
      negativeTakeReturned := negativeTakeReturned + taken;
      ghost var reached, early := pages, log;
      if !code.Success? || taken < n {
        EnterQuarantine();
        KeptTransitive(old(pages), reached, pages, early, log);
        return if code.Success? then Busy else code;
      }
      ghost var extents := regions;
      code := ReleaseHostMappings();
      KeptTransitive(old(pages), reached, pages, early, log);
      FirmwareSurvives(reached, pages);
      if code.Success? && TookBack(old(pages), old(regions), reached, extents, functionId, Nth(answers, 0).reply) {
        ReleasedIsWithdrawn(old(pages), old(regions), reached, extents, pages, regions, functionId, Nth(answers, 0).reply);
      }
    }

    // -------------------------------------------------------------- teardown

    /** ReclaimAll. Stop has freed the queue of page requests before it calls this; then
        (`drain` false) it ends whatever firmware answers: a batch either takes pages or uses
        up part of the 5 s budget. StableInitCycle has not, and requests serviced inside the
        commands give pages and take them while it runs; in that case only `turns` turns of the
        loop are watched, and `ended` says whether it has been left. On success no slot, no
        region and no live buffer remains, and what was returned and what was requested differ
        by exactly what the requests gave and took. */
    method ReclaimAll(drain: bool, turns: nat) returns (code: Code, requested: nat, returned: nat, ended: bool)
      requires Valid()
      modifies this
      ensures Steady()
      ensures old(quarantined) || old(ambiguousOwned) > 0 ==> ended && code.Busy? && unchanged(this)
      ensures !drain ==> ended && inflow == old(inflow) && outflow == old(outflow)
      ensures inflow >= old(inflow) && outflow >= old(outflow)
      ensures ended && code.Success? ==> requested == Scan(old(pages)).firmware && !quarantined
      ensures ended && code.Success? ==> returned + (outflow - old(outflow)) == requested + (inflow - old(inflow))
      ensures ended && code.Success? ==> (returned == requested <==> inflow - old(inflow) == outflow - old(outflow))
      ensures ended && code.Success? ==> Emptied(pages, regions, ledger)
      ensures !ended ==> turns <= 101 * (requested + (inflow - old(inflow))) + 100
      ensures !drain ==> code.Busy? || code.Success? || quarantined
    {
      requested, returned, ended := 0, 0, true;
      var ambiguous := GetAmbiguousOwned();
      if quarantined || ambiguous > 0 {
        return Busy, 0, 0, true;
      }
      requested := GetFirmwareOwned();
      code, returned, ended := ReclaimLoop(requested, drain, turns);
      if ended && code.Success? {
        ghost var left, leftLog := pages, log;
        rtActive, rtTarget, rtGiven := false, 0, 0;
        code := ReleaseAll();
        KeptTransitive(old(pages), left, pages, leftLog, log);
      }
    }

    /** Its loop. */
    method ReclaimLoop(requested: nat, drain: bool, turns: nat) returns (code: Code, returned: nat, ended: bool)
      requires Valid() && requested == Scan(pages).firmware && !quarantined && ambiguousOwned == 0
      modifies this
      ensures Steady()
      ensures inflow >= old(inflow) && outflow >= old(outflow)
      ensures !drain ==> ended && inflow == old(inflow) && outflow == old(outflow)
      ensures !drain && code.Success? ==> !quarantined && ambiguousOwned == 0
      ensures ended && code.Success? ==> Scan(pages).firmware == 0 && Flowed(old(inflow), old(outflow), requested, returned)
      ensures ended && !code.Success? ==> quarantined
      ensures !ended ==> 50 * turns <= 5050 * (requested + (inflow - old(inflow))) + 5049
    {
      returned := 0;
      var noProgressMs, turn := 0, 0;
      while true
        invariant Steady() && turn <= turns && noProgressMs < 5050
        invariant !drain ==> !quarantined && ambiguousOwned == 0 && turn == 0 && inflow == old(inflow) && outflow == old(outflow)
        invariant Flowed(old(inflow), old(outflow), requested, Scan(pages).firmware + returned)
        invariant 50 * turn <= 5050 * returned + noProgressMs
        decreases if drain then turns - turn else Scan(pages).firmware, 5050 - noProgressMs
      {
        var found, func, cnt := FirstOwner();
        if !found {
          return Success, returned, true;
        }
        if drain {
          if turn == turns {
            return Success, returned, false;
          }
          turn := turn + 1;
        }
        ghost var before, early := pages, log;
        var answers: seq<Answer> := *;
        var taken;
        code, taken, noProgressMs := ReclaimTurn(func, cnt, noProgressMs, answers, drain);
        KeptTransitive(old(pages), before, pages, early, log);
        returned := returned + taken;
        if !code.Success? {
          return code, returned, true;
        }
      }
    }

    /** One turn of its loop: a batch, and the budget for batches that take nothing. */
    method ReclaimTurn(func: u16, cnt: nat, noProgressMs: nat, answers: seq<Answer>, drain: bool)
      returns (code: Code, taken: nat, pausedMs: nat)
      requires Valid() && noProgressMs < 5050
      modifies this
      ensures Steady()
      ensures inflow >= old(inflow) && outflow >= old(outflow)
      ensures !drain ==> inflow == old(inflow) && outflow == old(outflow)
      ensures !drain && code.Success? ==> quarantined == old(quarantined) && ambiguousOwned == old(ambiguousOwned)
      ensures code.Success? ==> taken <= cnt && Flowed(old(inflow), old(outflow), Scan(old(pages)).firmware, Scan(pages).firmware + taken)
      ensures code.Success? ==> pausedMs == Pause(noProgressMs, taken)
      ensures pausedMs < 5050
      ensures !code.Success? ==> quarantined
    {
      pausedMs := 0;
      var b := if cnt > MANAGE_MAX then MANAGE_MAX else cnt;
      code, taken := TakeOrQuarantine(func, b, answers, drain);
      ghost var reached, early := pages, log;
      if !code.Success? {
        rtActive, rtTarget, rtGiven := false, 0, 0;
      } else if taken == 0 {
        if noProgressMs >= 5000 {
          EnterQuarantine();
          KeptTransitive(old(pages), reached, pages, early, log);
          return Timeout, 0, 0;
        }
        pausedMs := Pause(noProgressMs, taken);
      }
    }

    /** The end of ReclaimAll, once no page is given out. */
    method ReleaseAll() returns (code: Code)
      requires Valid() && Scan(pages).firmware == 0
      modifies `pages, `regions, `hostAllocated, `returnedCount, `ledger
      ensures Steady()
      ensures code.Success? <==> !quarantined && ambiguousOwned == 0
      ensures code.Success? ==> Emptied(pages, regions, ledger)
    {
      code := ReleaseHostMappings();
      if code.Success? {
        NothingIsHeld(old(pages));
        NothingIsOwned(pages, regions, ledger);
      }
      var accountingOk := ValidateAccounting();
      return if accountingOk then code else InternalError;
    }

    /** One batch of ReclaimAll; a batch that fails isolates everything. */
    method TakeOrQuarantine(func: u16, cnt: nat, answers: seq<Answer>, drain: bool) returns (code: Code, taken: nat)
      requires Valid()
      modifies this
      ensures Steady()
      ensures inflow >= old(inflow) && outflow >= old(outflow)
      ensures !drain ==> inflow == old(inflow) && outflow == old(outflow)
      ensures !drain && code.Success? ==> quarantined == old(quarantined) && ambiguousOwned == old(ambiguousOwned)
      ensures code.Success? ==> taken <= cnt && Flowed(old(inflow), old(outflow), Scan(old(pages)).firmware, Scan(pages).firmware + taken)
      ensures !code.Success? ==> quarantined
    {
      ghost var answered, reply;
      code, taken, answered, reply := TakePages(func, cnt, answers, drain);
      if !code.Success? {
        ghost var reached, early := pages, log;
        EnterQuarantine();
        KeptTransitive(old(pages), reached, pages, early, log);
      }
    }

    /** The function of the first GIVEN page, and how many pages that function holds. */
    method FirstOwner() returns (found: bool, func: u16, cnt: nat)
      requires Valid()
      ensures found <==> Scan(pages).firmware > 0
      ensures found ==> (exists i :: FirstGiven(pages, i, func)) && 0 < cnt == Holdings(pages, func) <= Scan(pages).firmware
    {
      found, func, cnt := false, 0, 0;
      for i := 0 to MAX_PAGES
        invariant !found ==> cnt == 0 && forall j :: 0 <= j < i ==> !GivenTo(pages[j], None)
        invariant found ==> (exists j :: FirstGiven(pages, j, func)) && 0 < cnt == Holdings(pages[..i], func)
      {
        ghost var seen := pages[..i + 1];
        assert seen[..i] == pages[..i] && seen[i] == pages[i];
        if pages[i].Page? && pages[i].state.Given? {
          if !found {
            func, found := pages[i].functionId, true;
            assert FirstGiven(pages, i, func);
            NoHoldings(pages[..i], func);
          }
          if pages[i].functionId == func {
            cnt := cnt + 1;
          }
        }
        assert Holdings(seen, func) == Holdings(pages[..i], func) + One(GivenTo(pages[i], Some(func)));
      }
      assert pages[..MAX_PAGES] == pages;
      HoldingsWithin(pages, func);
      CountPositive(pages, Firmware);
    }

    /** Free: refused across an unestablished DMA boundary. */
    method Free() returns (freed: bool)
      requires Valid()
      modifies this
      ensures Steady()
      ensures freed <==> !old(quarantined) && old(ambiguousOwned) == 0 && old(firmwareOwned) == 0
      ensures !freed ==> unchanged(this)
      ensures freed ==> ledger.owner == map[]
    {
      var ambiguous := GetAmbiguousOwned();
      var owned := GetFirmwareOwned();
      if quarantined || ambiguous > 0 || owned > 0 {
        return false;
      }
      ghost var left := pages;
      var _ := ReleaseHostMappings();
      NothingIsHeld(left);
      NothingIsOwned(pages, regions, ledger);
      return true;
    }

    // -------------------------------------------------------------- every run

    /** One public entry point. */
    method Perform(op: Op)
      requires Valid()
      modifies this
      ensures Valid()
      ensures !op.Reset? ==> Steady()
    {
      match op {
        case Query =>
          var answer: Answer := *;
          var _ := Exec(true, answer);
        case Provide(numPages, ownership, functionId) =>
          var _ := ProvidePages(numPages, ownership, functionId, true);
        case ProvideContig(numPages, ownership, functionId, mapping, answers) =>
          var _ := ProvidePagesContig(numPages, ownership, functionId, mapping, answers, true);
        case PageRequest(functionId, numPages, mapping, answers) =>
          var _ := HandleRuntimePageRequest(functionId, numPages, mapping, answers, true);
        case Take(functionId, numPages, answers) =>
          ghost var answered, reply;
          var code, taken;
          code, taken, answered, reply := TakePages(functionId, numPages, answers, true);
        case Reclaim(drain, turns) =>
          var _, _, _, _ := ReclaimAll(drain, turns);
        case ReleaseHost =>
          var _ := ReleaseHostMappings();
        case Isolation =>
          EnterQuarantine();
        case Reset =>
          ReleaseQuarantineAfterReset();
        case Teardown =>
          var _ := Free();
      }
    }

    /** Any sequence of operations under any firmware keeps the invariant, so at its end the
        memory of every held page is live; and without a verified reset in it, no page left
        firmware's hands except by being named in an accepted TAKE reply. */
    method Run(ops: seq<Op>)
      requires Valid()
      modifies this
      ensures Valid()
      ensures forall i, b :: 0 <= i < MAX_PAGES && HeldPage(pages[i]) && BackedBy(pages, regions, i, b) ==>
                b in ledger.owner && b !in ledger.completed
      ensures (forall n :: 0 <= n < |ops| ==> !ops[n].Reset?) ==> Steady()
    {
      for n := 0 to |ops|
        invariant Valid()
        invariant (forall m :: 0 <= m < n ==> !ops[m].Reset?) ==> Steady()
      {
        ghost var before, early := pages, log;
        Perform(ops[n]);
        if forall m :: 0 <= m < n + 1 ==> !ops[m].Reset? {
          KeptTransitive(old(pages), before, pages, early, log);
        }
      }
      forall i | 0 <= i < MAX_PAGES && HeldPage(pages[i])
        ensures forall b :: BackedBy(pages, regions, i, b) ==> b in ledger.owner && b !in ledger.completed
      {
        HeldMemoryIsLive(pages, regions, ledger, i);
      }
    }
  }
}
