/** Two runs of MlxFwPages::ReclaimAll while page requests are still serviced, as they are when
    StableInitCycle calls it. Each turn makes the calls the driver makes, in its order: find an
    owner, let the TAKE command run the queued requests, then look at its reply. */
module FwPageRuns {
  import opened Words
  import opened PageLedger
  import opened FwPages
  import FwPageThreads
  import DmaLifetime

  const NO_MAPPING: Mapping := Mapping(false, false, false, 0, 0, 0)

  function Obeys(reply: seq<nat>): Answer { Answer(true, Success, true, reply, []) }

  function TwoPagesAt(address: nat): Mapping { Mapping(true, true, true, 1, address, 0x2_0000) }

  ghost predicate Quiet(m: Manager)
    reads m
  {
    m.Valid() && !m.quarantined && m.ambiguousOwned == 0 && !m.rtActive
  }

  // ---------------------------------------------------------------- one page left

  /** Firmware has the page at `x` and no other: slot `here`, extent `last`. What else is in
      use is slot `there`, which is not held, and extent `prev`, which lies below. */
  ghost predicate Lone(pages: seq<Page>, regions: seq<Region>, here: nat, there: nat, last: nat, prev: nat, x: nat)
  {
    && |pages| == MAX_PAGES && |regions| == REGIONS && here < MAX_PAGES && there < MAX_PAGES && here != there
    && x % 4096 == 0 && x > 0 && Matches(pages[here], 0, x) && !HeldPage(pages[there])
    && (forall i :: 0 <= i < MAX_PAGES && i != here && i != there ==> pages[i].Unused?)
    && (forall k :: FIRST_EXTENT <= k < REGIONS && regions[k].inUse ==>
          (k == last && regions[k].iova == x && regions[k].numPages == 2) ||
          (k == prev && regions[k].iova + regions[k].numPages * 4096 <= x))
  }

  lemma {:induction false} AllButTwo(pages: seq<Page>, a: nat, b: nat)
    requires forall i :: 0 <= i < |pages| && i != a && i != b ==> pages[i].Unused?
    ensures Frees(pages) + One(a < |pages|) + One(b < |pages|) >= |pages|
  {
    if pages != [] {
      AllButTwo(pages[..|pages| - 1], a, b);
    }
  }

  /** The next request can be met, and the loop finds the page. */
  lemma LoneIsReady(pages: seq<Page>, regions: seq<Region>, here: nat, there: nat, last: nat, prev: nat, x: nat)
    requires Lone(pages, regions, here, there, last, prev, x)
    ensures Grantable(pages, regions, TwoPagesAt(x + 8192), 2) && Scan(pages).firmware > 0
    ensures forall i, f {:trigger FirstGiven(pages, i, f)} :: FirstGiven(pages, i, f) ==> f == 0
  {
    AllButTwo(pages, here, there);
    CountPositive(pages, Firmware);
    assert ClassOf(pages[here]) == Some(Firmware);
    assert !regions[2].inUse || !regions[3].inUse || !regions[4].inUse;
    DivModShift(x, 2, 4096);
  }

  /** After the request for two pages, the second of them can be taken back. */
  lemma GrantedReply(was: seq<Page>, extents: seq<Region>, now: seq<Page>, regions: seq<Region>, b: nat, idx: seq<nat>, k: nat)
    requires GrantedIn(was, extents, now, regions, 0, 2, b, idx, k) && b % 4096 == 0 && b > 0
    ensures GoodReply(now, 0, [b + 4096]) && Scan(now).firmware > 0 && idx[0] != idx[1]
    ensures FilledAt(was, now, idx[0], Page(0, 3, Given, None, b)) && FilledAt(was, now, idx[1], Page(0, 3, Given, None, b + 4096))
  {
    assert FilledAt(was, now, idx[0], Page(0, 3, Given, None, b + 0 * 4096));
    assert FilledAt(was, now, idx[1], Page(0, 3, Given, None, b + 1 * 4096));
    DivModShift(b, 1, 4096);
    assert Matches(now[idx[1]], 0, b + 4096);
    CountPositive(now, Firmware);
    assert ClassOf(now[idx[1]]) == Some(Firmware);
  }

  /** Between the requests and the reply firmware has two pages: the old one and a new one. */
  ghost predicate Pair(pages: seq<Page>, regions: seq<Region>, here: nat, next: nat, last: nat, k: nat, x: nat, b: nat)
  {
    && |pages| == MAX_PAGES && |regions| == REGIONS && here < MAX_PAGES && next < MAX_PAGES && here != next
    && Matches(pages[here], 0, x) && Matches(pages[next], 0, b)
    && (forall i :: 0 <= i < MAX_PAGES && i != here && i != next ==> pages[i].Unused?)
    && (forall n :: FIRST_EXTENT <= n < REGIONS && regions[n].inUse ==>
          (n == k && regions[n].iova == b && regions[n].numPages == 2) ||
          (n == last && regions[n].iova + regions[n].numPages * 4096 <= b))
  }

  lemma LoneToPair(p0: seq<Page>, r0: seq<Region>, p1: seq<Page>, r1: seq<Region>, p2: seq<Page>, r2: seq<Region>,
                   here: nat, there: nat, last: nat, prev: nat, x: nat, b: nat, idx: seq<nat>, k: nat)
    requires Lone(p0, r0, here, there, last, prev, x) && b == x + 8192
    requires GrantedIn(p0, r0, p1, r1, 0, 2, b, idx, k)
    requires Withdrawn(p1, r1, p2, r2, 0, [b + 4096])
    requires |p2| == MAX_PAGES && |r2| == REGIONS
    ensures Pair(p2, r2, here, idx[0], last, k, x, b)
  {
    assert b % 4096 == 0 by {
      DivModShift(x, 2, 4096);
    }
    GrantedReply(p0, r0, p1, r1, b, idx, k);
    assert idx == [idx[0], idx[1]];
    assert Vanished(p1, p2, 0, [b + 4096][0]);
    var gone :| 0 <= gone < |p1| && Matches(p1[gone], 0, b + 4096) && p2[gone].Unused?;
    assert gone == idx[1];
    assert p2[here] == p1[here] == p0[here] && p2[idx[0]] == p1[idx[0]];
    BelowIsFree(p2, r1, here, idx[0], x, b);
    forall n | FIRST_EXTENT <= n < REGIONS && r2[n].inUse
      ensures (n == k && r2[n].iova == b && r2[n].numPages == 2) || (n == last && r2[n].iova + r2[n].numPages * 4096 <= b)
    {
      assert n != k ==> SameExtent(r0[n], r1[n]);
      assert ExtentAfter(r1, r2, n, p2);
    }
  }

  /** No page left needs an extent that lies below both. */
  lemma BelowIsFree(pages: seq<Page>, regions: seq<Region>, here: nat, next: nat, x: nat, b: nat)
    requires here < |pages| && next < |pages| && x <= b && Matches(pages[here], 0, x) && Matches(pages[next], 0, b)
    requires forall i :: 0 <= i < |pages| && i != here && i != next ==> pages[i].Unused?
    ensures forall n, i {:trigger Needs(regions, n, pages[i])} ::
              FIRST_EXTENT <= n < |regions| && 0 <= i < |pages| && regions[n].iova + regions[n].numPages * 4096 <= x ==> !Needs(regions, n, pages[i])
  {
  }

  /** The reply takes the old page, and one page is left again. */
  lemma PairToLone(p2: seq<Page>, r2: seq<Region>, p3: seq<Page>, r3: seq<Region>, here: nat, next: nat, last: nat, k: nat, x: nat, b: nat)
    requires Pair(p2, r2, here, next, last, k, x, b) && x < b && b % 4096 == 0
    requires TookBack(p2, r2, p3, r3, 0, [x])
    ensures Lone(p3, r3, next, here, k, last, b)
  {
    assert WentBack(p2, p3, 0, [x][0]);
    var i :| 0 <= i < |p2| && Matches(p2[i], 0, x) && p3[i] == p2[i].(state := Returned);
    assert i == here;
    forall n | FIRST_EXTENT <= n < REGIONS ensures SameExtent(r2[n], r3[n]) {}
  }

  lemma PairReply(pages: seq<Page>, regions: seq<Region>, here: nat, next: nat, last: nat, k: nat, x: nat, b: nat)
    requires Pair(pages, regions, here, next, last, k, x, b) && x % 4096 == 0 && x > 0
    ensures GoodReply(pages, 0, [x])
  {
    assert Matches(pages[here], 0, x);
  }

  // ---------------------------------------------------------------- a loop without end

  /** One turn of the loop: the TAKE names the page firmware has, but before it returns
      firmware has asked for two more and given one of them back. */
  method Turn(m: Manager, x: nat, ghost here: nat, ghost there: nat, ghost last: nat, ghost prev: nat)
    returns (code: Code, taken: nat, ghost next: nat, ghost extent: nat)
    requires Quiet(m) && Lone(m.pages, m.regions, here, there, last, prev, x)
    modifies m
    ensures Quiet(m) && Lone(m.pages, m.regions, next, here, extent, last, x + 8192)
    ensures code.Success? && taken == 1
  {
    LoneIsReady(m.pages, m.regions, here, there, last, prev, x);
    var found, func, cnt := m.FirstOwner();
    next, extent := TwoForOne(m, x, here, there, last, prev);
    PairReply(m.pages, m.regions, here, next, last, extent, x, x + 8192);
    ghost var p2, r2, reply := m.pages, m.regions, None;
    code, taken, reply := m.FinishTake(func, cnt, Obeys([x]));
    PairToLone(p2, r2, m.pages, m.regions, here, next, last, extent, x, x + 8192);
  }

  /** The requests serviced inside the command. */
  method TwoForOne(m: Manager, x: nat, ghost here: nat, ghost there: nat, ghost last: nat, ghost prev: nat)
    returns (ghost next: nat, ghost extent: nat)
    requires Quiet(m) && Lone(m.pages, m.regions, here, there, last, prev, x)
    modifies m
    ensures Quiet(m) && Pair(m.pages, m.regions, here, next, last, extent, x, x + 8192) && (x + 8192) % 4096 == 0
  {
    LoneIsReady(m.pages, m.regions, here, there, last, prev, x);
    ghost var p0, r0 := m.pages, m.regions;
    var b := x + 8192;
    var _ := m.HandleRuntimePageRequest(0, 2, TwoPagesAt(b), [Obeys([])], false);
    ghost var idx, k :| GrantedIn(p0, r0, m.pages, m.regions, 0, 2, b, idx, k);
    assert b % 4096 == 0 by {
      DivModShift(x, 2, 4096);
    }
    ghost var p1, r1 := m.pages, m.regions;
    GrantedReply(p0, r0, p1, r1, b, idx, k);
    var _ := m.HandleRuntimePageRequest(0, -1, NO_MAPPING, [Obeys([b + 4096])], false);
    LoneToPair(p0, r0, p1, r1, m.pages, m.regions, here, there, last, prev, x, b, idx, k);
    next, extent := idx[0], k;
  }

  /** So ReclaimAll need not end: for every number of turns there is firmware that keeps it
      going, with a page given out, progress in every turn, and more pages returned than were
      ever requested. */
  method ReclaimGoesOn(turns: nat) returns (m: Manager, found: bool, requested: nat, returned: nat, noProgressMs: nat)
    ensures fresh(m) && Quiet(m)
    ensures found && requested == 1 && returned == turns && noProgressMs == 0
  {
    ghost var here, there, last, prev;
    var x;
    m, x, here, there, last := OnePageOut();
    prev := last;
    requested := m.GetFirmwareOwned();
    returned, noProgressMs := 0, 0;
    for n := 0 to turns
      invariant fresh(m) && Quiet(m) && Lone(m.pages, m.regions, here, there, last, prev, x)
      invariant returned == n && noProgressMs == 0
    {
      var code, taken;
      ghost var next, extent;
      code, taken, next, extent := Turn(m, x, here, there, last, prev);
      returned := returned + taken;
      noProgressMs := Pause(noProgressMs, taken);
      here, there, last, prev, x := next, here, extent, last, x + 8192;
    }
    LoneIsReady(m.pages, m.regions, here, there, last, prev, x);
    var func, cnt;
    found, func, cnt := m.FirstOwner();
  }

  // ---------------------------------------------------------------- a count that comes up short

  /** Firmware has two pages; the TAKE names one, and while it runs a request takes the other.
      Nothing is left and ReclaimAll succeeds, but it has seen one page return of the two it
      set out to reclaim, which its caller treats as a failure. */
  method ReclaimComesUpShort() returns (m: Manager, code: Code, requested: nat, returned: nat, found: bool)
    ensures fresh(m) && m.Valid() && code.Success? && !found && Emptied(m.pages, m.regions, m.ledger)
    ensures requested == 2 && returned == 1
  {
    ghost var a, z, k;
    m, a, z, k := TwoPagesOut();
    requested := m.GetFirmwareOwned();
    OwnerIsZero(m.pages, a, z);
    var func, cnt;
    found, func, cnt := m.FirstOwner();
    returned := OneEach(m, func, cnt, a, z);
    found, func, cnt := m.FirstOwner();
    code := m.ReleaseAll();
  }

  /** The TAKE and the request inside it take one page each. */
  method OneEach(m: Manager, func: u16, cnt: nat, ghost a: nat, ghost z: nat) returns (taken: nat)
    requires Quiet(m) && func == 0 && cnt > 0 && a < MAX_PAGES && z < MAX_PAGES && Scan(m.pages).firmware == 2
    requires Matches(m.pages[a], 0, FIRST_PAGE) && Matches(m.pages[z], 0, FIRST_PAGE + 4096)
    modifies m
    ensures m.Valid() && !m.quarantined && m.ambiguousOwned == 0 && Scan(m.pages).firmware == 0 && taken == 1
  {
    SecondReply(m.pages, a, z);
    var _ := m.HandleRuntimePageRequest(0, -1, NO_MAPPING, [Obeys([FIRST_PAGE + 4096])], false);
    FirstReply(m.pages, a);
    var code;
    ghost var reply;
    code, taken, reply := m.FinishTake(func, cnt, Obeys([FIRST_PAGE]));
  }

  // ---------------------------------------------------------------- a GIVE that fails

  /** GIVE of a page with a buffer of its own, and its release afterwards. The buffer is
      completed exactly when the command is reported as failed without a timeout. */
  method GiveThenRelease(m: Manager, i: nat, b: nat, functionId: u16, answer: Answer) returns (code: Code)
    requires Quiet(m) && IsAllocated(m.pages, i) && m.pages[i].own == Some(b)
    modifies m
    ensures m.Valid() && code == answer.code && m.quarantined == code.Timeout?
    ensures b in m.ledger.completed <==> !answer.code.Success? && !answer.code.Timeout?
  {
    assert IsAllocated(m.pages, [i][0]);
    assert PageBacked(m.pages[i], i, m.regions, m.ledger);
    code := m.Give([i], functionId, answer, false);
    assert i in [i] && PageBacked(m.pages[i], i, m.regions, m.ledger);
    m.ReleasePage(i);
  }

  /** What the command layer reports, as far as MlxFwPages tells results apart. */
  function Reported(code: DmaLifetime.Code): Code
  {
    if code.Success? then Success else if code.Timeout? then Timeout else IOError
  }

  /** The same with the command layer below it: `page` is the mapping of the page's buffer, as
      the device sees it. The command layer reports a delivery that failed after the doorbell
      like an outbox that says no, so in that case, and in no other, the buffer is completed
      although the device may have the page. */
  method GiveOnTheDevice(m: Manager, d: DmaLifetime.Driver, i: nat, b: nat, page: DmaLifetime.MapId, functionId: u16,
                         reaction: DmaLifetime.Reaction)
    returns (code: Code)
    requires Quiet(m) && IsAllocated(m.pages, i) && m.pages[i].own == Some(b)
    requires d.Valid() && d.Mine(page) && page !in d.reach
    modifies m, d
    ensures m.Valid() && d.Valid() && (code.Success? <==> reaction == DmaLifetime.Answered(0))
    ensures b in m.ledger.completed && page in d.reach <==> reaction.Undelivered?
    ensures reaction.Undelivered? ==> !m.quarantined && d.quarantined
  {
    var reported := d.AfterDoorbell({page}, {}, reaction);
    code := GiveThenRelease(m, i, b, functionId, Answer(true, Reported(reported), true, [], []));
  }

  /** ManagePages tests the pages of a GIVE without its lock and marks them under it. If
      another thread releases what is allocated in between, the marking skips the pages, but
      the command already names them: the buffer of each has been completed. */
  method GiveRacesRelease(m: Manager, idx: seq<nat>, i: nat, b: nat)
    requires Quiet(m) && GiveAccepted(m.pages, idx) && i in idx && IsAllocated(m.pages, i) && m.pages[i].own == Some(b)
    modifies m
    ensures m.Valid() && m.pages[i].Unused? && b in m.ledger.completed
  {
    assert forall n :: 0 <= n < |idx| ==> IsAllocated(m.pages, idx[n]);
    assert PageBacked(m.pages[i], i, m.regions, m.ledger);
    ghost var p0, r0, l0 := m.pages, m.regions, m.ledger;
    var _ := m.ReleaseHostMappings();
    OrphanIsCompleted(p0, r0, l0, m.pages, m.regions, m.ledger, i, b);
    m.MarkPending(idx);
  }

  lemma OrphanIsCompleted(p0: seq<Page>, r0: seq<Region>, l0: Ledger, p1: seq<Page>, r1: seq<Region>, l1: Ledger, i: nat, b: nat)
    requires Backed(p0, r0, l0) && Backed(p1, r1, l1) && l0.next <= l1.next && i < MAX_PAGES
    requires p0[i].Page? && p0[i].own == Some(b) && p1[i].Unused?
    requires forall j :: 0 <= j < MAX_PAGES ==> p1[j] == p0[j] || p1[j].Unused?
    requires forall k :: 0 <= k < REGIONS ==> r1[k] == r0[k] || r1[k] == NO_REGION
    ensures b in l1.completed
  {
    assert PageBacked(p0[i], i, r0, l0);
    forall j | 0 <= j < MAX_PAGES && p0[j].Page? && p0[j].own == Some(b) ensures j == i {
      assert PageBacked(p0[j], j, r0, l0);
    }
    forall k | 0 <= k < REGIONS ensures r0[k].buf != Some(b) {
      assert RegionBacked(r0[k], k, l0);
    }
    assert b in l1.owner ==> Points(p1, r1, l1.owner[b], b);
  }

  /** While ReleaseHostMappings is between its stages another thread fills an extent for a
      runtime request. Stage 2 finds no held page in it and completes its buffer; the GIVE of
      that thread then passes its test, and once firmware accepts it firmware has a page without
      memory behind it. */
  method DroppedUnderAGive() returns (m: Manager, slot: nat, accepted: bool, ghost b: nat)
    ensures fresh(m) && !m.Valid() && |m.pages| == MAX_PAGES && slot < MAX_PAGES
    ensures accepted && GiveAccepted(m.pages, [slot]) && b in m.ledger.completed
    ensures var given := AfterGive(m.pages[slot], true, Success, 0);
            HeldPage(given) && given.own.None? && !HasBacking(m.regions, given)
  {
    m := new Manager();
    m.ReleasePages();
    AllButTwo(m.pages, MAX_PAGES, MAX_PAGES);
    var resv := FwPageThreads.DoReserve(m, 1, 2, 0, map[]);
    assert FwPageThreads.Bare(m.regions, resv[1]);
    ghost var was := m.pages;
    var ok, idx := FwPageThreads.InstallInto(m, 2, 1, 0, TwoPagesAt(FIRST_PAGE));
    slot, b := idx[0], m.regions[2].buf.value;
    OnlyOneIsFilled(was, m.pages, idx);
    LoneRelies(m.pages, m.regions, slot);
    var sound := FwPageThreads.DoDrop(m, 2, map[]);
    assert IsAllocated(m.pages, [slot][0]);
    accepted := m.TestBatch([slot]);
  }

  /** One allocated page in the one extent in use: nobody holds it, so the extent is dropped,
      and the page relies on it. */
  lemma LoneRelies(pages: seq<Page>, regions: seq<Region>, slot: nat)
    requires |pages| == MAX_PAGES && |regions| == REGIONS && slot < MAX_PAGES && pages[slot] == Page(0, 3, Allocated, None, FIRST_PAGE)
    requires forall i :: 0 <= i < MAX_PAGES && i != slot ==> pages[i].Unused?
    requires forall k :: 0 <= k < REGIONS && k != 2 ==> !regions[k].inUse
    requires regions[2].inUse
    ensures Dropped(regions, 2, pages) && !FwPageThreads.Safe(pages, regions, map[], FwPageThreads.Drop(2))
    ensures var given := AfterGive(pages[slot], true, Success, 0);
            HeldPage(given) && given.own.None? && !HasBacking(regions[2 := NO_REGION], given)
  {
    assert Relies(regions, 2, pages[slot]);
  }

  lemma OnlyOneIsFilled(was: seq<Page>, now: seq<Page>, idx: seq<nat>)
    requires FilledWith(was, now, idx, 0, 3, FIRST_PAGE) && |idx| == 1 && forall i :: 0 <= i < |was| ==> was[i].Unused?
    ensures idx[0] < |now| && now[idx[0]] == Page(0, 3, Allocated, None, FIRST_PAGE)
    ensures forall i :: 0 <= i < |now| && i != idx[0] ==> now[i].Unused?
  {
    assert FilledNth(was, now, idx, 0, 0, 3, FIRST_PAGE);
    forall i | 0 <= i < |now| && i != idx[0] ensures now[i].Unused? {
      assert LeftAlone(was, now, idx, i);
    }
  }

  // ---------------------------------------------------------------- how they begin

  const FIRST_PAGE: nat := 0x10_0000

  /** Slots `a` and `z` hold the two pages of the one extent in use. */
  ghost predicate Two(pages: seq<Page>, regions: seq<Region>, a: nat, z: nat, k: nat)
  {
    && |pages| == MAX_PAGES && |regions| == REGIONS && a < MAX_PAGES && z < MAX_PAGES && a != z
    && Matches(pages[a], 0, FIRST_PAGE) && Matches(pages[z], 0, FIRST_PAGE + 4096)
    && (forall i :: 0 <= i < MAX_PAGES && i != a && i != z ==> pages[i].Unused?)
    && (forall n :: FIRST_EXTENT <= n < REGIONS && regions[n].inUse ==> n == k && regions[n].iova == FIRST_PAGE && regions[n].numPages == 2)
  }

  method TwoPagesOut() returns (m: Manager, ghost a: nat, ghost z: nat, ghost k: nat)
    ensures fresh(m) && Quiet(m) && Two(m.pages, m.regions, a, z, k) && Scan(m.pages).firmware == 2
  {
    m := new Manager();
    AllButTwo(m.pages, MAX_PAGES, MAX_PAGES);
    CountPositive(m.pages, Firmware);
    assert !m.regions[2].inUse;
    ghost var p0, r0 := m.pages, m.regions;
    var _ := m.HandleRuntimePageRequest(0, 2, TwoPagesAt(FIRST_PAGE), [Obeys([])], false);
    ghost var idx, n :| GrantedIn(p0, r0, m.pages, m.regions, 0, 2, FIRST_PAGE, idx, n);
    GrantedReply(p0, r0, m.pages, m.regions, FIRST_PAGE, idx, n);
    assert idx == [idx[0], idx[1]];
    forall j | FIRST_EXTENT <= j < REGIONS && j != n ensures !m.regions[j].inUse {
      assert SameExtent(r0[j], m.regions[j]);
    }
    a, z, k := idx[0], idx[1], n;
  }

  /** One of the two has come back. */
  method OnePageOut() returns (m: Manager, x: nat, ghost here: nat, ghost there: nat, ghost last: nat)
    ensures fresh(m) && Quiet(m) && Lone(m.pages, m.regions, here, there, last, last, x) && Scan(m.pages).firmware == 1
  {
    m, here, there, last := TwoPagesOut();
    x := FIRST_PAGE;
    ghost var p0, r0 := m.pages, m.regions;
    SecondReply(m.pages, here, there);
    ghost var reply;
    var code, taken;
    code, taken, reply := m.FinishTake(0, 1, Obeys([FIRST_PAGE + 4096]));
    assert WentBack(p0, m.pages, 0, [FIRST_PAGE + 4096][0]);
    forall n | FIRST_EXTENT <= n < REGIONS ensures SameExtent(r0[n], m.regions[n]) {}
  }

  lemma SecondReply(pages: seq<Page>, a: nat, z: nat)
    requires |pages| == MAX_PAGES && a < MAX_PAGES && z < MAX_PAGES && Matches(pages[a], 0, FIRST_PAGE) && Matches(pages[z], 0, FIRST_PAGE + 4096)
    ensures GoodReply(pages, 0, [FIRST_PAGE + 4096])
  {
    assert Matches(pages[z], 0, [FIRST_PAGE + 4096][0]);
  }

  lemma FirstReply(pages: seq<Page>, a: nat)
    requires |pages| == MAX_PAGES && a < MAX_PAGES && Matches(pages[a], 0, FIRST_PAGE)
    ensures GoodReply(pages, 0, [FIRST_PAGE])
  {
    assert Matches(pages[a], 0, [FIRST_PAGE][0]);
  }

  lemma OwnerIsZero(pages: seq<Page>, a: nat, z: nat)
    requires forall i :: 0 <= i < |pages| && i != a && i != z ==> pages[i].Unused?
    requires a < |pages| && z < |pages| && Matches(pages[a], 0, FIRST_PAGE) && Matches(pages[z], 0, FIRST_PAGE + 4096)
    ensures forall i, f {:trigger FirstGiven(pages, i, f)} :: FirstGiven(pages, i, f) ==> f == 0
  {
  }
}
