/** MlxMR.cpp: the table of memory regions and windows, its two key indexes and the reference
    counts between its entries. Each method is one call; what firmware answers is a parameter,
    and an answer with the index of a key that is still in the table counts as a rejection. */
module MrRegistry {
  import opened Words
  import KeyIndex

  /** IBV access bits; `unknown` stands for anything outside MLX_MR_ACCESS_SUPPORTED. */
  datatype Access = Access(localWrite: bool, remoteWrite: bool, remoteRead: bool, atomic: bool, mwBind: bool, unknown: bool)

  datatype Entry =
    | Unused
    | Entry(handle: nat, pd: nat, lkey: u32, rkey: u32, start: u64, length: u64, access: Access,
            children: seq<nat>, dependents: nat, invalidated: bool, isWindow: bool, boundMr: nat, boundQpn: nat)

  datatype Code = Success | BadArgument | NotFound | NotPermitted | Busy | NoMemory | Failed

  const INDEX_LIMIT: nat := 0x100_0000

  /** mlxComposeMkey. */
  function Compose(index: nat, variant: nat): (key: u32)
    requires index < INDEX_LIMIT && variant < 256
    ensures KeyOwner(key) == index && key % 256 == variant
  {
    index * 256 + variant
  }

  /** mlxMkeyIndex. */
  function KeyOwner(key: u32): nat { key / 256 }

  // ---------------------------------------------------------------- references

  predicate IsMr(table: seq<Entry>, i: int, handle: int)
  {
    0 <= i < |table| && table[i].Entry? && !table[i].isWindow && table[i].handle == handle
  }

  ghost predicate LiveMr(table: seq<Entry>, handle: nat)
  {
    exists i :: IsMr(table, i, handle)
  }

  predicate AllRegions(table: seq<Entry>, handles: seq<nat>)
  {
    forall h :: h in handles ==> exists i :: 0 <= i < |table| && IsMr(table, i, h)
  }

  function CountIn(s: seq<nat>, h: nat): nat
  {
    if s == [] then 0 else CountIn(s[..|s| - 1], h) + if s[|s| - 1] == h then 1 else 0
  }

  /** References one entry holds to the region `h`: as an indirect parent, with multiplicity,
      or as a window bound to it. */
  function RefsOf(e: Entry, h: nat): nat
  {
    match e
    case Unused => 0
    case Entry(_, _, _, _, _, _, _, children, _, _, isWindow, boundMr, _) =>
      CountIn(children, h) + if isWindow && boundMr != 0 && boundMr == h then 1 else 0
  }

  function Refs(table: seq<Entry>, h: nat): nat
  {
    if table == [] then 0 else Refs(table[..|table| - 1], h) + RefsOf(table[|table| - 1], h)
  }

  lemma {:induction false} RefsUpdate(table: seq<Entry>, i: nat, e: Entry, h: nat)
    requires i < |table|
    ensures Refs(table[i := e], h) + RefsOf(table[i], h) == Refs(table, h) + RefsOf(e, h)
  {
    var n := |table| - 1;
    if i == n {
      assert table[i := e][..n] == table[..n];
    } else {
      assert table[i := e][..n] == table[..n][i := e];
      RefsUpdate(table[..n], i, e, h);
    }
  }

  lemma {:induction false} RefsAtLeast(table: seq<Entry>, i: nat, h: nat)
    requires i < |table|
    ensures Refs(table, h) >= RefsOf(table[i], h)
  {
    var n := |table| - 1;
    if i < n {
      RefsAtLeast(table[..n], i, h);
    }
  }

  lemma {:induction false} NoRefs(table: seq<Entry>, h: nat)
    requires forall i :: 0 <= i < |table| ==> RefsOf(table[i], h) == 0
    ensures Refs(table, h) == 0
  {
    if table != [] {
      NoRefs(table[..|table| - 1], h);
    }
  }

  lemma {:induction false} CountInZero(s: seq<nat>, h: nat)
    ensures CountIn(s, h) == 0 <==> h !in s
  {
    if s != [] {
      CountInZero(s[..|s| - 1], h);
    }
  }

  // ---------------------------------------------------------------- the invariant

  ghost predicate KeysMatch(e: Entry)
    requires e.Entry?
  {
    && e.handle < INDEX_LIMIT
    && KeyOwner(e.rkey) == e.handle && e.rkey % 256 != 0
    && e.lkey == (if e.isWindow then 0 else e.rkey)
    && e.start + e.length < U64
    && (e.isWindow ==> e.children == [] && e.dependents == 0)
  }

  /** A bound window lies inside a live region of its own protection domain. */
  ghost predicate BoundWithin(table: seq<Entry>, w: Entry)
    requires w.Entry?
  {
    w.isWindow && w.boundMr != 0 ==>
      exists j :: Anchors(table, j, w)
  }

  predicate Anchors(table: seq<Entry>, j: int, w: Entry)
    requires w.Entry?
  {
    IsMr(table, j, w.boundMr) && table[j].pd == w.pd && table[j].start <= w.start &&
    w.start + w.length <= table[j].start + table[j].length
  }

  ghost predicate Consistent(table: seq<Entry>)
  {
    && (forall i {:trigger KeysMatch(table[i])} :: 0 <= i < |table| && table[i].Entry? ==> KeysMatch(table[i]))
    && (forall i, j {:trigger Distinct(table, i, j)} :: Distinct(table, i, j))
    && (forall i {:trigger BoundWithin(table, table[i])} :: 0 <= i < |table| && table[i].Entry? ==> BoundWithin(table, table[i]))
    && (forall i {:trigger ChildrenLive(table, table[i])} :: 0 <= i < |table| && table[i].Entry? ==> ChildrenLive(table, table[i]))
  }

  /** A handle names one slot. */
  predicate Distinct(table: seq<Entry>, i: int, j: int)
  {
    0 <= i < |table| && 0 <= j < |table| && table[i].Entry? && table[j].Entry? && table[i].handle == table[j].handle ==> i == j
  }

  ghost predicate ChildrenLive(table: seq<Entry>, e: Entry)
    requires e.Entry?
  {
    forall c :: c in e.children ==> LiveMr(table, c) && c != e.handle
  }

  /** An index holds exactly the keys of the used entries it covers, each with its slot. */
  ghost predicate Indexes(table: seq<Entry>, idx: map<u32, nat>, windows: bool)
  {
    && (forall i {:trigger Leads(table, i, idx, windows)} :: Leads(table, i, idx, windows))
    && (forall k {:trigger LedTo(table, k, idx, windows)} :: LedTo(table, k, idx, windows))
  }

  predicate Leads(table: seq<Entry>, i: int, idx: map<u32, nat>, windows: bool)
  {
    0 <= i < |table| && table[i].Entry? && (windows || !table[i].isWindow) ==> table[i].rkey in idx && idx[table[i].rkey] == i
  }

  predicate LedTo(table: seq<Entry>, k: u32, idx: map<u32, nat>, windows: bool)
  {
    k in idx ==> idx[k] < |table| && table[idx[k]].Entry? && (windows || !table[idx[k]].isWindow) && table[idx[k]].rkey == k
  }

  /** An index never holds more keys than the table has slots, so the twofold sizing leaves
      Insert a bucket that is not live. */
  lemma {:induction false} IndexFits(idx: map<u32, nat>, n: nat)
    requires forall k :: k in idx ==> idx[k] < n
    requires forall j, k :: j in idx && k in idx && idx[j] == idx[k] ==> j == k
    ensures |idx| <= n
  {
    if n == 0 {
      assert idx == map[];
    } else if k :| k in idx && idx[k] == n - 1 {
      var rest := idx - {k};
      IndexFits(rest, n - 1);
      assert idx.Keys == rest.Keys + {k};
    } else {
      IndexFits(idx, n - 1);
    }
  }

  /** One entry changes without touching keys, kind or children: what was consistent stays so
      if the new entry still satisfies its own part. */
  lemma ConsistentUpdate(table: seq<Entry>, i: nat, e: Entry)
    requires Consistent(table) && i < |table| && table[i].Entry? && e.Entry? && KeysMatch(e)
    requires e.handle == table[i].handle && e.isWindow == table[i].isWindow && e.children == table[i].children
    requires !e.isWindow ==> e.pd == table[i].pd && e.start == table[i].start && e.length == table[i].length
    requires BoundWithin(table, e)
    ensures Consistent(table[i := e])
  {
    var t := table[i := e];
    forall j, h | IsMr(table, j, h) ensures IsMr(t, j, h) {}
    forall j | 0 <= j < |t| && t[j].Entry? ensures BoundWithin(t, t[j]) && ChildrenLive(t, t[j]) {
      BoundCarries(table, t, t[j]);
      assert ChildrenLive(table, table[j]) && BoundWithin(table, table[j]);
    }
    KeysCarry(table, t);
  }

  lemma KeysCarry(table: seq<Entry>, t: seq<Entry>)
    requires Consistent(table) && |t| == |table|
    requires forall j :: 0 <= j < |t| && t[j].Entry? ==> table[j].Entry? && t[j].handle == table[j].handle && (t[j] == table[j] || KeysMatch(t[j]))
    ensures forall j :: 0 <= j < |t| && t[j].Entry? ==> KeysMatch(t[j])
    ensures forall j, k {:trigger Distinct(t, j, k)} :: Distinct(t, j, k)
  {
    forall j | 0 <= j < |t| && t[j].Entry? ensures KeysMatch(t[j]) {
      assert KeysMatch(table[j]);
    }
    forall j, k ensures Distinct(t, j, k) {
      assert Distinct(table, j, k);
    }
  }

  /** Windows and children stay anchored when every live region keeps its identity. */
  lemma BoundCarries(table: seq<Entry>, t: seq<Entry>, w: Entry)
    requires w.Entry?
    requires forall j, h :: IsMr(table, j, h) ==>
               IsMr(t, j, h) && t[j].pd == table[j].pd && t[j].start == table[j].start && t[j].length == table[j].length
    ensures BoundWithin(table, w) ==> BoundWithin(t, w)
    ensures ChildrenLive(table, w) ==> ChildrenLive(t, w)
  {
    if BoundWithin(table, w) && w.isWindow && w.boundMr != 0 {
      var j :| Anchors(table, j, w);
      assert Anchors(t, j, w);
    }
    if ChildrenLive(table, w) {
      forall c | c in w.children ensures LiveMr(t, c) {
        var j :| IsMr(table, j, c);
        assert IsMr(t, j, c);
      }
    }
  }

  /** A fresh entry in an unused slot. */
  lemma ConsistentAdd(table: seq<Entry>, i: nat, e: Entry)
    requires Consistent(table) && i < |table| && table[i].Unused? && e.Entry? && KeysMatch(e)
    requires forall j :: 0 <= j < |table| && table[j].Entry? ==> table[j].handle != e.handle
    requires e.boundMr == 0 && ChildrenLive(table, e)
    ensures Consistent(table[i := e])
  {
    var t := table[i := e];
    forall j | 0 <= j < |t| && t[j].Entry? ensures BoundWithin(t, t[j]) && ChildrenLive(t, t[j]) {
      BoundCarries(table, t, t[j]);
      if j != i {
        assert BoundWithin(table, table[j]) && ChildrenLive(table, table[j]);
      }
    }
    forall j | 0 <= j < |t| && t[j].Entry? ensures KeysMatch(t[j]) {
      assert j != i ==> KeysMatch(table[j]);
    }
    forall j, k ensures Distinct(t, j, k) {
      assert Distinct(table, j, k);
    }
  }

  /** Removing an entry nobody refers to. */
  lemma ConsistentRemove(table: seq<Entry>, i: nat)
    requires Consistent(table) && i < |table| && table[i].Entry?
    requires !table[i].isWindow ==> Refs(table, table[i].handle) == 0
    ensures Consistent(table[i := Unused])
  {
    var t := table[i := Unused];
    forall j | 0 <= j < |t| && t[j].Entry? ensures BoundWithin(t, t[j]) && ChildrenLive(t, t[j]) {
      var w := t[j];
      RefsAtLeast(table, j, table[i].handle);
      CountInZero(w.children, table[i].handle);
      assert BoundWithin(table, w) && ChildrenLive(table, w);
      if w.isWindow && w.boundMr != 0 {
        var k :| Anchors(table, k, w);
        assert Anchors(t, k, w);
      }
      forall c | c in w.children ensures LiveMr(t, c) {
        var k :| IsMr(table, k, c);
        assert IsMr(t, k, c);
      }
    }
    KeysCarry(table, t);
  }

  // ---------------------------------------------------------------- books in the middle of a call

  /** Counts against references while `plus` increments are ahead of their references and
      `minus` decrements ahead of theirs. */
  ghost predicate Balanced(table: seq<Entry>, plus: seq<nat>, minus: seq<nat>, exact: bool)
  {
    forall i {:trigger BalancedAt(table, i, plus, minus, exact)} ::
      0 <= i < |table| && table[i].Entry? && !table[i].isWindow ==> BalancedAt(table, i, plus, minus, exact)
  }

  ghost predicate BalancedAt(table: seq<Entry>, i: nat, plus: seq<nat>, minus: seq<nat>, exact: bool)
    requires i < |table| && table[i].Entry?
  {
    var have := table[i].dependents + CountIn(minus, table[i].handle);
    var need := Refs(table, table[i].handle) + CountIn(plus, table[i].handle);
    if exact then have == need else have >= need
  }

  lemma CountInSnoc(s: seq<nat>, x: nat, h: nat)
    ensures CountIn(s + [x], h) == CountIn(s, h) + if x == h then 1 else 0
  {
    assert (s + [x])[..|s|] == s;
  }

  /** What holds of the table and its indexes at every step of a call. */
  ghost predicate Books(table: seq<Entry>, lidx: map<u32, nat>, ridx: map<u32, nat>, plus: seq<nat>, minus: seq<nat>, exact: bool)
  {
    Leaves(table, lidx, ridx) && Balanced(table, plus, minus, exact)
  }

  /** The part that says nothing of counts. */
  ghost predicate Leaves(table: seq<Entry>, lidx: map<u32, nat>, ridx: map<u32, nat>)
  {
    Consistent(table) && Indexes(table, lidx, false) && Indexes(table, ridx, true)
  }

  /** Only the count of slot `i` changes. */
  lemma {:induction false} RefsIgnoreCounts(table: seq<Entry>, i: nat, n: nat, h: nat)
    requires i < |table| && table[i].Entry?
    ensures Refs(table[i := table[i].(dependents := n)], h) == Refs(table, h)
  {
    RefsUpdate(table, i, table[i].(dependents := n), h);
  }

  lemma Increment(table: seq<Entry>, i: nat, plus: seq<nat>, minus: seq<nat>, exact: bool)
    requires Consistent(table) && Balanced(table, plus, minus, exact) && i < |table| && table[i].Entry? && !table[i].isWindow
    ensures Consistent(table[i := table[i].(dependents := table[i].dependents + 1)])
    ensures Balanced(table[i := table[i].(dependents := table[i].dependents + 1)], plus + [table[i].handle], minus, exact)
  {
    var n := table[i].dependents + 1;
    assert KeysMatch(table[i]);
    ConsistentUpdate(table, i, table[i].(dependents := n));
    var t := table[i := table[i].(dependents := n)];
    forall j | 0 <= j < |t| && t[j].Entry? && !t[j].isWindow
      ensures BalancedAt(t, j, plus + [table[i].handle], minus, exact)
    {
      assert BalancedAt(table, j, plus, minus, exact) && Distinct(table, i, j);
      RefsIgnoreCounts(table, i, n, t[j].handle);
      CountInSnoc(plus, table[i].handle, t[j].handle);
    }
  }

  lemma Decrement(table: seq<Entry>, i: nat, plus: seq<nat>, minus: seq<nat>, exact: bool)
    requires Consistent(table) && Balanced(table, plus, minus, exact) && i < |table| && table[i].Entry? && !table[i].isWindow
    requires table[i].dependents > 0
    ensures Consistent(table[i := table[i].(dependents := table[i].dependents - 1)])
    ensures Balanced(table[i := table[i].(dependents := table[i].dependents - 1)], plus, minus + [table[i].handle], exact)
  {
    var n := table[i].dependents - 1;
    assert KeysMatch(table[i]);
    ConsistentUpdate(table, i, table[i].(dependents := n));
    var t := table[i := table[i].(dependents := n)];
    forall j | 0 <= j < |t| && t[j].Entry? && !t[j].isWindow
      ensures BalancedAt(t, j, plus, minus + [table[i].handle], exact)
    {
      assert BalancedAt(table, j, plus, minus, exact) && Distinct(table, i, j);
      RefsIgnoreCounts(table, i, n, t[j].handle);
      CountInSnoc(minus, table[i].handle, t[j].handle);
    }
  }

  /** Indexes look at keys and kinds only. */
  lemma IndexesIgnoreRest(table: seq<Entry>, i: nat, e: Entry, idx: map<u32, nat>, windows: bool)
    requires Indexes(table, idx, windows) && i < |table| && table[i].Entry? && e.Entry?
    requires e.rkey == table[i].rkey && e.isWindow == table[i].isWindow
    ensures Indexes(table[i := e], idx, windows)
  {
    var t := table[i := e];
    forall j ensures Leads(t, j, idx, windows) {
      assert Leads(table, j, idx, windows);
    }
    forall k ensures LedTo(t, k, idx, windows) {
      assert LedTo(table, k, idx, windows);
    }
  }

  lemma BooksIncrement(table: seq<Entry>, i: nat, lidx: map<u32, nat>, ridx: map<u32, nat>, plus: seq<nat>, minus: seq<nat>, exact: bool)
    requires Books(table, lidx, ridx, plus, minus, exact) && i < |table| && table[i].Entry? && !table[i].isWindow
    ensures Books(table[i := table[i].(dependents := table[i].dependents + 1)], lidx, ridx, plus + [table[i].handle], minus, exact)
  {
    var e := table[i].(dependents := table[i].dependents + 1);
    Increment(table, i, plus, minus, exact);
    IndexesIgnoreRest(table, i, e, lidx, false);
    IndexesIgnoreRest(table, i, e, ridx, true);
  }

  lemma BooksDecrement(table: seq<Entry>, i: nat, lidx: map<u32, nat>, ridx: map<u32, nat>, plus: seq<nat>, minus: seq<nat>, exact: bool)
    requires Books(table, lidx, ridx, plus, minus, exact) && i < |table| && table[i].Entry? && !table[i].isWindow
    requires table[i].dependents > 0
    ensures Books(table[i := table[i].(dependents := table[i].dependents - 1)], lidx, ridx, plus, minus + [table[i].handle], exact)
  {
    var e := table[i].(dependents := table[i].dependents - 1);
    Decrement(table, i, plus, minus, exact);
    IndexesIgnoreRest(table, i, e, lidx, false);
    IndexesIgnoreRest(table, i, e, ridx, true);
  }

  lemma LiveIsRegion(table: seq<Entry>, i: nat)
    requires Consistent(table) && i < |table| && table[i].Entry? && LiveMr(table, table[i].handle)
    ensures !table[i].isWindow
  {
    var j :| IsMr(table, j, table[i].handle);
    assert Distinct(table, i, j);
  }

  lemma OneSlot(table: seq<Entry>, handle: nat, slot: nat)
    requires Consistent(table) && slot <= |table|
    requires if slot < |table| then table[slot].Entry? && table[slot].handle == handle else Gone(table, handle)
    ensures forall i :: IsMr(table, i, handle) || IsWindow(table, i, handle) ==> i == slot
  {
    forall i | IsMr(table, i, handle) || IsWindow(table, i, handle) ensures i == slot {
      assert Distinct(table, i, slot);
    }
  }

  lemma WindowIsNotLive(table: seq<Entry>, i: nat)
    requires Consistent(table) && i < |table| && table[i].Entry? && table[i].isWindow
    ensures !LiveMr(table, table[i].handle) && KeysMatch(table[i])
  {
    forall j ensures !IsMr(table, j, table[i].handle) {
      assert Distinct(table, i, j);
    }
  }

  lemma AllKeysMatch(table: seq<Entry>)
    requires Consistent(table)
    ensures forall i :: 0 <= i < |table| && table[i].Entry? ==> KeysMatch(table[i])
  {
  }

  /** A region with a reference still to be taken off the books has a positive count. */
  lemma OwedIsPositive(table: seq<Entry>, i: nat, plus: seq<nat>, minus: seq<nat>, exact: bool)
    requires Consistent(table) && Balanced(table, plus, minus, exact) && i < |table| && table[i].Entry?
    requires LiveMr(table, table[i].handle) && Refs(table, table[i].handle) > CountIn(minus, table[i].handle)
    ensures !table[i].isWindow && table[i].dependents > 0
  {
    LiveIsRegion(table, i);
    assert BalancedAt(table, i, plus, minus, exact);
  }

  // ---------------------------------------------------------------- what the calls are about

  /** One call; `answer` and `destroyed` are what firmware says to its command, and `others` are
      the calls other threads make while it runs. */
  datatype Call =
    | RegMr(pd: nat, start: u64, length: u64, access: Access, answer: Option<nat>, others: seq<Call>)
    | RegMrIndirect(pd: nat, start: u64, length: u64, access: Access, children: seq<nat>, answer: Option<nat>, others: seq<Call>)
    | DeregMr(handle: nat, destroyed: bool, others: seq<Call>)
    | AllocMw(pd: nat, kind: nat, answer: Option<nat>, others: seq<Call>)
    | DeallocMw(handle: nat, destroyed: bool, others: seq<Call>)
    | BindMw(handle: nat, qpn: nat, mrHandle: nat, bindRkey: u32, access: Access, addr: u64, length: u64)
    | InvalidateKey(rkey: u32)

  /** How a run stands: going on; stuck in a search that does not end, with the lock held; or
      over, with a table in which an entry or a count is gone that somebody still uses. */
  datatype Outcome = Completed | Hung | Broken

  /** Calls in a run, those inside other calls included. */
  function Calls(calls: seq<Call>): nat
  {
    if calls == [] then 0 else Calls(calls[..|calls| - 1]) + Made(calls[|calls| - 1])
  }

  function Made(call: Call): nat
  {
    if call.BindMw? || call.InvalidateKey? then 1 else 1 + Calls(call.others)
  }

  /** No call of the run, or inside one, names the region: clients can only name what is
      theirs. */
  predicate Spares(calls: seq<Call>, handle: nat)
  {
    forall i :: 0 <= i < |calls| ==> SparedBy(calls[i], handle)
  }

  predicate SparedBy(call: Call, handle: nat)
  {
    match call
    case RegMr(_, _, _, _, _, others) => Spares(others, handle)
    case RegMrIndirect(_, _, _, _, children, _, others) => handle !in children && Spares(others, handle)
    case DeregMr(other, _, others) => other != handle && Spares(others, handle)
    case AllocMw(_, _, _, others) => Spares(others, handle)
    case DeallocMw(other, _, others) => other != handle && Spares(others, handle)
    case BindMw(_, _, mrHandle, _, _, _, _) => mrHandle != handle
    case InvalidateKey(_) => true
  }

  /** Regions the calls do not name and nothing depends on stay as they are. */
  ghost predicate StaysQuiet(calls: seq<Call>, t: seq<Entry>, u: seq<Entry>)
  {
    forall h {:trigger Quiet(t, h)} {:trigger Quiet(u, h)} :: Spares(calls, h) && Quiet(t, h) ==> Quiet(u, h)
  }

  /** The same for calls that leave some regions with a dependent more. */
  ghost predicate QuietExcept(calls: seq<Call>, handles: seq<nat>, t: seq<Entry>, u: seq<Entry>)
  {
    forall h {:trigger Quiet(t, h)} {:trigger Quiet(u, h)} :: Spares(calls, h) && h !in handles && Quiet(t, h) ==> Quiet(u, h)
  }

  ghost predicate QuietUnless(call: Call, t: seq<Entry>, u: seq<Entry>)
  {
    forall h {:trigger Quiet(t, h)} {:trigger Quiet(u, h)} :: SparedBy(call, h) && Quiet(t, h) ==> Quiet(u, h)
  }

  ghost predicate QuietBut(other: nat, t: seq<Entry>, u: seq<Entry>)
  {
    forall h {:trigger Quiet(t, h)} {:trigger Quiet(u, h)} :: h != other && Quiet(t, h) ==> Quiet(u, h)
  }

  /** A region nothing depends on. */
  ghost predicate Quiet(table: seq<Entry>, handle: nat)
  {
    exists i :: IsMr(table, i, handle) && table[i].dependents == 0
  }

  lemma {:induction false} CallsGrow(calls: seq<Call>, n: nat)
    requires n < |calls|
    ensures Calls(calls[..n + 1]) == Calls(calls[..n]) + Made(calls[n]) <= Calls(calls)
    decreases |calls|
  {
    assert calls[..n + 1][..n] == calls[..n];
    if n + 1 < |calls| {
      CallsGrow(calls[..|calls| - 1], n);
      assert calls[..|calls| - 1][..n + 1] == calls[..n + 1] && calls[..|calls| - 1][..n] == calls[..n];
    } else {
      assert calls[..n + 1] == calls;
    }
  }

  /** The number of slots: firmware's limit, held between 64 and 4096. */
  function TableCap(fwMax: u32): (cap: u32)
    ensures 64 <= cap <= 4096
  {
    var most := if fwMax == 0 || fwMax > 4096 then 4096 else fwMax;
    if most < 64 then 64 else most
  }

  function NextVariant(v: nat): (w: nat)
    ensures 1 <= v <= 255 ==> 1 <= w <= 255
  {
    if v == 255 then 1 else v + 1
  }

  predicate Registrable(start: u64, length: u64)
  {
    start != 0 && length != 0 && start + length < 0x1_0000_0000_0000_0000
  }

  /** Firmware accepts CREATE_MKEY, with an index no entry of the table has. */
  predicate Offers(table: seq<Entry>, answer: Option<nat>)
  {
    answer.Some? && answer.value < 0x100_0000 && Gone(table, answer.value)
  }

  predicate Full(table: seq<Entry>)
  {
    forall i :: 0 <= i < |table| ==> table[i].Entry?
  }

  predicate FirstUnused(table: seq<Entry>, slot: nat)
  {
    slot < |table| && table[slot].Unused? && forall i :: 0 <= i < slot ==> table[i].Entry?
  }

  predicate IsWindow(table: seq<Entry>, i: int, handle: nat)
  {
    0 <= i < |table| && table[i].Entry? && table[i].isWindow && table[i].handle == handle
  }

  predicate KeyUnused(table: seq<Entry>, rkey: u32)
  {
    forall i :: 0 <= i < |table| && table[i].Entry? ==> table[i].rkey != rkey
  }

  function Region(pd: nat, start: u64, length: u64, access: Access, key: u32, children: seq<nat>): Entry
  {
    Entry(KeyOwner(key), pd, key, key, start, length, access, children, 0, false, false, 0, 0)
  }

  function Window(handle: nat, pd: nat, rkey: u32): Entry
  {
    Entry(handle, pd, 0, rkey, 0, 0, NoAccess(), [], 0, false, true, 0, 0)
  }

  predicate IsNewWindow(t: seq<Entry>, slot: nat, u: seq<Entry>, pd: nat, handle: nat, rkey: u32)
  {
    slot < |t| && u == t[slot := Window(handle, pd, rkey)] && KeyOwner(rkey) == handle && handle != 0
  }

  /** A region that holds the whole range for an access of the data path. */
  predicate Covers(e: Entry, lkey: u32, pd: nat, addr: u64, length: u32, deviceWrites: bool)
  {
    && e.Entry? && e.lkey == lkey && !e.invalidated && e.pd == pd
    && e.start <= addr && addr + length <= e.start + e.length && (deviceWrites ==> e.access.localWrite)
  }

  lemma Overflow(addr: u64, length: u32)
    ensures (addr + length) % 0x1_0000_0000_0000_0000 < addr <==> addr + length >= U64
  {
    if addr + length >= U64 {
      DivModUnique(addr + length, U64, 1, addr + length - U64);
    } else {
      DivModUnique(addr + length, U64, 0, addr + length);
    }
  }

  /** What BindMW does to the counts: a new parent gains one dependent, an old one loses it. */
  function Gains(w: Entry, mrHandle: nat): seq<nat>
    requires w.Entry?
  {
    if w.boundMr != mrHandle then [mrHandle] else []
  }

  function Loses(w: Entry, mrHandle: nat): seq<nat>
    requires w.Entry?
  {
    if w.boundMr != mrHandle then Debt(w) else []
  }

  function NoAccess(): Access { Access(false, false, false, false, false, false) }

  /** The tests of BindMW on the window `w` and the region `r`. */
  predicate MayBind(w: Entry, r: Entry, bindRkey: u32, access: Access, addr: u64, length: u64)
    requires w.Entry? && r.Entry?
  {
    && w.isWindow && w.rkey == bindRkey && !r.isWindow && w.pd == r.pd && !r.invalidated
    && r.start <= addr && length <= r.length && addr <= r.start + r.length - length && r.access.mwBind
    && (access.remoteWrite || access.atomic ==> r.access.localWrite)
  }

  predicate BindArguments(handle: nat, qpn: nat, mrHandle: nat, bindRkey: u32, access: Access, length: u64)
  {
    handle != 0 && qpn != 0 && mrHandle != 0 && bindRkey != 0 && length != 0 && !access.unknown
  }

  function Bound(w: Entry, mr: nat, qpn: nat, access: Access, addr: u64, length: u64, rkey: u32): Entry
    requires w.Entry?
  {
    w.(start := addr, length := length, access := access, invalidated := false, boundMr := mr, boundQpn := qpn, rkey := rkey)
  }

  // ---------------------------------------------------------------- the registry

  class Registry {
    const cap: u32
    var table: seq<Entry>
    const lindex: KeyIndex.Index
    const rindex: KeyIndex.Index
    var variant: nat
    /** No reference has been dropped without its count. */
    ghost var exact: bool

    ghost function Buckets(): set<object>
    {
      {lindex, lindex.keys, lindex.slots, rindex, rindex.keys, rindex.slots}
    }

    /** The two indexes share nothing and have room for every entry twice. */
    ghost predicate Indexed()
      reads Buckets()
    {
      && 64 <= cap && this !in Buckets()
      && lindex != rindex && lindex.keys != rindex.keys && lindex.slots != rindex.slots
      && lindex.keys != (rindex.slots as object) && rindex.keys != (lindex.slots as object)
      && lindex.Valid() && rindex.Valid() && 2 * cap <= lindex.slots.Length && 2 * cap <= rindex.slots.Length
    }

    ghost predicate Valid()
      reads this, Buckets()
    {
      1 <= variant <= 255 && Holding([], [])
    }

    /** What holds of table and indexes at every step of a call. */
    ghost predicate Holding(plus: seq<nat>, minus: seq<nat>)
      reads this, Buckets()
    {
      Indexed() && |table| == cap && Books(table, lindex.view, rindex.view, plus, minus, exact)
    }

    constructor (fwMax: u32)
      ensures Valid() && exact && variant == 1 && |table| == TableCap(fwMax) && (forall i :: 0 <= i < |table| ==> table[i].Unused?)
      ensures fresh(Buckets()) && lindex.inserts == rindex.inserts == 0
    {
      cap := TableCap(fwMax);
      table := seq(TableCap(fwMax), _ => Unused);
      lindex := new KeyIndex.Index(TableCap(fwMax));
      rindex := new KeyIndex.Index(TableCap(fwMax));
      variant, exact := 1, true;
    }

    // -------------------------------------------------------------- lookups

    /** Lookup by handle: the linear scan. */
    method Lookup(handle: nat) returns (slot: nat)
      ensures slot <= |table|
      ensures slot < |table| ==> table[slot].Entry? && table[slot].handle == handle
      ensures slot == |table| ==> Gone(table, handle)
    {
      slot := 0;
      while slot < |table| && !(table[slot].Entry? && table[slot].handle == handle)
        invariant slot <= |table|
        invariant forall i :: 0 <= i < slot && table[i].Entry? ==> table[i].handle != handle
      {
        slot := slot + 1;
      }
    }

    /** LookupByRkey agrees with a linear scan of the used slots. */
    method LookupByRkey(rkey: u32) returns (slot: Option<nat>)
      requires Valid() && (rkey == 0 || rindex.Ends(rkey))
      ensures slot.Some? ==> slot.value < |table| && table[slot.value].Entry? && table[slot.value].rkey == rkey
      ensures forall i :: 0 <= i < |table| && table[i].Entry? && table[i].rkey == rkey ==> slot == Some(i)
    {
      AllKeysMatch(table);
      IndexFinds(table, rkey, rindex.view, true);
      if rkey == 0 {
        return None;
      }
      var i := rindex.Get(rkey);
      return if i >= 0 && table[i].Entry? && table[i].rkey == rkey then Some(i) else None;
    }

    /** LookupByLkey agrees with a linear scan; windows have no lkey. */
    method LookupByLkey(lkey: u32) returns (slot: Option<nat>)
      requires Valid() && (lkey == 0 || lindex.Ends(lkey))
      ensures slot.Some? ==> lkey != 0 && slot.value < |table| && table[slot.value].Entry? && table[slot.value].lkey == lkey
      ensures forall i :: lkey != 0 && 0 <= i < |table| && table[i].Entry? && table[i].lkey == lkey ==> slot == Some(i)
    {
      AllKeysMatch(table);
      IndexFinds(table, lkey, lindex.view, false);
      if lkey == 0 {
        return None;
      }
      var i := lindex.Get(lkey);
      return if i >= 0 && table[i].Entry? && table[i].lkey == lkey then Some(i) else None;
    }

    /** ValidateRange, the test the data path makes on every scatter entry. */
    method ValidateRange(lkey: u32, pd: nat, addr: u64, length: u32, deviceWrites: bool) returns (ok: bool)
      requires Valid() && (lkey == 0 || lindex.Ends(lkey))
      ensures ok <==> length > 0 && lkey != 0 && exists i :: 0 <= i < |table| && Covers(table[i], lkey, pd, addr, length, deviceWrites)
    {
      AllKeysMatch(table);
      if length == 0 || (addr + length) % 0x1_0000_0000_0000_0000 < addr {
        Overflow(addr, length);
        return false;
      }
      var slot := LookupByLkey(lkey);
      if slot.None? {
        return false;
      }
      Overflow(addr, length);
      var e := table[slot.value];
      ok := !(e.invalidated || e.pd != pd || addr < e.start || addr + length > e.start + e.length) && (!deviceWrites || e.access.localWrite);
      assert ok ==> Covers(table[slot.value], lkey, pd, addr, length, deviceWrites);
    }

    method FreeSlot() returns (slot: nat)
      ensures slot <= |table| && (slot < |table| ==> FirstUnused(table, slot))
      ensures slot == |table| <==> Full(table)
    {
      slot := 0;
      while slot < |table| && table[slot].Entry?
        invariant slot <= |table| && forall i :: 0 <= i < slot ==> table[i].Entry?
      {
        slot := slot + 1;
      }
    }

    // -------------------------------------------------------------- bookkeeping

    method TakeVariant() returns (v: nat)
      requires 1 <= variant <= 255
      modifies `variant
      ensures v == old(variant) && variant == NextVariant(v)
    {
      v := variant;
      variant := (variant + 1) % 256;
      if variant == 0 {
        variant := 1;
      }
    }

    method InsertKeys(key: u32, isWindow: bool, slot: nat)
      requires Indexed() && |lindex.view| <= cap && |rindex.view| <= cap
      requires key !in rindex.view && (isWindow || key !in lindex.view)
      modifies Buckets()
      ensures Indexed() && rindex.view == old(rindex.view)[key := slot] && rindex.inserts == old(rindex.inserts) + 1
      ensures lindex.view == (if isWindow then old(lindex.view) else old(lindex.view)[key := slot])
      ensures lindex.inserts == old(lindex.inserts) + if isWindow then 0 else 1
    {
      lindex.RoomLeft();
      rindex.RoomLeft();
      if !isWindow {
        lindex.Put(key, slot);
      }
      rindex.Put(key, slot);
    }

    method RemoveKeys(key: u32, isWindow: bool)
      requires Indexed() && key in rindex.view && (isWindow || key in lindex.view)
      modifies Buckets()
      ensures Indexed() && rindex.view == old(rindex.view) - {key} && rindex.inserts == old(rindex.inserts)
      ensures lindex.view == (if isWindow then old(lindex.view) else old(lindex.view) - {key})
      ensures lindex.inserts == old(lindex.inserts)
    {
      if !isWindow {
        lindex.Take(key);
      }
      rindex.Take(key);
    }

    method Place(slot: nat, e: Entry)
      requires Indexed() && |table| == cap && slot < |table| && e.Entry? && |lindex.view| <= cap && |rindex.view| <= cap
      requires e.rkey !in rindex.view && (e.isWindow || e.rkey !in lindex.view)
      modifies `table, Buckets()
      ensures Indexed() && table == old(table)[slot := e] && rindex.view == old(rindex.view)[e.rkey := slot]
      ensures lindex.view == (if e.isWindow then old(lindex.view) else old(lindex.view)[e.rkey := slot])
      ensures rindex.inserts == old(rindex.inserts) + 1
      ensures lindex.inserts == old(lindex.inserts) + if e.isWindow then 0 else 1
    {
      table := table[slot := e];
      InsertKeys(e.rkey, e.isWindow, slot);
    }

    /** A new entry and its index entries. */
    method Add(slot: nat, e: Entry)
      requires slot < |table| && table[slot].Unused? && e.Entry? && KeysMatch(e) && e.boundMr == 0 && e.dependents == 0
      requires Holding(e.children, []) && ChildrenLive(table, e) && Gone(table, e.handle)
      modifies `table, Buckets()
      ensures table == old(table)[slot := e] && Holding([], [])
      ensures rindex.inserts == old(rindex.inserts) + 1
      ensures lindex.inserts == old(lindex.inserts) + if e.isWindow then 0 else 1
    {
      BooksAdd(table, slot, e, lindex.view, rindex.view, exact);
      Place(slot, e);
    }

    /** An entry leaves the table together with its keys. */
    method Drop(slot: nat)
      requires Indexed() && |table| == cap && Leaves(table, lindex.view, rindex.view)
      requires slot < |table| && table[slot].Entry?
      modifies `table, Buckets()
      ensures Indexed() && table == old(table)[slot := Unused]
      ensures Leaves(table, lindex.view, rindex.view) <==> old(table)[slot].isWindow || Refs(old(table), old(table)[slot].handle) == 0
      ensures lindex.inserts == old(lindex.inserts) && rindex.inserts == old(rindex.inserts)
    {
      LeavesDrop(table, slot, lindex.view, rindex.view);
      var e := table[slot];
      RemoveKeys(e.rkey, e.lkey == 0);
      table := table[slot := Unused];
    }

    /** `if (child) child->dependentCount++`. */
    method AddDependent(handle: nat, ghost plus: seq<nat>, ghost minus: seq<nat>)
      requires Holding(plus, minus) && LiveMr(table, handle)
      modifies `table
      ensures Holding(plus + [handle], minus) && Moved(old(table), table, [handle], [])
    {
      var slot := Lookup(handle);
      if slot < |table| {
        LiveIsRegion(table, slot);
        BooksIncrement(table, slot, lindex.view, rindex.view, plus, minus, exact);
        OneMoved(table, slot, table[slot].dependents + 1, [handle], []);
        table := table[slot := table[slot].(dependents := table[slot].dependents + 1)];
      }
    }

    /** `if (child && child->dependentCount) child->dependentCount--`. While a reference
        exists the count is positive, so the guard never skips the decrement. */
    method DropDependent(handle: nat, ghost plus: seq<nat>, ghost minus: seq<nat>)
      requires Holding(plus, minus) && LiveMr(table, handle)
      requires Refs(table, handle) > CountIn(minus, handle)
      modifies `table
      ensures Holding(plus, minus + [handle]) && Moved(old(table), table, [], [handle])
    {
      var slot := Lookup(handle);
      if slot < |table| {
        OwedIsPositive(table, slot, plus, minus, exact);
      }
      if slot < |table| && table[slot].dependents > 0 {
        BooksDecrement(table, slot, lindex.view, rindex.view, plus, minus, exact);
        OneMoved(table, slot, table[slot].dependents - 1, [], [handle]);
        table := table[slot := table[slot].(dependents := table[slot].dependents - 1)];
      }
    }

    // -------------------------------------------------------------- memory regions

    /** RegMR: the region takes the first free slot, which its key then leads to. */
    method RegMr(pd: nat, start: u64, length: u64, access: Access, answer: Option<nat>, others: seq<Call>)
      returns (code: Code, slot: nat, key: u32, outcome: Outcome, ghost mid: seq<Entry>)
      requires Valid()
      modifies this, Buckets()
      ensures outcome.Broken? <==> !Valid()
      ensures !Registrable(start, length) ==> code.BadArgument? && outcome.Completed? && table == old(table) && variant == old(variant)
      ensures outcome.Completed? ==> (code.Success? <==> Registrable(start, length) && Offers(mid, answer) && !Full(mid))
      ensures code.Success? ==> outcome.Completed? && FirstUnused(mid, slot) && KeyOwner(key) == answer.value
      ensures code.Success? ==> key % 256 == old(variant) && table == mid[slot := Region(pd, start, length, access, key, [])]
      ensures !code.Success? ==> mid == table
      ensures others == [] ==> outcome.Completed? && mid == old(table)
      ensures others == [] && Registrable(start, length) ==> variant == NextVariant(old(variant))
      ensures rindex.inserts <= old(rindex.inserts) + 1 + Calls(others)
      ensures outcome.Hung? ==> rindex.inserts >= rindex.slots.Length
      ensures outcome.Completed? ==> StaysQuiet(others, old(table), table)
      decreases others, 2
    {
      slot, key, outcome, mid := 0, 0, Completed, table;
      if !Registrable(start, length) {
        return BadArgument, 0, 0, Completed, table;
      }
      var v := TakeVariant();
      outcome := Run(others);
      mid := table;
      if !outcome.Completed? {
        return Failed, 0, 0, outcome, table;
      }
      code, slot, key := FinishRegMr(v, pd, start, length, access, answer);
      if code.Success? {
        QuietPut(mid, slot, table[slot]);
      }
    }

    /** RegMR after its command. */
    method FinishRegMr(v: nat, pd: nat, start: u64, length: u64, access: Access, answer: Option<nat>)
      returns (code: Code, slot: nat, key: u32)
      requires Valid() && 1 <= v <= 255 && Registrable(start, length)
      modifies `table, Buckets()
      ensures Valid()
      ensures code.Success? <==> Offers(old(table), answer) && !Full(old(table))
      ensures !code.Success? ==> table == old(table)
      ensures code.Success? ==> FirstUnused(old(table), slot) && KeyOwner(key) == answer.value && key % 256 == v
      ensures code.Success? ==> table == old(table)[slot := Region(pd, start, length, access, key, [])]
      ensures rindex.inserts <= old(rindex.inserts) + 1 && lindex.inserts <= old(lindex.inserts) + 1
    {
      slot, key := 0, 0;
      if !Offers(table, answer) {
        return Failed, 0, 0;
      }
      slot := FreeSlot();
      if slot == |table| {
        return NoMemory, 0, 0;
      }
      key := Compose(answer.value, v);
      Add(slot, Region(pd, start, length, access, key, []));
      return Success, slot, key;
    }

    /** RegMRIndirect. The children are looked up before the command and counted after it, when
        other threads may have taken one away. The table is consistent afterwards if and only if
        every child is then a region, and the range does not wrap; the user client, which resolves
        children through region tokens and refuses ranges that wrap, makes sure of the rest. */
    method RegMrIndirect(pd: nat, start: u64, length: u64, access: Access, children: seq<nat>, answer: Option<nat>, others: seq<Call>)
      returns (code: Code, slot: nat, key: u32, outcome: Outcome, ghost mid: seq<Entry>)
      requires Valid()
      modifies this, Buckets()
      ensures outcome.Broken? <==> !Valid()
      ensures (exists c :: c in children && Gone(old(table), c)) ==> !code.Success? && outcome.Completed? && table == old(table)
      ensures outcome.Completed? ==>
                (code.Success? ==> Offers(mid, answer) && !Full(mid)) &&
                (children != [] && length != 0 && (forall c :: c in children ==> !Gone(old(table), c)) && Offers(mid, answer) && !Full(mid) ==> code.Success?)
      ensures !code.Success? ==> mid == table
      ensures code.Success? ==> FirstUnused(mid, slot) && slot < |table| && table[slot] == Region(pd, start, length, access, key, children)
      ensures code.Success? ==> |table| == |mid| && CountsMoved(mid, table[slot := Unused], children, [])
      ensures code.Success? ==> answer.Some? && KeyOwner(key) == answer.value && key % 256 == old(variant)
      ensures code.Success? ==> (outcome.Completed? <==> start + length < U64 && AllRegions(mid, children))
      ensures code.Success? ==> outcome.Completed? || outcome.Broken?
      ensures code.Success? && outcome.Completed? ==> SameButCounts(mid, table[slot := Unused])
      ensures others == [] ==> !outcome.Hung? && mid == old(table) && (code.Success? || outcome.Completed?)
      ensures rindex.inserts <= old(rindex.inserts) + 1 + Calls(others)
      ensures outcome.Hung? ==> rindex.inserts >= rindex.slots.Length
      ensures outcome.Completed? ==> QuietExcept(others, children, old(table), table)
      decreases others, 2
    {
      slot, key, outcome, mid := 0, 0, Completed, table;
      if children == [] || length == 0 {
        return BadArgument, 0, 0, Completed, table;
      }
      var found := AllFound(children);
      if !found {
        return NotFound, 0, 0, Completed, table;
      }
      var v := TakeVariant();
      outcome := Run(others);
      mid := table;
      if !outcome.Completed? {
        return Failed, 0, 0, outcome, table;
      }
      code, slot, key, outcome := FinishRegMrIndirect(v, pd, start, length, access, children, answer);
      if code.Success? && outcome.Completed? {
        QuietAdded(mid, table, slot, children);
      }
    }

    /** RegMRIndirect after its command. */
    method FinishRegMrIndirect(v: nat, pd: nat, start: u64, length: u64, access: Access, children: seq<nat>, answer: Option<nat>)
      returns (code: Code, slot: nat, key: u32, outcome: Outcome)
      requires Valid() && 1 <= v <= 255
      modifies `table, Buckets()
      ensures !outcome.Hung? && (outcome.Broken? <==> !Valid())
      ensures code.Success? <==> Offers(old(table), answer) && !Full(old(table))
      ensures !code.Success? ==> outcome.Completed? && table == old(table)
      ensures code.Success? ==> FirstUnused(old(table), slot) && slot < |table| && table[slot] == Region(pd, start, length, access, key, children)
      ensures code.Success? ==> |table| == |old(table)| && CountsMoved(old(table), table[slot := Unused], children, [])
      ensures code.Success? ==> KeyOwner(key) == answer.value && key % 256 == v
      ensures code.Success? ==> (outcome.Completed? <==> start + length < U64 && AllRegions(old(table), children))
      ensures code.Success? && outcome.Completed? ==> SameButCounts(old(table), table[slot := Unused])
      ensures rindex.inserts <= old(rindex.inserts) + 1
    {
      slot, key, outcome := 0, 0, Completed;
      if !Offers(table, answer) {
        return Failed, 0, 0, Completed;
      }
      slot := FreeSlot();
      if slot == |table| {
        return NoMemory, 0, 0, Completed;
      }
      key := Compose(answer.value, v);
      var right := AddCounted(slot, Region(pd, start, length, access, key, children));
      return Success, slot, key, if right then Completed else Broken;
    }

    /** The children are counted and the entry goes into the table. */
    method AddCounted(slot: nat, e: Entry) returns (right: bool)
      requires Valid() && slot < |table| && table[slot].Unused? && e.Entry? && e == Region(e.pd, e.start, e.length, e.access, e.rkey, e.children)
      requires Gone(table, e.handle) && e.handle < INDEX_LIMIT && e.rkey % 256 != 0
      modifies `table, Buckets()
      ensures right <==> Valid()
      ensures right <==> e.start + e.length < U64 && AllRegions(old(table), e.children)
      ensures |table| == |old(table)| && table[slot] == e && CountsMoved(old(table), table[slot := Unused], e.children, [])
      ensures right ==> SameButCounts(old(table), table[slot := Unused])
      ensures rindex.inserts == old(rindex.inserts) + 1
    {
      right := CountFor(slot, e);
      Place(slot, e);
      HoldingIf(right);
      ValidIf();
    }

    method CountFor(slot: nat, e: Entry) returns (right: bool)
      requires Valid() && slot < |table| && table[slot].Unused? && e.Entry? && e == Region(e.pd, e.start, e.length, e.access, e.rkey, e.children)
      requires Gone(table, e.handle) && e.handle < INDEX_LIMIT && e.rkey % 256 != 0
      modifies `table
      ensures |table| == |old(table)|
      ensures right <==> Books(table[slot := e], lindex.view[e.rkey := slot], rindex.view[e.rkey := slot], [], [], exact)
      ensures right <==> e.start + e.length < U64 && AllRegions(old(table), e.children)
      ensures table[slot := e][slot := Unused] == table && CountsMoved(old(table), table, e.children, [])
      ensures right ==> SameButCounts(old(table), table)
      ensures e.rkey !in lindex.view && e.rkey !in rindex.view && |lindex.view| <= cap && |rindex.view| <= cap
    {
      right := e.start + e.length < 0x1_0000_0000_0000_0000 && AllRegions(table, e.children);
      KeyIsFresh(table, slot, e.rkey, lindex.view, rindex.view);
      CountChildren(e.children);
      Added(old(table), table, slot, e, lindex.view, rindex.view, exact);
    }

    lemma ValidIf()
      requires 1 <= variant <= 255
      ensures Valid() <==> Holding([], [])
    {
    }

    lemma HoldingIf(right: bool)
      requires Indexed() && |table| == cap
      requires right <==> Books(table, lindex.view, rindex.view, [], [], exact)
      ensures right <==> Holding([], [])
    {
    }

    method AllFound(children: seq<nat>) returns (found: bool)
      ensures found <==> forall c :: c in children ==> !Gone(table, c)
    {
      for n := 0 to |children|
        invariant forall m :: 0 <= m < n ==> !Gone(table, children[m])
      {
        var child := Lookup(children[n]);
        if child == |table| {
          return false;
        }
      }
      return true;
    }

    /** `if (child) child->dependentCount++`, for every child. */
    method CountChildren(children: seq<nat>)
      requires Consistent(table)
      modifies `table
      ensures Tallied(old(table), table, children)
    {
      for n := 0 to |children|
        invariant Tallied(old(table), table, children[..n])
      {
        ghost var before := table;
        var child := Lookup(children[n]);
        if child < |table| {
          table := table[child := table[child].(dependents := table[child].dependents + 1)];
        }
        TallyOn(old(table), before, table, children, n, child);
      }
      assert children[..|children|] == children;
    }

    /** DeregMR. A window is only taken off the books; a region is refused while anything
        depends on it. The test and the removal are separate regions under the lock: `others`
        is what other threads call in between and `mid` the table they leave. */
    method DeregMr(handle: nat, destroyed: bool, others: seq<Call>) returns (code: Code, outcome: Outcome, ghost mid: seq<Entry>)
      requires Valid()
      modifies this, Buckets()
      ensures outcome.Broken? <==> !Valid()
      ensures code.Success? ==> Gone(table, handle) && Without(mid, handle, table)
      ensures code.Success? ==> (outcome.Broken? <==> LiveMr(mid, handle) && Refs(mid, handle) > 0)
      ensures code.Success? ==> forall i :: IsMr(mid, i, handle) ==> CountsMoved(mid, table, [], mid[i].children)
      ensures !code.Success? ==> mid == table
      ensures !LiveMr(old(table), handle) || code.Busy? ==> mid == old(table)
      ensures code.Success? && LiveMr(old(table), handle) && Spares(others, handle) ==> outcome.Completed?
      ensures Gone(old(table), handle) ==> code.NotFound?
      ensures forall i :: IsMr(old(table), i, handle) && old(table)[i].dependents > 0 ==> code.Busy?
      ensures rindex.inserts <= old(rindex.inserts) + Calls(others)
      ensures outcome.Hung? ==> rindex.inserts >= rindex.slots.Length
      ensures outcome.Completed? ==> StaysQuiet(others, old(table), mid) && QuietBut(handle, mid, table)
      decreases others, 2
    {
      mid, outcome := table, Completed;
      var slot := Lookup(handle);
      if slot == |table| {
        return NotFound, Completed, table;
      }
      if table[slot].isWindow {
        DropUnaccounted(slot);
        return Success, Completed, mid;
      }
      OneSlot(table, handle, slot);
      assert IsMr(table, slot, handle);
      if table[slot].dependents > 0 {
        return Busy, Completed, table;
      }
      outcome := Run(others);
      mid := table;
      if !outcome.Completed? || !destroyed {
        return Failed, outcome, table;
      }
      if Quiet(mid, handle) {
        QuietHasNoRefs(mid, handle, exact);
      }
      outcome := FinishDeregMr(handle);
      return Success, outcome, mid;
    }

    /** DeregMR after its command: the entry goes, whatever has come to depend on it. If
        anything has, it is left pointing at a region that is not there. */
    method FinishDeregMr(handle: nat) returns (outcome: Outcome)
      requires Valid()
      modifies this, Buckets()
      ensures !outcome.Hung? && (outcome.Broken? <==> !Valid())
      ensures outcome.Broken? <==> LiveMr(old(table), handle) && Refs(old(table), handle) > 0
      ensures Gone(table, handle) && Without(old(table), handle, table)
      ensures forall i :: IsMr(old(table), i, handle) ==> CountsMoved(old(table), table, [], old(table)[i].children)
      ensures LiveMr(old(table), handle) ==> exact == old(exact)
      ensures QuietBut(handle, old(table), table)
      ensures rindex.inserts == old(rindex.inserts) && lindex.inserts == old(lindex.inserts)
    {
      outcome := Completed;
      var slot := Lookup(handle);
      OneSlot(table, handle, slot);
      if slot < |table| {
        if table[slot].isWindow {
          WindowIsNotLive(table, slot);
          DropUnaccounted(slot);
        } else {
          assert IsMr(table, slot, handle);
          outcome := if Refs(table, handle) == 0 then Completed else Broken;
          Dissolve(slot);
          QuietWithout(old(table), table, handle, old(table)[slot].children);
        }
      }
    }

    /** A window that leaves through DeregMR: its parent's count stays as it was. */
    method DropUnaccounted(slot: nat)
      requires Valid() && slot < |table| && table[slot].Entry? && table[slot].isWindow
      modifies this, Buckets()
      ensures Valid() && Gone(table, old(table)[slot].handle) && table == old(table)[slot := Unused]
      ensures Without(old(table), old(table)[slot].handle, table) && QuietBut(old(table)[slot].handle, old(table), table)
      ensures rindex.inserts == old(rindex.inserts) && lindex.inserts == old(lindex.inserts)
    {
      exact := exact && table[slot].boundMr == 0;
      assert KeysMatch(table[slot]);
      ForgetWindow(table, slot, exact, old(exact));
      Drop(slot);
      NothingMoved(old(table));
      DropIsWithout(old(table), old(table), slot, [], []);
      QuietWithout(old(table), table, old(table)[slot].handle, []);
    }

    /** A region leaves the table after its children have lost the references it holds. */
    method Dissolve(slot: nat)
      requires Valid() && slot < |table| && table[slot].Entry? && !table[slot].isWindow
      modifies this, Buckets()
      ensures Valid() <==> Refs(old(table), old(table)[slot].handle) == 0
      ensures exact == old(exact) && Gone(table, old(table)[slot].handle)
      ensures Without(old(table), old(table)[slot].handle, table) && CountsMoved(old(table), table, [], old(table)[slot].children)
      ensures rindex.inserts == old(rindex.inserts) && lindex.inserts == old(lindex.inserts)
    {
      DropChildren(slot);
      ghost var before := table;
      AfterChildren(old(table), before, slot, exact);
      Drop(slot);
      DropIsWithout(old(table), before, slot, [], old(table)[slot].children);
    }

    method DropChildren(slot: nat)
      requires Holding([], []) && slot < |table| && table[slot].Entry? && !table[slot].isWindow
      modifies `table
      ensures Holding([], old(table)[slot].children) && Moved(old(table), table, [], old(table)[slot].children)
      ensures Refs(table, old(table)[slot].handle) == Refs(old(table), old(table)[slot].handle)
    {
      var children := table[slot].children;
      for n := 0 to |children|
        invariant Holding([], children[..n]) && Moved(old(table), table, [], children[..n])
      {
        var c := children[n];
        ChildIsOwed(old(table), table, slot, n);
        ghost var before := table;
        DropDependent(c, [], children[..n]);
        MovedOn(old(table), before, table, [], children[..n], [], [c]);
        assert children[..n + 1] == children[..n] + [c];
      }
      assert children[..|children|] == children;
      SameRefs(old(table), table, old(table)[slot].handle);
    }

    // -------------------------------------------------------------- memory windows

    /** AllocMW for a type-2 window: choose a slot under the lock, run the command without it,
        and under the lock again search once more. `others` is what other threads call in
        between and `mid` the table they leave. */
    method AllocMw(pd: nat, kind: nat, answer: Option<nat>, others: seq<Call>)
      returns (code: Code, slot: nat, handle: nat, rkey: u32, outcome: Outcome, ghost mid: seq<Entry>)
      requires Valid()
      modifies this, Buckets()
      ensures outcome.Broken? <==> !Valid()
      ensures code.Success? ==> IsNewWindow(mid, slot, table, pd, handle, rkey) && (outcome.Broken? <==> Full(mid))
      ensures code.Success? ==> FirstUnused(if Full(mid) then old(table) else mid, slot)
      ensures rindex.inserts <= old(rindex.inserts) + 1 + Calls(others)
      ensures outcome.Hung? ==> rindex.inserts >= rindex.slots.Length
      ensures !code.Success? ==> mid == table
      ensures outcome.Completed? ==> StaysQuiet(others, old(table), mid)
      decreases others, 2
    {
      mid := table;
      var v;
      code, slot, v := BeginAllocMw(pd, kind);
      handle, rkey, outcome := 0, 0, Completed;
      if code.Success? {
        outcome := Run(others);
        mid := table;
        if !outcome.Completed? {
          return Failed, 0, 0, 0, outcome, table;
        }
        var full := Full(table);
        code, slot, handle, rkey := FinishAllocMw(slot, v, pd, answer);
        outcome := if code.Success? && full then Broken else Completed;
      }
    }

    /** AllocMW up to its command. */
    method BeginAllocMw(pd: nat, kind: nat) returns (code: Code, slot: nat, v: nat)
      requires Valid()
      modifies `variant
      ensures Valid() && (code.Success? <==> kind == 2 && pd != 0 && !Full(table))
      ensures code.Success? ==> FirstUnused(table, slot) && v == old(variant) && variant == NextVariant(v)
    {
      slot, v := 0, 0;
      if kind != 2 || pd == 0 {
        return BadArgument, 0, 0;
      }
      slot := FreeSlot();
      if slot == |table| {
        return NoMemory, 0, 0;
      }
      v := TakeVariant();
      return Success, slot, v;
    }

    /** AllocMW after its command. The second search does not start from "none": when it finds
        nothing, the slot of the first is kept, and with it the entry of somebody else is
        overwritten. That happens if and only if no slot is free now; the entry's owner can
        then never deregister it. */
    method FinishAllocMw(stale: nat, v: nat, pd: nat, answer: Option<nat>) returns (code: Code, slot: nat, handle: nat, rkey: u32)
      requires Valid() && stale < |table| && 1 <= v <= 255
      modifies this, Buckets()
      ensures exact == old(exact) && variant == old(variant)
      ensures code.Success? <==> Offers(old(table), answer) && answer.value != 0
      ensures !code.Success? ==> table == old(table)
      ensures code.Success? ==> handle == answer.value && IsNewWindow(old(table), slot, table, pd, handle, rkey) && rkey % 256 == v % 256
      ensures code.Success? ==> if Full(old(table)) then slot == stale else FirstUnused(old(table), slot)
      ensures code.Success? && Full(old(table)) ==> old(table)[slot].Entry? && Gone(table, old(table)[slot].handle)
      ensures Valid() <==> !(code.Success? && Full(old(table)))
      ensures rindex.inserts <= old(rindex.inserts) + 1
    {
      handle, rkey := 0, 0;
      slot := stale;
      if !Offers(table, answer) || answer.value == 0 {
        return Failed, slot, 0, 0;
      }
      var again := FreeSlot();
      if again < |table| {
        slot := again;
      }
      handle := answer.value;
      rkey := Compose(handle, v);
      if again < |table| {
        Add(slot, Window(handle, pd, rkey));
      } else {
        Overwrite(slot, Window(handle, pd, rkey));
      }
      return Success, slot, handle, rkey;
    }

    /** The same statements when the slot is in use. */
    method Overwrite(slot: nat, e: Entry)
      requires Valid() && slot < |table| && table[slot].Entry? && e.Entry? && KeysMatch(e) && e.isWindow && Gone(table, e.handle)
      modifies `table, Buckets()
      ensures table == old(table)[slot := e] && Gone(table, old(table)[slot].handle) && !Valid()
      ensures rindex.inserts == old(rindex.inserts) + 1
    {
      IndexAdd(table, slot, e, rindex.view, true);
      IndexRoom(table, lindex.view, false);
      IndexRoom(table, rindex.view, true);
      OverwrittenIsGone(table, slot, e, rindex.view);
      Place(slot, e);
    }

    /** DeallocMW: the window goes and its parent loses one dependent. The parent is read before
        the command; `bound` is what was read, and the region that loses the dependent. */
    method DeallocMw(handle: nat, destroyed: bool, others: seq<Call>)
      returns (code: Code, slot: nat, outcome: Outcome, ghost bound: nat, ghost mid: seq<Entry>)
      requires Valid()
      modifies this, Buckets()
      ensures outcome.Broken? <==> !Valid()
      ensures !code.Success? ==> mid == table
      ensures code.Success? ==> Gone(table, handle) && Without(mid, handle, table)
      ensures code.Success? ==> slot < |mid| && IsWindow(mid, slot, handle) && CountsMoved(mid, table, [], Charged(mid, bound))
      ensures code.Success? ==> (outcome.Broken? <==> mid[slot].boundMr != bound && Spent(mid, bound))
      ensures forall i :: IsWindow(old(table), i, handle) && code.Success? ==> bound == old(table)[i].boundMr
      ensures LiveMr(old(table), handle) || Gone(old(table), handle) ==> !code.Success? && outcome.Completed? && table == old(table)
      ensures others == [] ==> outcome.Completed? && mid == old(table)
      ensures rindex.inserts <= old(rindex.inserts) + Calls(others)
      ensures outcome.Hung? ==> rindex.inserts >= rindex.slots.Length
      ensures outcome.Completed? ==> StaysQuiet(others, old(table), mid) && (code.Success? ==> QuietBut(handle, mid, table))
      decreases others, 2
    {
      outcome, bound, mid := Completed, 0, table;
      if handle == 0 {
        return BadArgument, 0, Completed, 0, table;
      }
      slot := Lookup(handle);
      OneSlot(table, handle, slot);
      if slot == |table| || !table[slot].isWindow {
        return NotFound, 0, Completed, 0, table;
      }
      WindowIsNotLive(table, slot);
      var boundMr := table[slot].boundMr;
      outcome := Run(others);
      mid, bound := table, boundMr;
      if !outcome.Completed? || !destroyed {
        return Failed, 0, outcome, boundMr, table;
      }
      code, slot, outcome := FinishDeallocMw(handle, boundMr);
    }

    /** DeallocMW after its command. If the window has been bound to another region meanwhile, the
        wrong region is charged; its count is then too low if and only if none of its dependents
        was to spare. */
    method FinishDeallocMw(handle: nat, boundMr: nat) returns (code: Code, slot: nat, outcome: Outcome)
      requires Valid()
      modifies `table, `exact, Buckets()
      ensures !outcome.Hung? && (outcome.Broken? <==> !Valid())
      ensures !code.Success? ==> outcome.Completed? && table == old(table)
      ensures code.Success? <==> exists i :: IsWindow(old(table), i, handle)
      ensures code.Success? ==> Gone(table, handle) && Without(old(table), handle, table)
      ensures code.Success? ==> slot < |old(table)| && IsWindow(old(table), slot, handle)
      ensures code.Success? ==> CountsMoved(old(table), table, [], Charged(old(table), boundMr)) && QuietBut(handle, old(table), table)
      ensures code.Success? ==> (outcome.Broken? <==> old(table)[slot].boundMr != boundMr && Spent(old(table), boundMr))
      ensures rindex.inserts == old(rindex.inserts) && lindex.inserts == old(lindex.inserts)
    {
      slot := Lookup(handle);
      OneSlot(table, handle, slot);
      if slot == |table| || !table[slot].isWindow {
        return NotFound, 0, Completed;
      }
      assert IsWindow(table, slot, handle);
      var wrong := table[slot].boundMr != boundMr && Spent(table, boundMr);
      exact := exact && table[slot].boundMr == boundMr;
      Charge(boundMr);
      ghost var charged := table;
      ChargedBooks(old(table), charged, slot, boundMr, old(exact), exact);
      assert SameEntry(old(table)[slot], charged[slot]);
      SameIndexes(old(table), charged, lindex.view, false);
      SameIndexes(old(table), charged, rindex.view, true);
      Drop(slot);
      DropIsWithout(old(table), charged, slot, [], Charged(old(table), boundMr));
      QuietWithout(old(table), table, handle, Charged(old(table), boundMr));
      return Success, slot, if wrong then Broken else Completed;
    }

    /** `if (boundMr) { parent = Lookup(boundMr); if (parent && parent->dependentCount) ... }`. */
    method Charge(boundMr: nat)
      requires Consistent(table)
      modifies `table
      ensures Moved(old(table), table, [], Charged(old(table), boundMr))
    {
      NothingMoved(table);
      if boundMr != 0 {
        var parent := Lookup(boundMr);
        OneSlot(table, boundMr, parent);
        if parent < |table| && table[parent].dependents > 0 {
          assert KeysMatch(table[parent]) && CanPay(table, parent, boundMr);
          OneMoved(table, parent, table[parent].dependents - 1, [], [boundMr]);
          table := table[parent := table[parent].(dependents := table[parent].dependents - 1)];
        }
      }
    }

    /** BindMW. The new range lies in the region, in the same domain; the old parent loses
        the dependent the new one gains; the window gets a new key. The old key is gone from
        the table unless the shared variant has come round to it. */
    method BindMw(handle: nat, qpn: nat, mrHandle: nat, bindRkey: u32, access: Access, addr: u64, length: u64)
      returns (code: Code, w: nat, r: nat, rkey: u32)
      requires Valid()
      modifies this, Buckets()
      ensures Valid() && exact == old(exact)
      ensures !code.Success? ==> table == old(table)
      ensures code.Success? ==> BindArguments(handle, qpn, mrHandle, bindRkey, access, length)
      ensures forall i, j {:trigger IsWindow(old(table), i, handle), IsMr(old(table), j, mrHandle)} ::
                IsWindow(old(table), i, handle) && IsMr(old(table), j, mrHandle) && BindArguments(handle, qpn, mrHandle, bindRkey, access, length) ==>
                  (code.Success? <==> MayBind(old(table)[i], old(table)[j], bindRkey, access, addr, length))
      ensures code.Success? ==> w < |table| && r < |table| && IsWindow(old(table), w, handle) && IsMr(old(table), r, mrHandle)
      ensures code.Success? ==> MayBind(old(table)[w], old(table)[r], bindRkey, access, addr, length)
      ensures code.Success? ==> table[w] == Bound(old(table)[w], mrHandle, qpn, access, addr, length, rkey)
      ensures code.Success? ==> SameButCounts(old(table), table[w := old(table)[w]])
      ensures code.Success? ==> CountsMoved(old(table), table, Gains(old(table)[w], mrHandle), Loses(old(table)[w], mrHandle))
      ensures code.Success? ==> KeyOwner(rkey) == handle && rkey % 256 == old(variant) && variant == NextVariant(old(variant))
      ensures code.Success? ==> (rkey != bindRkey <==> old(variant) != bindRkey % 256) && (KeyUnused(table, bindRkey) <==> rkey != bindRkey)
      ensures rindex.inserts <= old(rindex.inserts) + 1
    {
      w, r, rkey := 0, 0, 0;
      if !BindArguments(handle, qpn, mrHandle, bindRkey, access, length) {
        return BadArgument, 0, 0, 0;
      }
      w := Lookup(handle);
      r := Lookup(mrHandle);
      OneSlot(table, handle, w);
      OneSlot(table, mrHandle, r);
      if w == |table| || r == |table| || !MayBind(table[w], table[r], bindRkey, access, addr, length) {
        return NotPermitted, 0, 0, 0;
      }
      rkey := Bind(w, r, qpn, access, addr, length);
      OldKey(old(table), table, w, rkey);
      return Success, w, r, rkey;
    }

    /** BindMW once its tests have passed. */
    method Bind(w: nat, r: nat, qpn: nat, access: Access, addr: u64, length: u64) returns (rkey: u32)
      requires Valid() && w < |table| && r < |table| && table[w].Entry? && table[r].Entry? && table[r].handle != 0
      requires MayBind(table[w], table[r], table[w].rkey, access, addr, length)
      modifies this, Buckets()
      ensures Valid() && exact == old(exact)
      ensures KeyOwner(rkey) == old(table)[w].handle && rkey % 256 == old(variant) && variant == NextVariant(old(variant))
      ensures table[w] == Bound(old(table)[w], old(table)[r].handle, qpn, access, addr, length, rkey)
      ensures SameButCounts(old(table), table[w := old(table)[w]])
      ensures CountsMoved(old(table), table, Gains(old(table)[w], old(table)[r].handle), Loses(old(table)[w], old(table)[r].handle))
      ensures rindex.inserts == old(rindex.inserts) + 1
    {
      var v := TakeVariant();
      assert KeysMatch(table[w]) && KeysMatch(table[r]);
      rkey := Compose(KeyOwner(table[w].rkey), v);
      assert IsMr(table, r, table[r].handle);
      MoveCounts(w, table[r].handle);
      ghost var moved := table;
      SameEntries(old(table), table, r);
      var e := Bound(table[w], table[r].handle, qpn, access, addr, length, rkey);
      Rebind(w, r, e);
      assert table[w := old(table)[w]] == moved;
      CountsMovedBut(old(table), moved, w, e, Gains(old(table)[w], e.boundMr), Loses(old(table)[w], e.boundMr));
    }

    /** The count side of BindMW. */
    method MoveCounts(w: nat, mrHandle: nat)
      requires Holding([], []) && w < |table| && table[w].Entry? && table[w].isWindow && mrHandle != 0 && LiveMr(table, mrHandle)
      modifies `table
      ensures Moved(old(table), table, Gains(old(table)[w], mrHandle), Loses(old(table)[w], mrHandle))
      ensures Holding(Gains(old(table)[w], mrHandle), Loses(old(table)[w], mrHandle)) && table[w] == old(table)[w]
    {
      var bound := table[w].boundMr;
      if bound != mrHandle {
        DropOldParent(w);
        ghost var before := table;
        assert SameEntry(old(table)[w], before[w]);
        SameIsLive(old(table), table, mrHandle);
        AddDependent(mrHandle, [], Debt(table[w]));
        MovedOn(old(table), before, table, [], Debt(before[w]), [mrHandle], []);
        assert SameEntry(before[w], table[w]);
        assert [] + [mrHandle] == [mrHandle] && Debt(table[w]) + [] == Debt(table[w]);
      }
    }

    /** `if (old && old->dependentCount) old->dependentCount--` for the region a window is
        bound to. */
    method DropOldParent(w: nat)
      requires Holding([], []) && w < |table| && table[w].Entry? && table[w].isWindow
      modifies `table
      ensures Moved(old(table), table, [], Debt(old(table)[w])) && table[w] == old(table)[w]
      ensures Holding([], Debt(old(table)[w]))
    {
      var bound := table[w].boundMr;
      if bound != 0 {
        assert BoundWithin(table, table[w]);
        BoundIsLive(table, table[w]);
        RefsAtLeast(table, w, bound);
        DropDependent(bound, [], []);
        assert [] + [bound] == [bound];
        assert SameEntry(old(table)[w], table[w]);
      }
    }

    /** The window side of BindMW: new range, new parent, new key. */
    method Rebind(w: nat, r: nat, e: Entry)
      requires w < |table| && table[w].Entry? && table[w].isWindow && e.Entry? && e.isWindow && e.handle == table[w].handle
      requires e.pd == table[w].pd && e.children == table[w].children && KeysMatch(e) && e.boundMr != 0 && Anchors(table, r, e)
      requires Holding(Gains(table[w], e.boundMr), Loses(table[w], e.boundMr))
      modifies `table, Buckets()
      ensures table == old(table)[w := e] && Holding([], [])
      ensures rindex.inserts == old(rindex.inserts) + 1
    {
      BooksRebind(table, w, r, e, lindex.view, rindex.view, exact);
      Swap(w, e);
      HoldingIf(true);
    }

    method Swap(w: nat, e: Entry)
      requires Indexed() && w < |table| && table[w].Entry? && e.Entry?
      requires table[w].rkey in rindex.view && (e.rkey !in rindex.view || e.rkey == table[w].rkey)
      modifies `table, Buckets()
      ensures Indexed() && table == old(table)[w := e] && lindex.view == old(lindex.view)
      ensures rindex.view == (old(rindex.view) - {old(table)[w].rkey})[e.rkey := w] && rindex.inserts == old(rindex.inserts) + 1
    {
      var was := table[w].rkey;
      table := table[w := e];
      rindex.Replace(was, e.rkey, w);
    }

    /** InvalidateKey: the reference is dropped, the parent's count is not. */
    method InvalidateKey(rkey: u32) returns (code: Code, i: nat)
      requires Valid() && (rkey == 0 || rindex.Ends(rkey))
      modifies this
      ensures Valid()
      ensures rkey == 0 ==> code.BadArgument?
      ensures !code.Success? ==> table == old(table) && exact == old(exact)
      ensures rkey != 0 && !KeyUnused(old(table), rkey) ==> code.Success?
      ensures code.Success? ==> i < |old(table)| && old(table)[i].Entry? && old(table)[i].rkey == rkey
      ensures code.Success? ==> table == old(table)[i := old(table)[i].(invalidated := true, boundMr := 0, boundQpn := 0)]
      ensures code.Success? ==> exact == (old(exact) && !(old(table)[i].isWindow && old(table)[i].boundMr != 0))
    {
      i := 0;
      if rkey == 0 {
        return BadArgument, 0;
      }
      var slot := LookupByRkey(rkey);
      if slot.None? {
        return NotFound, 0;
      }
      i := slot.value;
      var e := table[i].(invalidated := true, boundMr := 0, boundQpn := 0);
      exact := exact && !(table[i].isWindow && table[i].boundMr != 0);
      BooksForget(table, i, e, lindex.view, rindex.view, exact, old(exact));
      table := table[i := e];
      return Success, i;
    }

    // -------------------------------------------------------------- runs

    /** Any calls of any clients, and inside each call that lets go of the lock any others. */
    method Run(calls: seq<Call>) returns (outcome: Outcome)
      requires Valid()
      modifies this, Buckets()
      ensures outcome.Broken? <==> !Valid()
      ensures outcome.Hung? ==> rindex.inserts >= rindex.slots.Length
      ensures rindex.inserts <= old(rindex.inserts) + Calls(calls)
      ensures old(rindex.inserts) + Calls(calls) < rindex.slots.Length ==> !outcome.Hung?
      ensures outcome.Completed? ==> StaysQuiet(calls, old(table), table)
      ensures calls == [] ==> outcome.Completed? && table == old(table) && variant == old(variant)
      decreases calls, 1
    {
      outcome := Completed;
      for n := 0 to |calls|
        invariant n == 0 ==> table == old(table) && variant == old(variant)
        invariant outcome.Completed? && Valid()
        invariant rindex.inserts <= old(rindex.inserts) + Calls(calls[..n])
        invariant StaysQuiet(calls[..n], old(table), table)
      {
        ghost var before := table;
        outcome := Perform(calls[n]);
        CallsGrow(calls, n);
        if outcome.Completed? {
          QuietOn(calls, n, old(table), before, table);
        }
        if !outcome.Completed? {
          return outcome;
        }
      }
      assert calls[..|calls|] == calls;
    }

    method Perform(call: Call) returns (outcome: Outcome)
      requires Valid()
      modifies this, Buckets()
      ensures outcome.Broken? <==> !Valid()
      ensures outcome.Hung? ==> rindex.inserts >= rindex.slots.Length
      ensures rindex.inserts <= old(rindex.inserts) + Made(call)
      ensures outcome.Completed? ==> QuietUnless(call, old(table), table)
      decreases call, 0
    {
      outcome := Completed;
      ghost var t := table;
      match call {
        case RegMr(pd, start, length, access, answer, others) =>
          var code, slot, key;
          ghost var mid;
          code, slot, key, outcome, mid := RegMr(pd, start, length, access, answer, others);
        case RegMrIndirect(pd, start, length, access, children, answer, others) =>
          var code, slot, key;
          ghost var mid;
          code, slot, key, outcome, mid := RegMrIndirect(pd, start, length, access, children, answer, others);
        case DeregMr(handle, destroyed, others) =>
          var code;
          ghost var mid;
          code, outcome, mid := DeregMr(handle, destroyed, others);
        case AllocMw(pd, kind, answer, others) =>
          var code, slot, handle, rkey;
          ghost var mid;
          code, slot, handle, rkey, outcome, mid := AllocMw(pd, kind, answer, others);
          if code.Success? && outcome.Completed? {
            QuietPut(mid, slot, table[slot]);
          }
        case DeallocMw(handle, destroyed, others) =>
          var code, slot;
          ghost var bound, mid;
          code, slot, outcome, bound, mid := DeallocMw(handle, destroyed, others);
        case BindMw(handle, qpn, mrHandle, bindRkey, access, addr, length) =>
          var code, w, r, rkey := BindMw(handle, qpn, mrHandle, bindRkey, access, addr, length);
          if code.Success? {
            QuietRebound(t, table, w, mrHandle);
          }
        case InvalidateKey(rkey) =>
          rindex.SearchEnds(rkey);
          if rkey != 0 && !rindex.Ends(rkey) {
            return Hung;
          }
          var code, i := InvalidateKey(rkey);
          if code.Success? {
            QuietForgets(t, i, table[i]);
          }
      }
    }

    /** The consequence the counts are for: at any time, the region behind a bound window is
        in the table, in the window's domain, and contains the window's range; and it cannot
        be deregistered. */
    lemma WindowsAreBacked(w: nat)
      requires Valid() && w < |table| && table[w].Entry? && table[w].isWindow && table[w].boundMr != 0
      ensures exists j :: Anchors(table, j, table[w]) && table[j].dependents > 0
    {
      assert BoundWithin(table, table[w]);
      var j :| Anchors(table, j, table[w]);
      RefsAtLeast(table, w, table[w].boundMr);
      assert BalancedAt(table, j, [], [], exact);
    }
  }

  // ---------------------------------------------------------------- runs

  /** AllocMW starts on an empty table, other clients fill every slot while its command runs,
      and it takes slot 0 from the first of them: the region there can no longer be found,
      and its key stays in the index. */
  method WindowOverwritesRegion(fwMax: u32) returns (r: Registry, ghost before: seq<Entry>, code: Code, rkey: u32)
    ensures fresh(r) && |before| == TableCap(fwMax) && Full(before) && IsMr(before, 0, 1)
    ensures code.Success? && IsNewWindow(before, 0, r.table, 1, TableCap(fwMax) + 1, rkey)
    ensures Gone(r.table, 1) && !r.Valid()
  {
    r := new Registry(fwMax);
    assert r.table[0].Unused?;
    var slot, v, handle;
    code, slot, v := r.BeginAllocMw(1, 2);
    FillUp(r);
    before := r.table;
    assert FillsAt(before, 0, |before|);
    code, slot, handle, rkey := r.FinishAllocMw(slot, v, 1, Some(TableCap(fwMax) + 1));
  }

  /** Other clients register a region for every slot. */
  method FillUp(r: Registry)
    requires r.Valid() && FilledTo(r.table, 0) && |r.table| <= 4096
    modifies r, r.Buckets()
    ensures r.Valid() && |r.table| == |old(r.table)| && FilledTo(r.table, |r.table|)
    ensures Full(r.table) && Gone(r.table, |r.table| + 1)
  {
    for i := 0 to |r.table|
      invariant r.Valid() && |r.table| == |old(r.table)| && FilledTo(r.table, i)
    {
      NextFill(r.table, i);
      var c, s, key, o;
      ghost var t;
      c, s, key, o, t := r.RegMr(1, 4096, 4096, NoAccess(), Some(i + 1), []);
    }
    FilledIsFull(r.table);
  }

  /** Regions with the handles 1, 2, and so on in the first slots, nothing in the others. */
  predicate FilledTo(table: seq<Entry>, n: nat)
  {
    forall j {:trigger FillsAt(table, j, n)} :: 0 <= j < |table| ==> FillsAt(table, j, n)
  }

  predicate FillsAt(table: seq<Entry>, j: nat, n: nat)
    requires j < |table|
  {
    if j < n then IsMr(table, j, j + 1) else table[j].Unused?
  }

  lemma NextFill(table: seq<Entry>, n: nat)
    requires FilledTo(table, n) && n < |table| <= 4096
    ensures Offers(table, Some(n + 1)) && !Full(table)
    ensures forall s {:trigger FirstUnused(table, s)} :: FirstUnused(table, s) ==> s == n
    ensures forall key {:trigger Region(1, 4096, 4096, NoAccess(), key, [])} ::
              KeyOwner(key) == n + 1 ==> FilledTo(table[n := Region(1, 4096, 4096, NoAccess(), key, [])], n + 1)
  {
    assert FillsAt(table, n, n);
    forall j | 0 <= j < |table| && table[j].Entry? ensures table[j].handle != n + 1 {
      assert FillsAt(table, j, n);
    }
    forall key | KeyOwner(key) == n + 1
      ensures FilledTo(table[n := Region(1, 4096, 4096, NoAccess(), key, [])], n + 1)
    {
      var t, m := table[n := Region(1, 4096, 4096, NoAccess(), key, [])], n + 1;
      forall j | 0 <= j < |t| ensures FillsAt(t, j, m) {
        assert FillsAt(table, j, n);
      }
    }
    forall s: nat | FirstUnused(table, s) ensures s == n {
      assert FillsAt(table, s, n);
    }
  }

  lemma FilledIsFull(table: seq<Entry>)
    requires FilledTo(table, |table|)
    ensures Full(table) && Gone(table, |table| + 1)
  {
    forall j | 0 <= j < |table| ensures table[j].Entry? && table[j].handle == j + 1 {
      assert FillsAt(table, j, |table|);
    }
  }

  /** The variant after `n` more keys. */
  function VariantAfter(v: nat, n: nat): nat
  {
    if n == 0 then v else NextVariant(VariantAfter(v, n - 1))
  }

  /** It comes round after every 255 keys, of whatever clients. */
  lemma {:induction false} VariantComesRound(v: nat, n: nat)
    requires 1 <= v <= 255
    ensures VariantAfter(v, n) == (v - 1 + n) % 255 + 1
    ensures VariantAfter(v, n) == v <==> n % 255 == 0
  {
    VariantIs(v, n);
    var q, m := n / 255, n % 255;
    if v - 1 + m < 255 {
      DivModUnique(v - 1 + n, 255, q, v - 1 + m);
    } else {
      DivModUnique(v - 1 + n, 255, q + 1, v - 1 + m - 255);
    }
  }

  lemma {:induction false} VariantIs(v: nat, n: nat)
    requires 1 <= v <= 255
    ensures VariantAfter(v, n) == (v - 1 + n) % 255 + 1
  {
    if n > 0 {
      VariantIs(v, n - 1);
      var q, m := (v - 2 + n) / 255, (v - 2 + n) % 255;
      if m < 254 {
        DivModUnique(v - 1 + n, 255, q, m + 1);
      } else {
        DivModUnique(v - 1 + n, 255, q + 1, 0);
      }
    }
  }

  /** A bind that leaves the old key working: between AllocMW and BindMW other clients have
      had 254 keys, most of them for registrations firmware turned down. */
  method RebindKeepsTheKey(fwMax: u32) returns (r: Registry, code: Code, w: nat, before: u32, after: u32)
    ensures fresh(r) && r.Valid() && code.Success?
    ensures after == before && w < |r.table| && r.table[w].Entry? && r.table[w].rkey == before && r.table[w].boundMr != 0
  {
    var m;
    r, w, m, before := WindowAndRegion(fwMax);
    var turns: nat :| turns == 253;
    TurnDown(r, turns);
    VariantComesRound(3, turns);
    assert IsWindow(r.table, w, 1) && IsMr(r.table, m, 2);
    code, w, m, after := r.BindMw(1, 1, 2, before, NoAccess(), 4096, 1);
  }

  /** Firmware turns down `n` registrations of other clients. */
  method TurnDown(r: Registry, n: nat)
    requires r.Valid()
    modifies r, r.Buckets()
    ensures r.Valid() && r.table == old(r.table) && r.variant == VariantAfter(old(r.variant), n)
  {
    for i := 0 to n
      invariant r.Valid() && r.table == old(r.table) && r.variant == VariantAfter(old(r.variant), i)
    {
      var c, s, key, o;
      ghost var t;
      c, s, key, o, t := r.RegMr(1, 4096, 4096, NoAccess(), None, []);
    }
  }

  method WindowAndRegion(fwMax: u32) returns (r: Registry, w: nat, m: nat, rkey: u32)
    ensures fresh(r) && fresh(r.Buckets()) && r.Valid() && r.variant == 3 && KeyOwner(rkey) == 1 && rkey % 256 == 1
    ensures IsWindow(r.table, w, 1) && IsMr(r.table, m, 2) && MayBind(r.table[w], r.table[m], rkey, NoAccess(), 4096, 1)
    ensures r.table[m].dependents == 0 && r.table[w].boundMr == 0
  {
    r, rkey := OneWindow(fwMax);
    w := 0;
    var code, key, o;
    ghost var t;
    code, m, key, o, t := r.RegMr(1, 4096, 4096, Access(true, false, false, false, true, false), Some(2), []);
  }

  method OneWindow(fwMax: u32) returns (r: Registry, rkey: u32)
    ensures fresh(r) && fresh(r.Buckets()) && r.Valid() && r.variant == 2 && KeyOwner(rkey) == 1 && rkey % 256 == 1
    ensures |r.table| >= 64 && r.table[0] == Window(1, 1, rkey) && forall i :: 1 <= i < |r.table| ==> r.table[i].Unused?
    ensures Offers(r.table, Some(2)) && FirstUnused(r.table, 1)
  {
    r := new Registry(fwMax);
    assert r.table[0].Unused?;
    var code, slot, v, handle, w;
    code, slot, v := r.BeginAllocMw(1, 2);
    code, w, handle, rkey := r.FinishAllocMw(slot, v, 1, Some(1));
    assert w == 0;
  }

  /** DeregMR of a region, with a BindMW of another thread between its test and its removal: no
      dependent is seen, and the window is left bound to a region that is gone. Calls of one
      client cannot meet like this, because its methods hold the client's method lock. */
  method BindUnderDereg(fwMax: u32) returns (r: Registry, busy: bool, code: Code, outcome: Outcome, w: nat)
    ensures fresh(r) && !busy && code.Success? && outcome.Broken? && !r.Valid()
    ensures IsWindow(r.table, w, 1) && r.table[w].boundMr == 2 && Gone(r.table, 2)
  {
    var m, rkey, after;
    r, w, m, rkey := WindowAndRegion(fwMax);
    var slot := r.Lookup(2);
    OneSlot(r.table, 2, slot);
    busy := r.table[slot].dependents > 0;
    code, w, m, after := r.BindMw(1, 1, 2, rkey, NoAccess(), 4096, 1);
    ghost var t := r.table;
    BoundIsReferred(t, w);
    outcome := r.FinishDeregMr(2);
    assert SameEntry(t[w], r.table[w]);
  }

  /** DeallocMW of a window that another thread binds to a second region while the command runs:
      the first region is charged although the window has left it, and is left without
      dependents and with a child reference to it. */
  method RebindUnderDealloc(fwMax: u32) returns (r: Registry, code: Code, outcome: Outcome)
    ensures fresh(r) && code.Success? && outcome.Broken? && !r.Valid()
    ensures IsMr(r.table, 1, 2) && r.table[1].dependents == 0 && IsMr(r.table, 2, 4) && r.table[2].children == [2]
  {
    var rkey, slot;
    r, rkey := ThreeEntries(fwMax);
    rkey := BindOfThree(r, rkey, 0, 1, 2);
    var bound := r.table[0].boundMr;
    rkey := BindOfThree(r, rkey, 2, 2, 4);
    ghost var t := r.table;
    Slack(t, r.exact);
    OneChild(t, rkey);
    code, slot, outcome := r.FinishDeallocMw(1, bound);
    assert SameEntry(t[1], r.table[1]) && SameEntry(t[2], r.table[2]) && MovedAt(t, r.table, 1, [], [2]);
    assert CountIn([2], 2) == 1;
  }

  /** A window in slot 0, a region in slot 1, and in slot 2 a region with that one as a child. */
  predicate Three(table: seq<Entry>, rkey: u32, bound: nat, dependents: nat)
  {
    && |table| >= 64 && IsWindow(table, 0, 1) && IsMr(table, 1, 2) && IsMr(table, 2, 4)
    && table[0].rkey == rkey && rkey != 0 && table[0].pd == 1 && table[0].boundMr == bound
    && Bindable(table[1]) && table[1].dependents == dependents && Bindable(table[2]) && table[2].children == [2]
  }

  predicate Bindable(e: Entry)
  {
    e.Entry? && e.pd == 1 && e.start == 4096 && e.length == 4096 && e.access.mwBind && !e.invalidated && !e.isWindow
  }

  predicate Two(table: seq<Entry>, rkey: u32)
  {
    && |table| >= 64 && IsWindow(table, 0, 1) && IsMr(table, 1, 2)
    && table[0].rkey == rkey && rkey != 0 && table[0].pd == 1 && table[0].boundMr == 0
    && Bindable(table[1]) && table[1].dependents == 0 && forall i :: 2 <= i < |table| ==> table[i].Unused?
  }

  method TwoEntries(fwMax: u32) returns (r: Registry, rkey: u32)
    ensures fresh(r) && fresh(r.Buckets()) && r.Valid() && Two(r.table, rkey)
  {
    r, rkey := OneWindow(fwMax);
    var code, slot, key, o;
    ghost var t;
    code, slot, key, o, t := r.RegMr(1, 4096, 4096, Access(true, false, false, false, true, false), Some(2), []);
  }

  method ThreeEntries(fwMax: u32) returns (r: Registry, rkey: u32)
    ensures fresh(r) && fresh(r.Buckets()) && r.Valid() && Three(r.table, rkey, 0, 1)
  {
    r, rkey := TwoEntries(fwMax);
    var code, slot, key, o;
    ghost var t, u := r.table, r.table;
    SecondIsNext(u);
    code, slot, key, o, t := r.RegMrIndirect(1, 4096, 4096, Access(true, false, false, false, true, false), [2], Some(4), []);
    ThirdAdded(u, r.table, rkey);
  }

  lemma ThirdAdded(t: seq<Entry>, u: seq<Entry>, rkey: u32)
    requires Two(t, rkey) && |u| == |t| && SameButCounts(t, u[2 := Unused]) && CountsMoved(t, u[2 := Unused], [2], [])
    requires IsMr(u, 2, 4) && Bindable(u[2]) && u[2].children == [2]
    ensures Three(u, rkey, 0, 1)
  {
    var v := u[2 := Unused];
    assert SameEntry(t[0], v[0]) && SameEntry(t[1], v[1]) && MovedAt(t, v, 1, [2], []);
    assert CountIn([2], 2) == 1;
  }

  lemma SecondIsNext(table: seq<Entry>)
    requires exists rkey :: Two(table, rkey)
    ensures Offers(table, Some(4)) && !Full(table) && !Gone(table, 2) && AllRegions(table, [2])
    ensures forall i {:trigger FirstUnused(table, i)} :: FirstUnused(table, i) ==> i == 2
  {
    assert table[2].Unused? && table[1].Entry? && table[0].Entry?;
    assert forall h :: h in [2] ==> IsMr(table, 1, h);
  }

  method BindOfThree(r: Registry, rkey: u32, bound: nat, dependents: nat, mr: nat) returns (after: u32)
    requires r.Valid() && Three(r.table, rkey, bound, dependents) && (if bound == 0 then mr == 2 else bound == 2 && mr == 4)
    modifies r, r.Buckets()
    ensures r.Valid() && Three(r.table, after, mr, if mr == 2 then dependents + 1 else if dependents > 0 then dependents - 1 else 0)
  {
    var code, w, m;
    ghost var t := r.table;
    OneSlot(t, 1, 0);
    OneSlot(t, 2, 1);
    OneSlot(t, 4, 2);
    code, w, m, after := r.BindMw(1, 1, mr, rkey, NoAccess(), 4096, 1);
    assert IsMr(t, if mr == 2 then 1 else 2, mr);
    assert SameEntry(t[1], r.table[0 := t[0]][1]) && SameEntry(t[2], r.table[0 := t[0]][2]) && MovedAt(t, r.table, 1, Gains(t[0], mr), Loses(t[0], mr));
    assert CountIn([2], 2) == 1 && CountIn([4], 2) == 0;
  }

  lemma OneChild(table: seq<Entry>, rkey: u32)
    requires Consistent(table) && Three(table, rkey, 4, 1) && Balanced(table, [], [], false)
    ensures Spent(table, 2) && Charged(table, 2) == [2]
    ensures forall i :: IsWindow(table, i, 1) ==> i == 0
  {
    assert CanPay(table, 1, 2) && BalancedAt(table, 1, [], [], false);
    RefsAtLeast(table, 2, 2);
    assert CountIn([2], 2) == 1;
    OneSlot(table, 1, 0);
  }

  lemma Slack(table: seq<Entry>, exact: bool)
    requires Balanced(table, [], [], exact)
    ensures Balanced(table, [], [], false)
  {
    forall i | 0 <= i < |table| && table[i].Entry? && !table[i].isWindow ensures BalancedAt(table, i, [], [], false) {
      assert BalancedAt(table, i, [], [], exact);
    }
  }

  lemma BoundIsReferred(table: seq<Entry>, w: nat)
    requires Consistent(table) && w < |table| && table[w].Entry? && table[w].isWindow && table[w].boundMr != 0
    ensures LiveMr(table, table[w].boundMr) && Refs(table, table[w].boundMr) > 0
  {
    BoundIsLive(table, table[w]);
    RefsAtLeast(table, w, table[w].boundMr);
  }

  lemma IndexAdd(table: seq<Entry>, slot: nat, e: Entry, idx: map<u32, nat>, windows: bool)
    requires Consistent(table) && Indexes(table, idx, windows) && slot < |table| && e.Entry? && KeysMatch(e) && Gone(table, e.handle)
    ensures e.rkey !in idx
    ensures table[slot].Unused? ==> Indexes(table[slot := e], if windows || !e.isWindow then idx[e.rkey := slot] else idx, windows)
  {
    forall k | k in idx ensures k != e.rkey {
      assert LedTo(table, k, idx, windows) && KeysMatch(table[idx[k]]);
    }
    if table[slot].Unused? {
      var t, jdx := table[slot := e], if windows || !e.isWindow then idx[e.rkey := slot] else idx;
      forall i ensures Leads(t, i, jdx, windows) {
        assert Leads(table, i, idx, windows);
      }
      forall k ensures LedTo(t, k, jdx, windows) {
        assert LedTo(table, k, idx, windows);
      }
    }
  }

  /** What a lookup in an index says about the table. */
  lemma IndexFinds(table: seq<Entry>, key: u32, idx: map<u32, nat>, windows: bool)
    requires Indexes(table, idx, windows)
    ensures LedTo(table, key, idx, windows)
    ensures forall i :: 0 <= i < |table| && table[i].Entry? && (windows || !table[i].isWindow) && table[i].rkey == key ==> key in idx && idx[key] == i
  {
    assert LedTo(table, key, idx, windows);
    forall i | 0 <= i < |table| && table[i].Entry? && (windows || !table[i].isWindow) && table[i].rkey == key
      ensures key in idx && idx[key] == i
    {
      assert Leads(table, i, idx, windows);
    }
  }

  lemma IndexRoom(table: seq<Entry>, idx: map<u32, nat>, windows: bool)
    requires Indexes(table, idx, windows)
    ensures |idx| <= |table|
  {
    forall k | k in idx ensures idx[k] < |table| && table[idx[k]].Entry? && table[idx[k]].rkey == k {
      assert LedTo(table, k, idx, windows);
    }
    IndexFits(idx, |table|);
  }

  /** An overwritten entry cannot be found any more, and leaves its key behind in the index. */
  lemma OverwrittenIsGone(table: seq<Entry>, slot: nat, e: Entry, idx: map<u32, nat>)
    requires Consistent(table) && Indexes(table, idx, true) && slot < |table| && table[slot].Entry?
    requires e.Entry? && KeysMatch(e) && Gone(table, e.handle)
    ensures Gone(table[slot := e], table[slot].handle)
    ensures !Indexes(table[slot := e], idx[e.rkey := slot], true)
  {
    var lost := table[slot];
    assert KeysMatch(lost) && Leads(table, slot, idx, true);
    assert !LedTo(table[slot := e], lost.rkey, idx[e.rkey := slot], true);
    forall i | 0 <= i < |table| && table[i].Entry? && i != slot ensures table[i].handle != lost.handle {
      assert Distinct(table, i, slot);
    }
  }

  /** After a rebind no entry but the window can have its key index. */
  lemma OldKey(t: seq<Entry>, u: seq<Entry>, w: nat, rkey: u32)
    requires Consistent(t) && |t| == |u| && w < |t| && t[w].Entry? && u[w].Entry? && SameButCounts(t, u[w := t[w]])
    requires u[w].rkey == rkey && KeyOwner(rkey) == t[w].handle
    ensures rkey != t[w].rkey <==> rkey % 256 != t[w].rkey % 256
    ensures KeyUnused(u, t[w].rkey) <==> rkey != t[w].rkey
  {
    assert KeysMatch(t[w]) && rkey == rkey / 256 * 256 + rkey % 256 && t[w].rkey == t[w].rkey / 256 * 256 + t[w].rkey % 256;
    forall i | 0 <= i < |u| && u[i].Entry? && i != w ensures u[i].rkey != t[w].rkey {
      assert SameEntry(t[i], u[w := t[w]][i]) && KeysMatch(t[i]) && Distinct(t, i, w);
    }
  }

  /** Whoever refers to a region that goes is left with a reference to nothing. */
  lemma RemovalDangles(table: seq<Entry>, slot: nat)
    requires Consistent(table) && slot < |table| && table[slot].Entry? && !table[slot].isWindow && Refs(table, table[slot].handle) > 0
    ensures !Consistent(table[slot := Unused])
  {
    var h, t := table[slot].handle, table[slot := Unused];
    var i := SomeRef(table, h);
    CountInZero(table[i].children, h);
    assert ChildrenLive(table, table[i]) && i != slot;
    forall j ensures !IsMr(t, j, h) {
      assert Distinct(table, j, slot);
    }
    assert !ChildrenLive(t, t[i]) || !BoundWithin(t, t[i]);
  }

  lemma {:induction false} SomeRef(table: seq<Entry>, h: nat) returns (i: nat)
    requires Refs(table, h) > 0
    ensures i < |table| && RefsOf(table[i], h) > 0
  {
    var n := |table| - 1;
    if RefsOf(table[n], h) > 0 {
      i := n;
    } else {
      i := SomeRef(table[..n], h);
    }
  }

  lemma IndexDrop(table: seq<Entry>, slot: nat, idx: map<u32, nat>, windows: bool)
    requires Consistent(table) && Indexes(table, idx, windows) && slot < |table| && table[slot].Entry?
    ensures windows || !table[slot].isWindow ==> table[slot].rkey in idx
    ensures Indexes(table[slot := Unused], if windows || !table[slot].isWindow then idx - {table[slot].rkey} else idx, windows)
  {
    var t, jdx := table[slot := Unused], if windows || !table[slot].isWindow then idx - {table[slot].rkey} else idx;
    assert Leads(table, slot, idx, windows);
    forall i ensures Leads(t, i, jdx, windows) {
      assert Leads(table, i, idx, windows);
      KeysDiffer(table, i, slot);
    }
    forall k ensures LedTo(t, k, jdx, windows) {
      assert LedTo(table, k, idx, windows);
    }
  }

  lemma KeysDiffer(table: seq<Entry>, i: int, j: int)
    requires Consistent(table)
    ensures 0 <= i < |table| && 0 <= j < |table| && i != j && table[i].Entry? && table[j].Entry? ==>
              table[i].rkey != table[j].rkey && KeyOwner(table[i].rkey) != table[j].handle
  {
    if 0 <= i < |table| && 0 <= j < |table| && table[i].Entry? && table[j].Entry? {
      assert KeysMatch(table[i]) && KeysMatch(table[j]) && Distinct(table, i, j);
    }
  }

  lemma BalancedAdd(table: seq<Entry>, slot: nat, e: Entry, exact: bool)
    requires Consistent(table) && slot < |table| && table[slot].Unused? && e.Entry? && KeysMatch(e) && e.boundMr == 0 && e.dependents == 0
    requires forall j :: 0 <= j < |table| && table[j].Entry? ==> table[j].handle != e.handle
    requires ChildrenLive(table, e) && Balanced(table, e.children, [], exact)
    ensures Balanced(table[slot := e], [], [], exact)
  {
    var t := table[slot := e];
    FreshHasNoRefs(table, e.handle);
    CountInZero(e.children, e.handle);
    assert !LiveMr(table, e.handle) && e.handle !in e.children;
    forall j | 0 <= j < |t| && t[j].Entry? && !t[j].isWindow ensures BalancedAt(t, j, [], [], exact) {
      RefsUpdate(table, slot, e, t[j].handle);
      if j != slot {
        assert BalancedAt(table, j, e.children, [], exact);
      }
    }
  }

  lemma BooksAdd(table: seq<Entry>, slot: nat, e: Entry, lidx: map<u32, nat>, ridx: map<u32, nat>, exact: bool)
    requires slot < |table| && table[slot].Unused? && e.Entry? && KeysMatch(e) && e.boundMr == 0 && e.dependents == 0
    requires Books(table, lidx, ridx, e.children, [], exact) && ChildrenLive(table, e) && Gone(table, e.handle)
    ensures e.rkey !in lidx && e.rkey !in ridx && |lidx| <= |table| && |ridx| <= |table|
    ensures Books(table[slot := e], if e.isWindow then lidx else lidx[e.rkey := slot], ridx[e.rkey := slot], [], [], exact)
  {
    ConsistentAdd(table, slot, e);
    BalancedAdd(table, slot, e, exact);
    IndexAdd(table, slot, e, lidx, false);
    IndexAdd(table, slot, e, ridx, true);
    IndexRoom(table, lidx, false);
    IndexRoom(table, ridx, true);
  }

  lemma LeavesDrop(table: seq<Entry>, slot: nat, lidx: map<u32, nat>, ridx: map<u32, nat>)
    requires Leaves(table, lidx, ridx) && slot < |table| && table[slot].Entry?
    ensures var e := table[slot];
            && e.rkey in ridx && (e.lkey == 0 <==> e.isWindow) && (e.isWindow || e.rkey in lidx)
            && (Leaves(table[slot := Unused], if e.isWindow then lidx else lidx - {e.rkey}, ridx - {e.rkey}) <==>
                  e.isWindow || Refs(table, e.handle) == 0)
  {
    assert KeysMatch(table[slot]);
    if table[slot].isWindow || Refs(table, table[slot].handle) == 0 {
      ConsistentRemove(table, slot);
    } else {
      RemovalDangles(table, slot);
    }
    IndexDrop(table, slot, lidx, false);
    IndexDrop(table, slot, ridx, true);
  }

  lemma BooksRebind(table: seq<Entry>, w: nat, r: nat, e: Entry, lidx: map<u32, nat>, ridx: map<u32, nat>, exact: bool)
    requires w < |table| && table[w].Entry? && table[w].isWindow && e.Entry? && e.isWindow && e.handle == table[w].handle
    requires e.pd == table[w].pd && e.children == table[w].children && KeysMatch(e) && e.boundMr != 0 && Anchors(table, r, e)
    requires Books(table, lidx, ridx, Gains(table[w], e.boundMr), Loses(table[w], e.boundMr), exact)
    ensures table[w].rkey in ridx && (e.rkey !in ridx || e.rkey == table[w].rkey) && |ridx| <= |table|
    ensures Books(table[w := e], lidx, (ridx - {table[w].rkey})[e.rkey := w], [], [], exact)
  {
    assert KeysMatch(table[w]);
    ConsistentUpdate(table, w, e);
    BalancedRebind(table, w, e, exact);
    IndexRekey(table, w, e, lidx, ridx);
    IndexRoom(table, ridx, true);
  }

  lemma BoundIsLive(table: seq<Entry>, w: Entry)
    requires w.Entry? && BoundWithin(table, w)
    ensures w.isWindow && w.boundMr != 0 ==> LiveMr(table, w.boundMr)
  {
  }

  /** Nothing refers to a handle that is not in the table. */
  lemma FreshHasNoRefs(table: seq<Entry>, h: nat)
    requires Consistent(table) && forall j :: 0 <= j < |table| && table[j].Entry? ==> table[j].handle != h
    ensures Refs(table, h) == 0
  {
    assert !LiveMr(table, h);
    forall i | 0 <= i < |table| ensures RefsOf(table[i], h) == 0 {
      if table[i].Entry? {
        CountInZero(table[i].children, h);
        assert BoundWithin(table, table[i]) && ChildrenLive(table, table[i]);
        BoundIsLive(table, table[i]);
      }
    }
    NoRefs(table, h);
  }

  // ---------------------------------------------------------------- entries and counts

  /** Nothing but reference counts differs. */
  ghost predicate SameButCounts(t: seq<Entry>, u: seq<Entry>)
  {
    |t| == |u| && forall i {:trigger SameEntry(t[i], u[i])} :: 0 <= i < |t| ==> SameEntry(t[i], u[i])
  }

  predicate SameEntry(e: Entry, f: Entry)
  {
    e == f || (e.Entry? && f.Entry? && !e.isWindow && f == e.(dependents := f.dependents))
  }

  lemma SameTransitive(t: seq<Entry>, u: seq<Entry>, v: seq<Entry>)
    requires SameButCounts(t, u) && SameButCounts(u, v)
    ensures SameButCounts(t, v)
  {
    forall i | 0 <= i < |t| ensures SameEntry(t[i], v[i]) {
      assert SameEntry(t[i], u[i]) && SameEntry(u[i], v[i]);
    }
  }

  /** Counts go up by the handles in `plus` and down by those in `minus`. */
  ghost predicate CountsMoved(t: seq<Entry>, u: seq<Entry>, plus: seq<nat>, minus: seq<nat>)
  {
    |t| == |u| && forall i {:trigger MovedAt(t, u, i, plus, minus)} :: MovedAt(t, u, i, plus, minus)
  }

  predicate MovedAt(t: seq<Entry>, u: seq<Entry>, i: int, plus: seq<nat>, minus: seq<nat>)
  {
    0 <= i < |t| && i < |u| && t[i].Entry? && !t[i].isWindow && u[i].Entry? ==>
      u[i].dependents + CountIn(minus, t[i].handle) == t[i].dependents + CountIn(plus, t[i].handle)
  }

  ghost predicate Moved(t: seq<Entry>, u: seq<Entry>, plus: seq<nat>, minus: seq<nat>)
  {
    SameButCounts(t, u) && CountsMoved(t, u, plus, minus)
  }

  lemma OneMoved(t: seq<Entry>, slot: nat, n: nat, plus: seq<nat>, minus: seq<nat>)
    requires Consistent(t) && slot < |t| && t[slot].Entry? && !t[slot].isWindow
    requires (plus, minus, n) == ([t[slot].handle], [], t[slot].dependents + 1) || (plus, minus, n) == ([], [t[slot].handle], t[slot].dependents - 1)
    ensures Moved(t, t[slot := t[slot].(dependents := n)], plus, minus)
  {
    var u := t[slot := t[slot].(dependents := n)];
    assert [] + [t[slot].handle] == [t[slot].handle];
    forall i ensures MovedAt(t, u, i, plus, minus) {
      if 0 <= i < |t| && t[i].Entry? {
        assert Distinct(t, i, slot);
        CountInSnoc([], t[slot].handle, t[i].handle);
      }
    }
  }

  lemma {:induction false} CountInAdds(a: seq<nat>, b: seq<nat>, h: nat)
    ensures CountIn(a + b, h) == CountIn(a, h) + CountIn(b, h)
  {
    if b == [] {
      assert a + b == a;
    } else {
      assert a + b == (a + b[..|b| - 1]) + [b[|b| - 1]];
      CountInSnoc(a + b[..|b| - 1], b[|b| - 1], h);
      CountInAdds(a, b[..|b| - 1], h);
    }
  }

  lemma MovedOn(t: seq<Entry>, u: seq<Entry>, v: seq<Entry>, plus: seq<nat>, minus: seq<nat>, more: seq<nat>, less: seq<nat>)
    requires Moved(t, u, plus, minus) && Moved(u, v, more, less)
    ensures Moved(t, v, plus + more, minus + less)
    ensures more == [] ==> plus + more == plus
    ensures less == [] ==> minus + less == minus
  {
    SameTransitive(t, u, v);
    forall i ensures MovedAt(t, v, i, plus + more, minus + less) {
      if 0 <= i < |t| && t[i].Entry? {
        assert MovedAt(t, u, i, plus, minus) && MovedAt(u, v, i, more, less);
        assert SameEntry(t[i], u[i]) && SameEntry(u[i], v[i]);
        CountInAdds(plus, more, t[i].handle);
        CountInAdds(minus, less, t[i].handle);
      }
    }
  }

  lemma SameIsLive(t: seq<Entry>, u: seq<Entry>, h: nat)
    requires SameButCounts(t, u) && LiveMr(t, h)
    ensures LiveMr(u, h)
  {
    var i :| IsMr(t, i, h);
    assert SameEntry(t[i], u[i]);
    assert IsMr(u, i, h);
  }

  lemma {:induction false} SameRefs(t: seq<Entry>, u: seq<Entry>, h: nat)
    requires SameButCounts(t, u)
    ensures Refs(t, h) == Refs(u, h)
  {
    if t != [] {
      var n := |t| - 1;
      assert SameEntry(t[n], u[n]);
      SameRefs(t[..n], u[..n], h);
    }
  }

  lemma SameEntries(t: seq<Entry>, u: seq<Entry>, i: nat)
    requires SameButCounts(t, u) && i < |t|
    ensures SameEntry(t[i], u[i])
  {
  }

  predicate Gone(table: seq<Entry>, handle: nat)
  {
    forall i :: 0 <= i < |table| && table[i].Entry? ==> table[i].handle != handle
  }

  /** `u` is `t` without the entry `handle`; the rest differs in reference counts at most. */
  ghost predicate Without(t: seq<Entry>, handle: nat, u: seq<Entry>)
  {
    |t| == |u| && forall i :: 0 <= i < |t| ==> if t[i].Entry? && t[i].handle == handle then u[i].Unused? else SameEntry(t[i], u[i])
  }

  lemma DropIsWithout(t: seq<Entry>, u: seq<Entry>, slot: nat, plus: seq<nat>, minus: seq<nat>)
    requires Consistent(t) && Moved(t, u, plus, minus) && slot < |t| && t[slot].Entry?
    ensures Without(t, t[slot].handle, u[slot := Unused]) && Gone(u[slot := Unused], t[slot].handle)
    ensures CountsMoved(t, u[slot := Unused], plus, minus)
  {
    forall i | 0 <= i < |t| ensures SameEntry(t[i], u[i]) && Distinct(t, i, slot) {}
    CountsMovedBut(t, u, slot, Unused, plus, minus);
  }

  /** Counts are counts of regions; what a window or an unused slot becomes does not matter. */
  lemma CountsMovedBut(t: seq<Entry>, u: seq<Entry>, slot: nat, e: Entry, plus: seq<nat>, minus: seq<nat>)
    requires CountsMoved(t, u, plus, minus) && slot < |t| && (e.Unused? || (t[slot].Entry? && t[slot].isWindow))
    ensures CountsMoved(t, u[slot := e], plus, minus)
  {
    var v := u[slot := e];
    forall i ensures MovedAt(t, v, i, plus, minus) {
      assert MovedAt(t, u, i, plus, minus);
    }
  }

  lemma NothingMoved(t: seq<Entry>)
    ensures Moved(t, t, [], [])
  {
  }

  /** Every entry has gained a dependent for each time it is named. */
  ghost predicate Tallied(t: seq<Entry>, u: seq<Entry>, handles: seq<nat>)
  {
    |t| == |u| && forall i {:trigger TalliedAt(t, u, i, handles)} :: TalliedAt(t, u, i, handles)
  }

  predicate TalliedAt(t: seq<Entry>, u: seq<Entry>, i: int, handles: seq<nat>)
  {
    0 <= i < |t| && i < |u| ==>
      u[i] == if t[i].Entry? then t[i].(dependents := t[i].dependents + CountIn(handles, t[i].handle)) else t[i]
  }

  lemma TallyOn(t: seq<Entry>, before: seq<Entry>, now: seq<Entry>, handles: seq<nat>, n: nat, slot: nat)
    requires Consistent(t) && n < |handles| && Tallied(t, before, handles[..n]) && slot <= |before|
    requires if slot == |before| then Gone(before, handles[n]) && now == before
             else before[slot].Entry? && before[slot].handle == handles[n] &&
                  now == before[slot := before[slot].(dependents := before[slot].dependents + 1)]
    ensures Tallied(t, now, handles[..n + 1])
  {
    var more := handles[..n + 1];
    assert more == handles[..n] + [handles[n]];
    forall i ensures TalliedAt(t, now, i, more) {
      assert TalliedAt(t, before, i, handles[..n]);
      if 0 <= i < |t| && t[i].Entry? {
        CountInSnoc(handles[..n], handles[n], t[i].handle);
        assert slot < |t| ==> TalliedAt(t, before, slot, handles[..n]) && Distinct(t, i, slot);
      }
    }
  }

  lemma TalliedMoves(t: seq<Entry>, u: seq<Entry>, handles: seq<nat>)
    requires Tallied(t, u, handles)
    ensures CountsMoved(t, u, handles, [])
  {
    forall i ensures MovedAt(t, u, i, handles, []) {
      assert TalliedAt(t, u, i, handles);
    }
  }

  /** If all that is named are regions, nothing but their counts changes. */
  lemma RegionsAreLive(t: seq<Entry>, handles: seq<nat>)
    ensures AllRegions(t, handles) <==> forall h :: h in handles ==> LiveMr(t, h)
  {
    forall h | h in handles ensures LiveMr(t, h) <==> exists i :: 0 <= i < |t| && IsMr(t, i, h) {}
  }

  lemma OnlyRegions(t: seq<Entry>, u: seq<Entry>, handles: seq<nat>)
    requires Consistent(t) && Tallied(t, u, handles) && AllRegions(t, handles)
    ensures Moved(t, u, handles, [])
  {
    TalliedMoves(t, u, handles);
    RegionsAreLive(t, handles);
    forall i | 0 <= i < |t| ensures SameEntry(t[i], u[i]) {
      assert TalliedAt(t, u, i, handles);
      if t[i].Entry? && t[i].isWindow {
        WindowIsNotLive(t, i);
        CountInZero(handles, t[i].handle);
      }
    }
  }

  lemma SameIsConsistent(t: seq<Entry>, u: seq<Entry>)
    requires Consistent(t) && SameButCounts(t, u)
    ensures Consistent(u)
  {
    forall j, h | IsMr(t, j, h) ensures IsMr(u, j, h) && u[j].pd == t[j].pd && u[j].start == t[j].start && u[j].length == t[j].length {
      assert SameEntry(t[j], u[j]);
    }
    forall j | 0 <= j < |u| && u[j].Entry?
      ensures t[j].Entry? && u[j].handle == t[j].handle && KeysMatch(u[j]) && BoundWithin(u, u[j]) && ChildrenLive(u, u[j])
    {
      assert SameEntry(t[j], u[j]) && KeysMatch(t[j]);
      assert BoundWithin(t, t[j]) && ChildrenLive(t, t[j]);
      BoundCarries(t, u, t[j]);
    }
    KeysCarry(t, u);
  }

  lemma SameIndexes(t: seq<Entry>, u: seq<Entry>, idx: map<u32, nat>, windows: bool)
    requires Indexes(t, idx, windows) && SameButCounts(t, u)
    ensures Indexes(u, idx, windows)
  {
    forall j ensures Leads(u, j, idx, windows) {
      assert Leads(t, j, idx, windows) && (0 <= j < |t| ==> SameEntry(t[j], u[j]));
    }
    forall k ensures LedTo(u, k, idx, windows) {
      assert LedTo(t, k, idx, windows) && (k in idx ==> SameEntry(t[idx[k]], u[idx[k]]));
    }
  }

  /** The books while the new references are counted but not yet there. */
  lemma CountedBooks(t: seq<Entry>, u: seq<Entry>, lidx: map<u32, nat>, ridx: map<u32, nat>, plus: seq<nat>, exact: bool)
    requires Books(t, lidx, ridx, [], [], exact) && Moved(t, u, plus, [])
    ensures Books(u, lidx, ridx, plus, [], exact)
  {
    SameIsConsistent(t, u);
    SameIndexes(t, u, lidx, false);
    SameIndexes(t, u, ridx, true);
    forall j | 0 <= j < |u| && u[j].Entry? && !u[j].isWindow ensures BalancedAt(u, j, plus, [], exact) {
      assert SameEntry(t[j], u[j]) && MovedAt(t, u, j, plus, []) && BalancedAt(t, j, [], [], exact);
      SameRefs(t, u, u[j].handle);
    }
  }

  lemma AddedIsRight(t: seq<Entry>, u: seq<Entry>, slot: nat, e: Entry, lidx: map<u32, nat>, ridx: map<u32, nat>, exact: bool)
    requires Books(t, lidx, ridx, [], [], exact) && slot < |t| && t[slot].Unused? && e.Entry? && KeysMatch(e) && !e.isWindow
    requires e.boundMr == 0 && e.dependents == 0 && Gone(t, e.handle) && Tallied(t, u, e.children) && AllRegions(t, e.children)
    ensures SameButCounts(t, u)
    ensures Books(u[slot := e], lidx[e.rkey := slot], ridx[e.rkey := slot], [], [], exact)
  {
    OnlyRegions(t, u, e.children);
    RegionsAreLive(t, e.children);
    CountedBooks(t, u, lidx, ridx, e.children, exact);
    SameIsFresh(t, u, e.handle);
    forall c | c in e.children ensures LiveMr(u, c) && c != e.handle {
      SameIsLive(t, u, c);
    }
    assert TalliedAt(t, u, slot, e.children);
    BooksAdd(u, slot, e, lidx, ridx, exact);
  }

  /** A child that is no region, or a range that wraps, leaves the table inconsistent. */
  lemma AddedIsWrong(t: seq<Entry>, u: seq<Entry>, slot: nat, e: Entry)
    requires Consistent(t) && slot < |t| && e.Entry? && Tallied(t, u, e.children)
    requires e.start + e.length >= U64 || !AllRegions(t, e.children)
    ensures !Consistent(u[slot := e])
  {
    var v := u[slot := e];
    assert v[slot] == e;
    RegionsAreLive(t, e.children);
    if e.start + e.length < U64 {
      var c :| c in e.children && !LiveMr(t, c);
      forall i | 0 <= i < |v| && i != slot ensures !IsMr(v, i, c) {
        assert TalliedAt(t, u, i, e.children) && !IsMr(t, i, c);
      }
      assert !ChildrenLive(v, v[slot]);
    } else {
      assert !KeysMatch(v[slot]);
    }
  }

  lemma Added(t: seq<Entry>, u: seq<Entry>, slot: nat, e: Entry, lidx: map<u32, nat>, ridx: map<u32, nat>, exact: bool)
    requires Books(t, lidx, ridx, [], [], exact) && slot < |t| && t[slot].Unused? && e.Entry? && !e.isWindow && Tallied(t, u, e.children)
    requires e.boundMr == 0 && e.dependents == 0 && Gone(t, e.handle)
    requires e.start + e.length < U64 ==> KeysMatch(e)
    ensures |u| == |t| && u[slot := e][slot := Unused] == u && CountsMoved(t, u, e.children, [])
    ensures e.start + e.length < U64 && AllRegions(t, e.children) <==> Books(u[slot := e], lidx[e.rkey := slot], ridx[e.rkey := slot], [], [], exact)
    ensures e.start + e.length < U64 && AllRegions(t, e.children) ==> SameButCounts(t, u)
  {
    TalliedMoves(t, u, e.children);
    assert TalliedAt(t, u, slot, e.children);
    if e.start + e.length < U64 && AllRegions(t, e.children) {
      AddedIsRight(t, u, slot, e, lidx, ridx, exact);
    } else {
      AddedIsWrong(t, u, slot, e);
    }
  }

  /** A key whose index no entry has is in neither hash index, and both have room for it. */
  lemma KeyIsFresh(table: seq<Entry>, slot: nat, key: u32, lidx: map<u32, nat>, ridx: map<u32, nat>)
    requires Leaves(table, lidx, ridx) && slot < |table| && Gone(table, KeyOwner(key)) && key % 256 != 0 && KeyOwner(key) < INDEX_LIMIT
    ensures key !in lidx && key !in ridx && |lidx| <= |table| && |ridx| <= |table|
  {
    var e := Region(0, 0, 0, NoAccess(), key, []);
    IndexAdd(table, slot, e, lidx, false);
    IndexAdd(table, slot, e, ridx, true);
    IndexRoom(table, lidx, false);
    IndexRoom(table, ridx, true);
  }

  lemma SameIsFresh(t: seq<Entry>, u: seq<Entry>, h: nat)
    requires SameButCounts(t, u) && Gone(t, h)
    ensures Gone(u, h)
  {
    forall i | 0 <= i < |u| && u[i].Entry? ensures u[i].handle != h {
      assert SameEntry(t[i], u[i]);
    }
  }

  /** What a window owes the counts: one dependent of its region. */
  function Debt(w: Entry): seq<nat>
    requires w.Entry?
  {
    if w.boundMr != 0 then [w.boundMr] else []
  }

  /** The region a window is charged to when it goes, if it has a dependent to lose. */
  ghost function Charged(table: seq<Entry>, h: nat): seq<nat>
  {
    if h != 0 && exists i :: CanPay(table, i, h) then [h] else []
  }

  predicate CanPay(table: seq<Entry>, i: int, h: nat)
  {
    IsMr(table, i, h) && table[i].dependents > 0
  }

  /** Every dependent of the region is somebody's reference. */
  predicate Spent(table: seq<Entry>, h: nat)
  {
    h != 0 && exists i :: 0 <= i < |table| && CanPay(table, i, h) && table[i].dependents == Refs(table, h)
  }

  /** A window has been charged to `h`, and leaves. */
  lemma ChargedBooks(t: seq<Entry>, u: seq<Entry>, slot: nat, h: nat, wasExact: bool, exact: bool)
    requires Consistent(t) && Balanced(t, [], [], wasExact) && slot < |t| && t[slot].Entry? && t[slot].isWindow
    requires Moved(t, u, [], Charged(t, h)) && exact == (wasExact && t[slot].boundMr == h)
    ensures Consistent(u)
    ensures Balanced(u[slot := Unused], [], [], exact) <==> !(t[slot].boundMr != h && Spent(t, h))
  {
    SameIsConsistent(t, u);
    var v := u[slot := Unused];
    assert SameEntry(t[slot], u[slot]) && KeysMatch(t[slot]);
    forall j | 0 <= j < |v| && v[j].Entry? && !v[j].isWindow
      ensures t[j].Entry?
      ensures BalancedAt(v, j, [], [], exact) <==> !(t[slot].boundMr != h && h == t[j].handle && h != 0 && t[j].dependents > 0 && t[j].dependents == Refs(t, h))
    {
      assert SameEntry(t[j], u[j]);
      ChargedAt(t, u, slot, h, j, wasExact, exact);
    }
    if t[slot].boundMr != h && Spent(t, h) {
      var i :| 0 <= i < |t| && CanPay(t, i, h) && t[i].dependents == Refs(t, h);
      assert SameEntry(t[i], u[i]) && !BalancedAt(v, i, [], [], exact);
    } else if t[slot].boundMr != h {
      forall j | 0 <= j < |v| && v[j].Entry? && !v[j].isWindow ensures BalancedAt(v, j, [], [], exact) {
        assert SameEntry(t[j], u[j]) && (h == t[j].handle && t[j].dependents > 0 ==> CanPay(t, j, h));
      }
    }
  }

  lemma ChargedAt(t: seq<Entry>, u: seq<Entry>, slot: nat, h: nat, j: nat, wasExact: bool, exact: bool)
    requires Consistent(t) && Balanced(t, [], [], wasExact) && slot < |t| && t[slot].Entry? && t[slot].isWindow
    requires Moved(t, u, [], Charged(t, h)) && exact == (wasExact && t[slot].boundMr == h)
    requires j < |u| && j < |t| && j != slot && u[j].Entry? && !u[j].isWindow && t[j].Entry? && t[j].handle == u[j].handle
    ensures BalancedAt(u[slot := Unused], j, [], [], exact) <==>
              !(t[slot].boundMr != h && h == t[j].handle && h != 0 && t[j].dependents > 0 && t[j].dependents == Refs(t, h))
  {
    var k := u[j].handle;
    assert SameEntry(t[j], u[j]) && SameEntry(t[slot], u[slot]) && MovedAt(t, u, j, [], Charged(t, h)) && BalancedAt(t, j, [], [], wasExact);
    SameRefs(t, u, k);
    RefsUpdate(u, slot, Unused, k);
    assert KeysMatch(t[slot]);
    WindowDebt(t[slot]);
    RefsAtLeast(t, slot, k);
    CountInSnoc([], h, k);
    assert [] + [h] == [h];
    if exists i :: CanPay(t, i, h) {
      var i :| CanPay(t, i, h);
      assert Distinct(t, i, j);
    }
    assert h == k && t[j].dependents > 0 ==> CanPay(t, j, h);
  }

  /** A region with no dependents is referred to by nobody. */
  lemma QuietHasNoRefs(table: seq<Entry>, handle: nat, exact: bool)
    requires Balanced(table, [], [], exact) && Quiet(table, handle)
    ensures Refs(table, handle) == 0
  {
    var i :| IsMr(table, i, handle) && table[i].dependents == 0;
    assert BalancedAt(table, i, [], [], exact);
  }

  lemma AfterChildren(t: seq<Entry>, u: seq<Entry>, slot: nat, exact: bool)
    requires SameButCounts(t, u) && slot < |t| && t[slot].Entry? && !t[slot].isWindow && Balanced(u, [], t[slot].children, exact)
    ensures u[slot].Entry? && u[slot].handle == t[slot].handle && !u[slot].isWindow
    ensures Balanced(u[slot := Unused], [], [], exact)
  {
    assert SameEntry(t[slot], u[slot]);
    BalancedDrop(u, slot, t[slot].children, exact);
  }

  lemma QuietOn(calls: seq<Call>, n: nat, t: seq<Entry>, u: seq<Entry>, v: seq<Entry>)
    requires n < |calls| && StaysQuiet(calls[..n], t, u) && QuietUnless(calls[n], u, v)
    ensures StaysQuiet(calls[..n + 1], t, v)
  {
    forall h | Spares(calls[..n + 1], h) && Quiet(t, h) ensures Quiet(v, h) {
      assert calls[..n + 1][n] == calls[n];
      assert forall i :: 0 <= i < n ==> calls[..n][i] == calls[..n + 1][i];
      assert Spares(calls[..n], h) && Quiet(u, h);
    }
  }

  lemma QuietPut(t: seq<Entry>, slot: nat, e: Entry)
    requires slot < |t| && t[slot].Unused?
    ensures forall h {:trigger Quiet(t, h)} {:trigger Quiet(t[slot := e], h)} :: Quiet(t, h) ==> Quiet(t[slot := e], h)
  {
    forall h: nat | Quiet(t, h) ensures Quiet(t[slot := e], h) {
      var i :| IsMr(t, i, h) && t[i].dependents == 0;
      assert IsMr(t[slot := e], i, h);
    }
  }

  lemma QuietMoved(t: seq<Entry>, u: seq<Entry>, plus: seq<nat>, minus: seq<nat>)
    requires Moved(t, u, plus, minus)
    ensures forall h {:trigger Quiet(t, h)} {:trigger Quiet(u, h)} :: h !in plus && Quiet(t, h) ==> Quiet(u, h)
  {
    forall h: nat | h !in plus && Quiet(t, h) ensures Quiet(u, h) {
      var i :| IsMr(t, i, h) && t[i].dependents == 0;
      CountInZero(plus, h);
      assert SameEntry(t[i], u[i]) && MovedAt(t, u, i, plus, minus);
      assert IsMr(u, i, h);
    }
  }

  lemma QuietAdded(t: seq<Entry>, u: seq<Entry>, slot: nat, children: seq<nat>)
    requires slot < |t| == |u| && t[slot].Unused? && Moved(t, u[slot := Unused], children, [])
    ensures forall h {:trigger Quiet(t, h)} {:trigger Quiet(u, h)} :: h !in children && Quiet(t, h) ==> Quiet(u, h)
  {
    QuietMoved(t, u[slot := Unused], children, []);
    QuietPut(u[slot := Unused], slot, u[slot]);
    assert u[slot := Unused][slot := u[slot]] == u;
  }

  lemma QuietWithout(t: seq<Entry>, u: seq<Entry>, handle: nat, minus: seq<nat>)
    requires Without(t, handle, u) && CountsMoved(t, u, [], minus)
    ensures QuietBut(handle, t, u)
  {
    forall h: nat | h != handle && Quiet(t, h) ensures Quiet(u, h) {
      var i :| IsMr(t, i, h) && t[i].dependents == 0;
      assert SameEntry(t[i], u[i]) && MovedAt(t, u, i, [], minus);
      assert IsMr(u, i, h);
    }
  }

  lemma QuietRebound(t: seq<Entry>, u: seq<Entry>, w: nat, mrHandle: nat)
    requires |t| == |u| && w < |t| && t[w].Entry? && t[w].isWindow && SameButCounts(t, u[w := t[w]])
    requires CountsMoved(t, u, Gains(t[w], mrHandle), Loses(t[w], mrHandle))
    ensures QuietBut(mrHandle, t, u)
  {
    forall h: nat | h != mrHandle && Quiet(t, h) ensures Quiet(u, h) {
      var i :| IsMr(t, i, h) && t[i].dependents == 0;
      CountInZero(Gains(t[w], mrHandle), h);
      assert SameEntry(t[i], u[w := t[w]][i]) && MovedAt(t, u, i, Gains(t[w], mrHandle), Loses(t[w], mrHandle));
      assert IsMr(u, i, h);
    }
  }

  lemma QuietForgets(t: seq<Entry>, slot: nat, e: Entry)
    requires slot < |t| && t[slot].Entry? && e == t[slot].(invalidated := true, boundMr := 0, boundQpn := 0)
    ensures forall h {:trigger Quiet(t, h)} {:trigger Quiet(t[slot := e], h)} :: Quiet(t, h) ==> Quiet(t[slot := e], h)
  {
    forall h: nat | Quiet(t, h) ensures Quiet(t[slot := e], h) {
      var i :| IsMr(t, i, h) && t[i].dependents == 0;
      assert IsMr(t[slot := e], i, h);
    }
  }

  /** Child `n` of a region has a reference for every copy among the first `n` and one more. */
  lemma ChildIsOwed(t: seq<Entry>, u: seq<Entry>, slot: nat, n: nat)
    requires Consistent(t) && SameButCounts(t, u) && slot < |t| && t[slot].Entry? && n < |t[slot].children|
    ensures LiveMr(u, t[slot].children[n])
    ensures Refs(u, t[slot].children[n]) > CountIn(t[slot].children[..n], t[slot].children[n])
  {
    var c := t[slot].children[n];
    assert ChildrenLive(t, t[slot]);
    SameIsLive(t, u, c);
    SameRefs(t, u, c);
    RefsAtLeast(t, slot, c);
    PrefixCounts(t[slot].children, n);
  }

  lemma {:induction false} PrefixCounts(s: seq<nat>, n: nat)
    requires n < |s|
    ensures CountIn(s[..n], s[n]) < CountIn(s, s[n])
  {
    var m := |s| - 1;
    if n < m {
      PrefixCounts(s[..m], n);
      assert s[..m][..n] == s[..n];
    }
  }

  /** A window's only reference is to the region it is bound to. */
  lemma WindowDebt(w: Entry)
    requires w.Entry? && w.isWindow && w.children == []
    ensures forall h :: RefsOf(w, h) == CountIn(Debt(w), h)
  {
    forall h ensures RefsOf(w, h) == CountIn(Debt(w), h) {
      CountInSnoc([], w.boundMr, h);
      assert [] + [w.boundMr] == [w.boundMr];
    }
  }

  /** An entry leaves after its references have been taken off the counts. */
  lemma BalancedDrop(table: seq<Entry>, slot: nat, minus: seq<nat>, exact: bool)
    requires Balanced(table, [], minus, exact) && slot < |table|
    requires forall h :: CountIn(minus, h) == RefsOf(table[slot], h)
    ensures Balanced(table[slot := Unused], [], [], exact)
  {
    var t := table[slot := Unused];
    forall j | 0 <= j < |t| && t[j].Entry? && !t[j].isWindow ensures BalancedAt(t, j, [], [], exact) {
      assert BalancedAt(table, j, [], minus, exact);
      RefsUpdate(table, slot, Unused, t[j].handle);
    }
  }

  /** A window that disappears with its reference still counted leaves the counts too high. */
  lemma ForgetWindow(table: seq<Entry>, slot: nat, exact: bool, wasExact: bool)
    requires Balanced(table, [], [], wasExact) && slot < |table| && table[slot].Entry? && table[slot].isWindow && table[slot].children == []
    requires exact ==> wasExact && table[slot].boundMr == 0
    ensures Balanced(table[slot := Unused], [], [], exact)
  {
    var t := table[slot := Unused];
    forall j | 0 <= j < |t| && t[j].Entry? && !t[j].isWindow ensures BalancedAt(t, j, [], [], exact) {
      assert BalancedAt(table, j, [], [], wasExact);
      RefsUpdate(table, slot, Unused, t[j].handle);
    }
  }

  lemma BalancedForget(table: seq<Entry>, i: nat, e: Entry, exact: bool, wasExact: bool)
    requires Balanced(table, [], [], wasExact) && i < |table| && table[i].Entry?
    requires e == table[i].(invalidated := true, boundMr := 0, boundQpn := 0)
    requires exact ==> wasExact && !(table[i].isWindow && table[i].boundMr != 0)
    ensures Balanced(table[i := e], [], [], exact)
  {
    var t := table[i := e];
    forall j | 0 <= j < |t| && t[j].Entry? && !t[j].isWindow ensures BalancedAt(t, j, [], [], exact) {
      assert BalancedAt(table, j, [], [], wasExact);
      RefsUpdate(table, i, e, t[j].handle);
    }
  }

  lemma BooksForget(table: seq<Entry>, i: nat, e: Entry, lidx: map<u32, nat>, ridx: map<u32, nat>, exact: bool, wasExact: bool)
    requires Books(table, lidx, ridx, [], [], wasExact) && i < |table| && table[i].Entry?
    requires e == table[i].(invalidated := true, boundMr := 0, boundQpn := 0)
    requires exact ==> wasExact && !(table[i].isWindow && table[i].boundMr != 0)
    ensures Books(table[i := e], lidx, ridx, [], [], exact)
  {
    assert KeysMatch(table[i]);
    ConsistentUpdate(table, i, e);
    BalancedForget(table, i, e, exact, wasExact);
    IndexesIgnoreRest(table, i, e, lidx, false);
    IndexesIgnoreRest(table, i, e, ridx, true);
  }

  lemma BalancedRebind(table: seq<Entry>, w: nat, e: Entry, exact: bool)
    requires w < |table| && table[w].Entry? && table[w].isWindow && e.Entry? && e.isWindow && e.boundMr != 0
    requires e.children == table[w].children == []
    requires Balanced(table, Gains(table[w], e.boundMr), Loses(table[w], e.boundMr), exact)
    ensures Balanced(table[w := e], [], [], exact)
  {
    var t := table[w := e];
    var plus, minus := Gains(table[w], e.boundMr), Loses(table[w], e.boundMr);
    WindowDebt(table[w]);
    WindowDebt(e);
    forall j | 0 <= j < |t| && t[j].Entry? && !t[j].isWindow ensures BalancedAt(t, j, [], [], exact) {
      RefsUpdate(table, w, e, t[j].handle);
      assert BalancedAt(table, j, plus, minus, exact);
    }
  }

  /** A window gets a new key of the same key index. */
  lemma IndexRekey(table: seq<Entry>, w: nat, e: Entry, lidx: map<u32, nat>, ridx: map<u32, nat>)
    requires Consistent(table) && Indexes(table, lidx, false) && Indexes(table, ridx, true)
    requires w < |table| && table[w].Entry? && table[w].isWindow && e.Entry? && e.isWindow && KeysMatch(e) && e.handle == table[w].handle
    ensures Indexes(table[w := e], lidx, false)
    ensures table[w].rkey in ridx && (e.rkey !in ridx || e.rkey == table[w].rkey)
    ensures Indexes(table[w := e], (ridx - {table[w].rkey})[e.rkey := w], true)
  {
    var t, jdx := table[w := e], (ridx - {table[w].rkey})[e.rkey := w];
    assert Leads(table, w, ridx, true);
    forall i ensures Leads(t, i, lidx, false) && Leads(t, i, jdx, true) {
      assert Leads(table, i, lidx, false) && Leads(table, i, ridx, true);
      KeysDiffer(table, i, w);
    }
    if e.rkey in ridx {
      assert LedTo(table, e.rkey, ridx, true);
      KeysDiffer(table, ridx[e.rkey], w);
    }
    forall k ensures LedTo(t, k, lidx, false) && LedTo(t, k, jdx, true) {
      assert LedTo(table, k, lidx, false) && LedTo(table, k, ridx, true);
      if k in ridx {
        KeysDiffer(table, ridx[k], w);
      }
    }
  }
}
