/** MlxUserClient.cpp: what a client owns and what it is charged for. The create and destroy
    methods of one client are serialized by its method lock, so each method here is one call.
    A handle argument of 0 stands for a token that does not resolve. */
module ClientQuota {
  import opened Words
  import DmaSegments

  datatype Kind = PD | QP | CQ | MR | MW | AH | GID

  datatype Code = Success | BadArgument | NotPermitted | NoResources | NoMemory | Busy | Failed

  /** RemoveOwned takes out the first record of a handle. */
  function Without(s: seq<nat>, h: nat): (t: seq<nat>)
    ensures h !in s ==> t == s
  {
    if s == [] then [] else if s[0] == h then s[1..] else [s[0]] + Without(s[1..], h)
  }

  lemma {:induction false} WithoutIsOneLess(s: seq<nat>, h: nat)
    ensures h in s ==> multiset(Without(s, h)) == multiset(s) - multiset{h} && |Without(s, h)| == |s| - 1
  {
    if s != [] {
      assert s == [s[0]] + s[1..];
      WithoutIsOneLess(s[1..], h);
    }
  }

  function Charged(s: seq<nat>, charge: map<nat, nat>): nat
  {
    if s == [] then 0 else (if s[0] in charge then charge[s[0]] else 0) + Charged(s[1..], charge)
  }

  lemma {:induction false} ChargedSnoc(s: seq<nat>, h: nat, charge: map<nat, nat>)
    ensures Charged(s + [h], charge) == Charged(s, charge) + if h in charge then charge[h] else 0
  {
    if s == [] {
      assert [] + [h] == [h] && [h][1..] == [];
    } else {
      assert (s + [h])[1..] == s[1..] + [h];
      ChargedSnoc(s[1..], h, charge);
    }
  }

  lemma {:induction false} ChargedWithout(s: seq<nat>, h: nat, charge: map<nat, nat>)
    requires h in s && h in charge
    ensures Charged(s, charge) == Charged(Without(s, h), charge) + charge[h]
  {
    if s[0] != h {
      ChargedWithout(s[1..], h, charge);
      assert ([s[0]] + Without(s[1..], h))[1..] == Without(s[1..], h);
    }
  }

  /** Charges of handles that are not in the list do not matter. */
  lemma {:induction false} ChargedElsewhere(s: seq<nat>, charge: map<nat, nat>, changed: map<nat, nat>)
    requires forall h :: h in s ==> (h in charge <==> h in changed) && (h in charge ==> charge[h] == changed[h])
    ensures Charged(s, charge) == Charged(s, changed)
  {
    if s != [] {
      ChargedElsewhere(s[1..], charge, changed);
    }
  }

  predicate NoDuplicates(s: seq<nat>)
  {
    s == [] || (s[0] !in s[1..] && NoDuplicates(s[1..]))
  }

  lemma {:induction false} NoDuplicatesWithout(s: seq<nat>, h: nat)
    requires NoDuplicates(s)
    ensures NoDuplicates(Without(s, h)) && h !in Without(s, h) && forall x :: x in Without(s, h) ==> x in s
  {
    if s != [] && s[0] != h {
      NoDuplicatesWithout(s[1..], h);
      assert ([s[0]] + Without(s[1..], h))[1..] == Without(s[1..], h);
    }
  }

  lemma {:induction false} NoDuplicatesSnoc(s: seq<nat>, h: nat)
    requires NoDuplicates(s) && h !in s
    ensures NoDuplicates(s + [h])
  {
    if s != [] {
      assert (s + [h])[1..] == s[1..] + [h];
      NoDuplicatesSnoc(s[1..], h);
    } else {
      assert ([] + [h])[1..] == [];
    }
  }

  // ---------------------------------------------------------------- the client

  /** A doorbell record for every QP and CQ, a memory key for every MR and MW. */
  predicate HasDb(k: Kind) { k.QP? || k.CQ? }
  predicate HasMkey(k: Kind) { k.MR? || k.MW? }

  function Len(owned: map<Kind, seq<nat>>, k: Kind): nat
  {
    if k in owned then |owned[k]| else 0
  }

  /** A reservation of kind `k` is open. */
  function Extra(open: Option<Kind>, k: Kind): nat
  {
    if open == Some(k) then 1 else 0
  }

  predicate KindOk(owned: map<Kind, seq<nat>>, quota: map<Kind, nat>, limits: map<Kind, nat>, k: Kind, extra: nat)
  {
    k in owned && k in quota && k in limits && quota[k] == |owned[k]| + extra <= limits[k]
  }

  /** Every counter equals what the ownership tables hold, within its limit; the counters of an
      open reservation stand one above. */
  ghost predicate CountersOk(owned: map<Kind, seq<nat>>, quota: map<Kind, nat>, db: nat, mkeys: nat,
                             limits: map<Kind, nat>, dbLimit: nat, open: Option<Kind>)
  {
    && (forall k: Kind {:trigger KindOk(owned, quota, limits, k, Extra(open, k))} :: KindOk(owned, quota, limits, k, Extra(open, k)))
    && db == Len(owned, QP) + Len(owned, CQ) + (if open.Some? && HasDb(open.value) then 1 else 0) <= dbLimit
    && MR in limits && mkeys == Len(owned, MR) + Len(owned, MW) + (if open.Some? && HasMkey(open.value) then 1 else 0) <= limits[MR]
  }

  /** The pinned bytes cover the owned regions, the lost ones and `extra`. */
  ghost predicate PinnedOk(regions: seq<nat>, charge: map<nat, nat>, pinned: nat, lost: nat, extra: nat)
  {
    && pinned == Charged(regions, charge) + lost + extra
    && (forall h :: h in regions ==> h in charge)
    && NoDuplicates(regions)
  }

  /** A region that leaves takes its charge along; one that comes back brings it. */
  lemma PinnedWithout(regions: seq<nat>, h: nat, charge: map<nat, nat>, pinned: nat, lost: nat)
    requires PinnedOk(regions, charge, pinned, lost, 0) && h in regions
    ensures h in charge && charge[h] <= pinned
    ensures PinnedOk(Without(regions, h), charge - {h}, pinned - charge[h], lost, 0)
    ensures PinnedOk(Without(regions, h) + [h], charge, pinned, lost, 0)
  {
    var rest := Without(regions, h);
    ChargedWithout(regions, h, charge);
    NoDuplicatesWithout(regions, h);
    ChargedElsewhere(rest, charge, charge - {h});
    ChargedSnoc(rest, h, charge);
    NoDuplicatesSnoc(rest, h);
  }

  /** The client holds what it held before; only the order of a table may differ. */
  ghost predicate SameHoldings(before: map<Kind, seq<nat>>, after: map<Kind, seq<nat>>)
  {
    forall k: Kind :: (k in before <==> k in after) && (k in before && k in after ==> multiset(before[k]) == multiset(after[k]))
  }

  /** One handle more, of one kind. */
  predicate Gained(before: map<Kind, seq<nat>>, after: map<Kind, seq<nat>>, k: Kind, h: nat)
  {
    k in before && after == before[k := before[k] + [h]]
  }

  /** One handle less, of one kind. */
  predicate Lost(before: map<Kind, seq<nat>>, after: map<Kind, seq<nat>>, k: Kind, h: nat)
  {
    k in before && h in before[k] && after == before[k := Without(before[k], h)]
  }

  lemma GoneAndBack(before: map<Kind, seq<nat>>, k: Kind, h: nat)
    requires k in before && h in before[k]
    ensures SameHoldings(before, before[k := Without(before[k], h) + [h]])
  {
    WithoutIsOneLess(before[k], h);
  }

  lemma ThereAndGone(before: map<Kind, seq<nat>>, k: Kind, h: nat)
    requires k in before
    ensures SameHoldings(before, before[k := Without(before[k] + [h], h)])
  {
    WithoutIsOneLess(before[k] + [h], h);
  }

  class Client {
    const limits: map<Kind, nat>
    const dbLimit: nat
    const pinLimit: u64
    const page: u64
    var owned: map<Kind, seq<nat>>
    var quota: map<Kind, nat>
    var dbRecords: nat
    var mkeys: nat
    var pinned: nat
    /** Environment: the regions in the MR table with the bytes each was charged. */
    var charge: map<nat, nat>
    var quarantined: bool
    /** Charges kept for regions the device may still reach after a failure. */
    ghost var lost: nat

    ghost predicate Counted(open: Option<Kind>)
      reads this
    {
      CountersOk(owned, quota, dbRecords, mkeys, limits, dbLimit, open)
    }

    ghost predicate Pinned(extra: nat)
      reads this
    {
      && MR in owned && PinnedOk(owned[MR], charge, pinned, lost, extra)
      && pinned <= pinLimit && (lost > 0 ==> quarantined)
    }

    ghost predicate Valid()
      reads this
    {
      Counted(None) && Pinned(0)
    }

    constructor (limits: map<Kind, nat>, dbLimit: nat, pinLimit: u64, page: u64)
      requires forall k: Kind :: k in limits
      ensures Valid() && (forall k: Kind :: k in owned && owned[k] == []) && charge == map[]
    {
      this.limits, this.dbLimit, this.pinLimit, this.page := limits, dbLimit, pinLimit, page;
      owned := map[PD := [], QP := [], CQ := [], MR := [], MW := [], AH := [], GID := []];
      quota := map[PD := 0, QP := 0, CQ := 0, MR := 0, MW := 0, AH := 0, GID := 0];
      dbRecords, mkeys, pinned, charge, quarantined, lost := 0, 0, 0, map[], false, 0;
      new;
      forall k: Kind ensures k in owned && owned[k] == [] && KindOk(owned, quota, limits, k, Extra(None, k)) {
        match k case PD => case QP => case CQ => case MR => case MW => case AH => case GID =>
      }
    }

    // -------------------------------------------------------------- counters

    /** One of the ceilings on kind `k` has been reached. */
    predicate Full(k: Kind)
      reads this
    {
      || (k in limits && Len(owned, k) == limits[k])
      || (HasDb(k) && Len(owned, QP) + Len(owned, CQ) == dbLimit)
      || (HasMkey(k) && MR in limits && Len(owned, MR) + Len(owned, MW) == limits[MR])
    }

    /** QuotaReserve, then QuotaReserveDb or QuotaReserveMkey; a refusal leaves no trace. */
    method Reserve(k: Kind) returns (ok: bool)
      requires Counted(None)
      modifies `quota, `dbRecords, `mkeys
      ensures Counted(if ok then Some(k) else None)
      ensures !ok ==> Full(k)
    {
      assert KindOk(owned, quota, limits, k, Extra(None, k));
      if quota[k] >= limits[k] {
        return false;
      }
      ghost var before := quota;
      quota := quota[k := quota[k] + 1];
      if HasDb(k) {
        if dbRecords >= dbLimit {
          quota := quota[k := quota[k] - 1];
          assert quota == before;
          return false;
        }
        dbRecords := dbRecords + 1;
      }
      if HasMkey(k) {
        if mkeys >= limits[MR] {
          quota := quota[k := quota[k] - 1];
          assert quota == before;
          return false;
        }
        mkeys := mkeys + 1;
      }
      forall j: Kind ensures KindOk(owned, quota, limits, j, Extra(Some(k), j)) {
        assert KindOk(owned, before, limits, j, Extra(None, j));
      }
      return true;
    }

    /** QuotaRelease of a kind and of its second counter. A reservation is open, so no guarded
        decrement is skipped. */
    method Release(k: Kind)
      requires Counted(Some(k))
      modifies `quota, `dbRecords, `mkeys
      ensures Counted(None)
    {
      ghost var before := quota;
      assert KindOk(owned, quota, limits, k, Extra(Some(k), k));
      if HasMkey(k) && mkeys > 0 {
        mkeys := mkeys - 1;
      }
      if HasDb(k) && dbRecords > 0 {
        dbRecords := dbRecords - 1;
      }
      if quota[k] > 0 {
        quota := quota[k := quota[k] - 1];
      }
      forall j: Kind ensures KindOk(owned, quota, limits, j, Extra(None, j)) {
        assert KindOk(owned, before, limits, j, Extra(Some(k), j));
      }
    }

    /** AddOwned: the array may fail to grow. */
    method AddOwned(k: Kind, h: nat) returns (added: bool)
      requires Counted(Some(k))
      modifies `owned
      ensures added ==> Gained(old(owned), owned, k, h) && Counted(None)
      ensures !added ==> owned == old(owned)
    {
      added := *;
      if added {
        PutBack(k, h);
      }
    }

    /** RemoveOwned: the reservation it leaves open is released, or the handle added again. */
    method RemoveOwned(k: Kind, h: nat) returns (found: bool)
      requires Counted(None)
      modifies `owned
      ensures found == (k in old(owned) && h in old(owned)[k])
      ensures found ==> Lost(old(owned), owned, k, h) && Counted(Some(k))
      ensures !found ==> owned == old(owned)
    {
      assert KindOk(owned, quota, limits, k, Extra(None, k));
      found := h in owned[k];
      if found {
        ghost var before := owned;
        WithoutIsOneLess(owned[k], h);
        owned := owned[k := Without(owned[k], h)];
        forall j: Kind ensures KindOk(owned, quota, limits, j, Extra(Some(k), j)) {
          assert KindOk(before, quota, limits, j, Extra(None, j));
        }
      }
    }

    /** A handle goes back after its destroy has failed; this is assumed to succeed. */
    method PutBack(k: Kind, h: nat)
      requires Counted(Some(k))
      modifies `owned
      ensures Gained(old(owned), owned, k, h) && Counted(None)
    {
      assert KindOk(owned, quota, limits, k, Extra(Some(k), k));
      ghost var before := owned;
      owned := owned[k := owned[k] + [h]];
      forall j: Kind ensures KindOk(owned, quota, limits, j, Extra(None, j)) {
        assert KindOk(before, quota, limits, j, Extra(Some(k), j));
      }
    }

    /** All kinds have a table. */
    lemma HasTables(open: Option<Kind>)
      requires Counted(open)
      ensures forall k: Kind :: k in owned
    {
      forall k: Kind ensures k in owned {
        assert KindOk(owned, quota, limits, k, Extra(open, k));
      }
    }

    // -------------------------------------------------------------- creating

    /** CreateQP, CreateCQ, AllocMW: reserve, have the driver create, mint a token, record the
        owner; every failure gives the reservation back. `allowed` stands for the argument and
        ownership checks. */
    method Create(k: Kind, allowed: bool) returns (code: Code, h: nat)
      requires Valid() && (k.QP? || k.CQ? || k.MW?)
      modifies this
      ensures Valid() && charge == old(charge) && pinned == old(pinned)
      ensures if code.Success? then Gained(old(owned), owned, k, h) else owned == old(owned)
      ensures !allowed <==> code.NotPermitted?
      ensures code.NoResources? ==> Full(k)
    {
      h := 0;
      if !allowed {
        return NotPermitted, 0;
      }
      var ok := Reserve(k);
      if !ok {
        return NoResources, 0;
      }
      var created: bool, token: bool, raw: nat := *, *, *;
      if !created {
        Release(k);
        return Failed, 0;
      }
      var added := false;
      if token {
        added := AddOwned(k, raw);
      }
      if !added {
        Release(k);
        return NoMemory, 0;
      }
      return Success, raw;
    }

    /** AllocPD records the owner before it mints the token. */
    method AllocPd() returns (code: Code, h: nat)
      requires Valid()
      modifies this
      ensures Valid() && charge == old(charge) && pinned == old(pinned)
      ensures if code.Success? then Gained(old(owned), owned, PD, h) && h != 0 else SameHoldings(old(owned), owned)
    {
      h := 0;
      var ok := Reserve(PD);
      if !ok {
        return NoResources, 0;
      }
      var created: bool, token: bool, raw: nat := *, *, *;
      if !created || raw == 0 {
        Release(PD);
        return if created then NoMemory else Failed, 0;
      }
      var added := AddOwned(PD, raw);
      if !added {
        Release(PD);
        return NoMemory, 0;
      }
      if !token {
        var found := RemoveOwned(PD, raw);
        Release(PD);
        ThereAndGone(old(owned), PD, raw);
        return NoMemory, 0;
      }
      return Success, raw;
    }

    /** CreateAH and GetGidIndex: no token. */
    method CreateUnnamed(k: Kind) returns (code: Code, h: nat)
      requires Valid() && (k.AH? || k.GID?)
      modifies this
      ensures Valid() && charge == old(charge) && pinned == old(pinned)
      ensures if code.Success? then Gained(old(owned), owned, k, h) else owned == old(owned)
    {
      h := 0;
      var ok := Reserve(k);
      if !ok {
        return NoResources, 0;
      }
      var created: bool, raw: nat := *, *;
      if !created {
        Release(k);
        return if k.GID? then NoResources else Failed, 0;
      }
      var added := AddOwned(k, raw);
      if !added {
        Release(k);
        return NoMemory, 0;
      }
      return Success, raw;
    }

    // -------------------------------------------------------------- destroying

    /** DestroyQP, DestroyCQ, DeallocMW, DestroyAH, DelGid. `inUse` stands for DestroyCQ's search
        for a queue pair that still uses it. */
    method Destroy(k: Kind, h: nat, inUse: bool) returns (code: Code)
      requires Valid() && !k.PD? && !k.MR? && (inUse ==> k.CQ?)
      modifies this
      ensures Valid() && charge == old(charge) && pinned == old(pinned)
      ensures if code.Success? then Lost(old(owned), owned, k, h) else SameHoldings(old(owned), owned)
      ensures h == 0 && !k.AH? && !k.GID? ==> code.NotPermitted?
      ensures inUse ==> !code.Success?
    {
      if h == 0 && !k.AH? && !k.GID? {
        return NotPermitted;
      }
      var found := RemoveOwned(k, h);
      if !found {
        return NotPermitted;
      }
      var destroyed: bool := *;
      GoneAndBack(old(owned), k, h);
      var ok := Settle(k, h, !inUse && destroyed);
      return if ok then Success else if inUse then Busy else Failed;
    }

    /** After the driver's destroy: the reservation is released, or the handle goes back. */
    method Settle(k: Kind, h: nat, destroyed: bool) returns (ok: bool)
      requires Counted(Some(k)) && k in owned
      modifies `owned, `quota, `dbRecords, `mkeys
      ensures Counted(None) && ok == destroyed
      ensures owned == if destroyed then old(owned) else old(owned)[k := old(owned)[k] + [h]]
    {
      if destroyed {
        Release(k);
      } else {
        PutBack(k, h);
      }
      return destroyed;
    }

    /** DeallocPD looks for users of the domain before it gives it up. */
    method DeallocPd(h: nat, inUse: bool) returns (code: Code)
      requires Valid()
      modifies this
      ensures Valid() && charge == old(charge) && pinned == old(pinned)
      ensures if code.Success? then Lost(old(owned), owned, PD, h) else SameHoldings(old(owned), owned)
      ensures inUse ==> !code.Success? && owned == old(owned)
    {
      HasTables(None);
      if h == 0 || h !in owned[PD] {
        return NotPermitted;
      }
      if inUse {
        return Busy;
      }
      var found := RemoveOwned(PD, h);
      if !found {
        return NotPermitted;
      }
      var destroyed: bool := *;
      GoneAndBack(old(owned), PD, h);
      var ok := Settle(PD, h, destroyed);
      return if ok then Success else Failed;
    }

    /** SetGid: when the firmware readback fails the index is given up. */
    method SetGid(index: nat, wellFormed: bool) returns (code: Code)
      requires Valid()
      modifies this
      ensures Valid() && charge == old(charge) && pinned == old(pinned)
      ensures if code.Failed? then Lost(old(owned), owned, GID, index) else owned == old(owned)
    {
      HasTables(None);
      if index !in owned[GID] {
        return NotPermitted;
      }
      if !wellFormed {
        return BadArgument;
      }
      var readBack: bool := *;
      if readBack {
        return Success;
      }
      var found := RemoveOwned(GID, index);
      Release(GID);
      return Failed;
    }

    // -------------------------------------------------------------- memory regions

    /** RegMR. The worst-case footprint is charged first and taken back on every failure, unless
        the device may still reach the memory. */
    method RegMr(pdOwned: bool, start: u64, length: u64) returns (code: Code, h: nat)
      requires Valid()
      modifies this
      ensures Valid()
      ensures if code.Success? then Gained(old(owned), owned, MR, h) && h !in old(charge) else owned == old(owned)
      ensures code.Success? ==> charge == old(charge)[h := DmaSegments.PinnedCharge(length, page)]
      ensures code.Success? ==> pinned == old(pinned) + DmaSegments.PinnedCharge(length, page) >= old(pinned) + length
      ensures !code.Success? && !quarantined ==> pinned == old(pinned) && charge == old(charge)
      ensures !pdOwned || start == 0 || length == 0 || start + length >= U64 ==> code.BadArgument?
    {
      h := 0;
      if !pdOwned || start == 0 || length == 0 || start + length >= U64 {
        return BadArgument, 0;
      }
      var bytes := DmaSegments.PinnedCharge(length, page);
      if !DmaSegments.BytesCanReserve(pinned, bytes, pinLimit) {
        return NoResources, 0;
      }
      DmaSegments.PinnedChargeIsWorstCase(length, page);
      pinned := pinned + bytes;
      var ok := Reserve(MR);
      if !ok {
        pinned := pinned - bytes;
        return NoResources, 0;
      }
      var keep;
      code, h, keep := Register(bytes);
      if keep {
        lost := lost + if code.Success? then 0 else bytes;
      } else {
        pinned := pinned - bytes;
      }
    }

    /** The part of RegMR from the memory descriptor on; `keep` is commit(). */
    method Register(bytes: nat) returns (code: Code, h: nat, keep: bool)
      requires Counted(Some(MR)) && Pinned(bytes) && bytes > 0
      modifies this
      ensures Counted(None) && pinned == old(pinned) && lost == old(lost)
      ensures code.Success? ==> keep && Pinned(0) && Gained(old(owned), owned, MR, h) && h !in old(charge) && charge == old(charge)[h := bytes]
      ensures !code.Success? ==> Pinned(bytes) && owned == old(owned) && (keep ==> quarantined)
      ensures !code.Success? && !quarantined ==> charge == old(charge)
    {
      h, keep := 0, false;
      var mapped: bool, registered: bool, token: bool, raw: nat := *, *, *, *;
      if !mapped {
        Release(MR);
        return NoMemory, 0, false;
      }
      if !registered || raw in charge {
        var now: bool := *;
        quarantined := quarantined || now;
        Release(MR);
        return Failed, 0, quarantined;
      }
      ghost var known := charge;
      charge := charge[raw := bytes];
      ChargedElsewhere(owned[MR], known, charge);
      var added := false;
      if token {
        added := AddOwned(MR, raw);
      }
      if !added {
        var dropped: bool := *;
        if dropped {
          charge := charge - {raw};
          assert charge == known;
        } else {
          quarantined := true;
          keep := true;
        }
        Release(MR);
        return NoMemory, 0, keep;
      }
      ChargedSnoc(old(owned[MR]), raw, charge);
      NoDuplicatesSnoc(old(owned[MR]), raw);
      return Success, raw, true;
    }

    /** RegMRIndirect pins nothing. */
    method RegMrIndirect(allowed: bool) returns (code: Code, h: nat)
      requires Valid()
      modifies this
      ensures Valid() && pinned == old(pinned)
      ensures if code.Success? then Gained(old(owned), owned, MR, h) && charge == old(charge)[h := 0] else owned == old(owned)
      ensures !allowed ==> !code.Success?
    {
      h := 0;
      if !allowed {
        return NotPermitted, 0;
      }
      var ok := Reserve(MR);
      if !ok {
        return NoResources, 0;
      }
      var registered: bool, token: bool, raw: nat := *, *, *;
      if !registered || raw in charge {
        Release(MR);
        return Failed, 0;
      }
      ghost var known := charge;
      charge := charge[raw := 0];
      ChargedElsewhere(owned[MR], known, charge);
      var added := false;
      if token {
        added := AddOwned(MR, raw);
      }
      if !added {
        Release(MR);
        return NoMemory, 0;
      }
      ChargedSnoc(old(owned[MR]), raw, charge);
      NoDuplicatesSnoc(old(owned[MR]), raw);
      return Success, raw;
    }

    /** DeregMR gives back what the region was charged; the subtraction never goes below zero. */
    method DeregMr(h: nat) returns (code: Code)
      requires Valid()
      modifies this
      ensures Valid()
      ensures if code.Success? then Lost(old(owned), owned, MR, h) else SameHoldings(old(owned), owned) && charge == old(charge)
      ensures code.Success? ==> h in old(charge) && pinned + old(charge)[h] == old(pinned)
    {
      if h == 0 {
        return NotPermitted;
      }
      var found := RemoveOwned(MR, h);
      if !found {
        return NotPermitted;
      }
      var bytes := charge[h];
      PinnedWithout(old(owned[MR]), h, charge, pinned, lost);
      var destroyed: bool := *;
      GoneAndBack(old(owned), MR, h);
      var ok := Settle(MR, h, destroyed);
      if !ok {
        return Failed;
      }
      charge := charge - {h};
      pinned := pinned - bytes;
      return Success;
    }
  }

  // ---------------------------------------------------------------- the device

  /** MlxDMA.cpp: the same accounting over all clients. `pins` are the requests that hold a
      charge, `kept` what quarantine took over with its charge still on the books. */
  class DevicePins {
    const limit: u64
    const page: u64
    var pinnedBytes: nat
    var peakPinnedBytes: nat
    var pinFailures: nat
    ghost var pins: seq<nat>
    ghost var charge: map<nat, nat>
    ghost var kept: nat

    ghost predicate Valid()
      reads this
    {
      && PinnedOk(pins, charge, pinnedBytes, kept, 0) && charge.Keys == (set h | h in pins)
      && pinnedBytes <= peakPinnedBytes <= limit
    }

    constructor (limit: u64, page: u64)
      ensures Valid() && pins == [] && kept == 0
    {
      this.limit, this.page := limit, page;
      pinnedBytes, peakPinnedBytes, pinFailures := 0, 0, 0;
      pins, charge, kept := [], map[], 0;
    }

    /** The charge of Pin, before anything is mapped: taken exactly when it fits under the limit. */
    method Charge(memLen: u64, ghost id: nat) returns (allowed: bool, chargedBytes: nat)
      requires Valid() && id !in pins
      modifies this
      ensures Valid() && kept == old(kept)
      ensures var bytes := DmaSegments.PinnedCharge(memLen, page);
              allowed <==> bytes > 0 && old(pinnedBytes) + bytes <= limit
      ensures if allowed then pins == old(pins) + [id] && charge == old(charge)[id := chargedBytes] &&
                              chargedBytes == DmaSegments.PinnedCharge(memLen, page) && pinnedBytes == old(pinnedBytes) + chargedBytes
              else pins == old(pins) && charge == old(charge) && pinnedBytes == old(pinnedBytes) && pinFailures == old(pinFailures) + 1
      ensures peakPinnedBytes == if pinnedBytes > old(peakPinnedBytes) then pinnedBytes else old(peakPinnedBytes)
    {
      chargedBytes := DmaSegments.PinnedCharge(memLen, page);
      allowed := DmaSegments.BytesCanReserve(pinnedBytes, chargedBytes, limit);
      if allowed {
        pinnedBytes := pinnedBytes + chargedBytes;
        if pinnedBytes > peakPinnedBytes {
          peakPinnedBytes := pinnedBytes;
        }
        ghost var known := charge;
        charge := charge[id := chargedBytes];
        ChargedElsewhere(pins, known, charge);
        ChargedSnoc(pins, id, charge);
        NoDuplicatesSnoc(pins, id);
        pins := pins + [id];
      } else {
        pinFailures := pinFailures + 1;
      }
    }

    /** The accounting of Unpin: the charge comes off the books unless quarantine keeps the
        mapping, and never takes them below what is still pinned. */
    method Discharge(ghost id: nat, chargedBytes: nat, keep: bool)
      requires Valid() && id in pins && chargedBytes == charge[id]
      modifies this
      ensures Valid() && pins == Without(old(pins), id) && charge == old(charge) - {id}
      ensures pinnedBytes == old(pinnedBytes) - (if keep then 0 else chargedBytes) && pinnedBytes >= Charged(pins, charge)
      ensures kept == old(kept) + if keep then chargedBytes else 0
      ensures peakPinnedBytes == old(peakPinnedBytes)
    {
      PinnedWithout(pins, id, charge, pinnedBytes, kept);
      NoDuplicatesWithout(pins, id);
      WithoutIsOneLess(pins, id);
      WithoutKeepsOthers(pins, id);
      if chargedBytes != 0 && !keep {
        pinnedBytes := pinnedBytes - chargedBytes;
      }
      kept := kept + if keep then chargedBytes else 0;
      pins := Without(pins, id);
      charge := charge - {id};
    }
  }

  lemma {:induction false} WithoutKeepsOthers(s: seq<nat>, h: nat)
    ensures forall x :: x in s && x != h ==> x in Without(s, h)
  {
    if s != [] && s[0] != h {
      WithoutKeepsOthers(s[1..], h);
    }
  }
}
