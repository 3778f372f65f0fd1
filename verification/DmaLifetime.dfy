/** When a DMA mapping may be completed: MlxCmd::Exec's result codes, the create and destroy
    paths of CQs, EQs, memory regions and mailbox chains, and the quarantine registry. `reach`
    is what the device may still access. Completing a mapping demands, as a precondition,
    that the device cannot reach it; every caller below proves that. */
module DmaLifetime {
  import opened Words

  type MapId = nat

  datatype Status = Live | Completed | Retained

  datatype Code = Success | Timeout | NotReady | BadArgument | Busy | NoMemory | NoSpace | NoResources | Unsupported | NotFound | IOError

  /** Who is responsible for a mapping that is neither completed nor retained. */
  datatype Place = InCq(n: nat) | InEq(n: nat) | InMr(n: nat) | InChain(slot: nat) | Local

  datatype Eq = Eq(map_: MapId, eqn: nat)

  /** What becomes of a command after the doorbell. */
  datatype Reaction = Silent | Undelivered(status: nat) | Answered(outbox: nat)

  /** ExecOnSlot's translation of the firmware outbox status. */
  function OutboxCode(status: nat): Code
  {
    match status
    case 0 => Success
    case 2 => Unsupported
    case 3 => BadArgument
    case 5 => BadArgument
    case 9 => BadArgument
    case 0x0a => BadArgument
    case 0x10 => BadArgument
    case 0x30 => BadArgument
    case 0x40 => BadArgument
    case 6 => Busy
    case 8 => NoResources
    case 4 => NotReady
    case 0x0f => NoSpace
    case _ => IOError
  }

  /** Only status 0 is reported as success. */
  lemma OnlyZeroSucceeds(status: nat)
    ensures OutboxCode(status).Success? <==> status == 0
    ensures !OutboxCode(status).Timeout?
  {
  }

  /** The hypothesis of `Run` is needed: a run of two calls after which the device can reach a
      completed ring. */
  method RingCompletedUnderDevice() returns (d: Driver, ring: MapId)
    ensures fresh(d) && d.Valid() && d.eqNumbers == [0]
    ensures ring in d.status && d.status[ring].Completed? && ring in d.reach
  {
    d := new Driver();
    var code := d.CreateEqWith(0, true, Busy, Answered(0), 0);
    ring := d.eqs[0].map_;
    d.FreeEq(0);
  }

  class Driver {
    var quarantined: bool
    var status: map<MapId, Status>
    var next: MapId
    var cqs: map<nat, MapId>
    var eqs: map<nat, Eq>
    var mrs: map<nat, MapId>
    var chains: map<nat, seq<MapId>>
    ghost var reach: set<MapId>
    ghost var place: map<MapId, Place>
    /** The numbers firmware gave to EQs, and the rings of those it numbered 0. */
    ghost var eqNumbers: seq<nat>
    ghost var mistaken: set<MapId>

    /** Safety, plus what the code relies on to keep it. */
    ghost predicate Valid()
      reads this
    {
      && (forall m :: m in status ==> m < next)
      && (forall m :: m in reach ==> m in status && (status[m].Completed? ==> m in mistaken))
      && (forall m :: m in mistaken ==> m in status)
      && (mistaken != {} ==> 0 in eqNumbers)
      && (forall m :: m in status && status[m].Retained? ==> quarantined)
      && (forall m :: m in place <==> m in status && status[m].Live?)
      && (forall n :: n in cqs ==> cqs[n] in place && place[cqs[n]] == InCq(n))
      && (forall n :: n in mrs ==> mrs[n] in place && place[mrs[n]] == InMr(n))
      && (forall n :: n in eqs ==> eqs[n].map_ in place && place[eqs[n].map_] == InEq(n))
      && (forall n :: n in eqs && eqs[n].eqn == 0 && !quarantined ==> eqs[n].map_ !in reach || eqs[n].map_ in mistaken)
      && (forall s :: s in chains ==> ChainPlaced(s))
      && (forall m :: m in place && place[m].InChain? && !quarantined ==> m !in reach)
    }

    ghost predicate ChainPlaced(s: nat)
      reads this
      requires s in chains
    {
      && (forall i :: 0 <= i < |chains[s]| ==> chains[s][i] in place && place[chains[s][i]] == InChain(s))
      && (forall i, j :: 0 <= i < j < |chains[s]| ==> chains[s][i] != chains[s][j])
    }

    /** A mapping held only by the running call. */
    ghost predicate Mine(m: MapId)
      reads this
    {
      m in place && place[m] == Local
    }

    constructor ()
      ensures Valid() && status == map[] && eqs == map[] && eqNumbers == [] && !quarantined
    {
      quarantined, status, next := false, map[], 0;
      cqs, eqs, mrs, chains := map[], map[], map[], map[];
      reach, place, eqNumbers, mistaken := {}, map[], [], {};
    }

    // -------------------------------------------------------------- primitives

    /** mlxPrepareDma. */
    method Map() returns (m: MapId)
      requires Valid()
      modifies `status, `next, `place
      ensures Valid() && Mine(m) && m !in reach && m !in old(status) && m !in mistaken && status == old(status)[m := Live]
      ensures place == old(place)[m := Local]
    {
      m := next;
      next := next + 1;
      status := status[m := Live];
      place := place[m := Local];
    }

    /** mlxCompleteDma: the device must not be able to reach the mapping. The ring of an EQ that
        firmware numbered 0 is the one exception. */
    method CompleteDma(m: MapId)
      requires Valid() && Mine(m)
      requires m !in reach || m in mistaken
      modifies `status, `place
      ensures Valid() && status == old(status)[m := Completed] && place == old(place) - {m}
    {
      status := status[m := Completed];
      place := place - {m};
    }

    /** RetainDmaUntilReset: quarantine, then hand the mapping to the registry. */
    method Retain(m: MapId)
      requires Valid() && Mine(m)
      modifies `status, `place, `quarantined
      ensures Valid() && quarantined && status == old(status)[m := Retained] && place == old(place) - {m}
    {
      quarantined := true;
      status := status[m := Retained];
      place := place - {m};
    }

    /** The registry's release and the end of PerformFlr: only after the device and its
        firmware have been seen alive again, so nothing reaches host memory any more. */
    method VerifiedReset()
      requires Valid()
      modifies `status, `quarantined, `reach
      ensures Valid() && !quarantined && reach == {}
      ensures status.Keys == old(status).Keys
      ensures forall m :: m in status ==>
                status[m] == if old(status)[m].Retained? then Completed else old(status)[m]
    {
      reach := {};
      status := map m | m in status :: if status[m].Retained? then Completed else status[m];
      quarantined := false;
    }

    /** Other threads: the device may be quarantined or reset between any two steps. */
    method Interfere()
      requires Valid()
      modifies `status, `quarantined, `reach
      ensures Valid() && status.Keys == old(status).Keys && reach <= old(reach)
      ensures old(quarantined) && !quarantined ==> reach == {}
      ensures forall m :: m in place <==> m in old(place)
    {
      var reset: bool, trouble: bool := *, *;
      if reset {
        VerifiedReset();
      }
      if trouble {
        quarantined := true;
      }
    }

    /** MlxDMA::Unpin; CreateCQ's failure path takes the same decision. */
    method Unpin(m: MapId)
      requires Valid() && Mine(m)
      requires quarantined || m !in reach
      modifies `status, `place, `quarantined
      ensures Valid() && place == old(place) - {m}
      ensures old(quarantined) ==> status == old(status)[m := Retained]
      ensures !old(quarantined) ==> status == old(status)[m := Completed]
    {
      if quarantined {
        Retain(m);
      } else {
        CompleteDma(m);
      }
    }

    // A mapping moves between the running call and the structure that keeps it.

    method KeepCq(n: nat, m: MapId)
      requires Valid() && Mine(m) && n !in cqs
      modifies `cqs, `place
      ensures Valid() && cqs == old(cqs)[n := m] && place == old(place)[m := InCq(n)]
    {
      cqs := cqs[n := m];
      place := place[m := InCq(n)];
    }

    method DetachCq(n: nat) returns (m: MapId)
      requires Valid() && n in cqs
      modifies `cqs, `place
      ensures Valid() && Mine(m) && m == old(cqs)[n] && cqs == old(cqs) - {n} && place == old(place)[m := Local]
    {
      m := cqs[n];
      cqs := cqs - {n};
      place := place[m := Local];
    }

    method KeepMr(n: nat, m: MapId)
      requires Valid() && Mine(m) && n !in mrs
      modifies `mrs, `place
      ensures Valid() && mrs == old(mrs)[n := m] && place == old(place)[m := InMr(n)]
    {
      mrs := mrs[n := m];
      place := place[m := InMr(n)];
    }

    method DetachMr(n: nat) returns (m: MapId)
      requires Valid() && n in mrs
      modifies `mrs, `place
      ensures Valid() && Mine(m) && m == old(mrs)[n] && mrs == old(mrs) - {n} && place == old(place)[m := Local]
    {
      m := mrs[n];
      mrs := mrs - {n};
      place := place[m := Local];
    }

    method KeepEq(n: nat, m: MapId, eqn: nat)
      requires Valid() && Mine(m) && n !in eqs && (eqn == 0 && !quarantined ==> m !in reach || m in mistaken)
      modifies `eqs, `place
      ensures Valid() && eqs == old(eqs)[n := Eq(m, eqn)] && place == old(place)[m := InEq(n)]
    {
      eqs := eqs[n := Eq(m, eqn)];
      place := place[m := InEq(n)];
    }

    method DetachEq(n: nat) returns (e: Eq)
      requires Valid() && n in eqs
      modifies `eqs, `place
      ensures Valid() && Mine(e.map_) && e == old(eqs)[n] && eqs == old(eqs) - {n}
    {
      e := eqs[n];
      eqs := eqs - {n};
      place := place[e.map_ := Local];
    }

    // -------------------------------------------------------------- commands

    /** MlxCmd::Exec for a command that gives the device `exposes` and, if it succeeds, takes
        `withdraws` away. The key fact: a failure that leaves the device unquarantined has
        changed nothing, because the doorbell was not rung or firmware said no. */
    method Exec(ghost exposes: set<MapId>, ghost withdraws: set<MapId>) returns (code: Code)
      requires Valid() && forall m :: m in exposes ==> Exposable(m)
      modifies `quarantined, `reach, `status
      ensures Valid() && status.Keys == old(status).Keys
      ensures code.Success? ==> reach <= old(reach) + exposes - withdraws
      ensures !code.Success? ==> reach <= old(reach) + exposes
      ensures !code.Success? && !quarantined ==> reach <= old(reach)
      ensures code.Timeout? ==> old(quarantined) || quarantined
    {
      var started: bool, why: Code, reaction: Reaction := *, *, *;
      code := ExecWith(exposes, withdraws, started, why, reaction);
    }

    /** The same with the environment's choices as arguments: whether the command gets a slot and
        its mailboxes, or why it does not, and what becomes of it after the doorbell. */
    method ExecWith(ghost exposes: set<MapId>, ghost withdraws: set<MapId>, started: bool, why: Code, reaction: Reaction)
      returns (code: Code)
      requires Valid() && forall m :: m in exposes ==> Exposable(m)
      modifies `quarantined, `reach
      ensures Valid()
      ensures code.Success? ==> reach <= old(reach) + exposes - withdraws
      ensures !code.Success? ==> reach <= old(reach) + exposes
      ensures !code.Success? && !quarantined ==> reach <= old(reach)
      ensures code.Timeout? ==> old(quarantined) || quarantined
      ensures code.Success? <==> !old(quarantined) && started && reaction == Answered(0)
      ensures code.Success? ==> reach == old(reach) + exposes - withdraws && !quarantined
    {
      if quarantined {
        return NotReady;
      }
      if !started {
        return if why.Success? || why.Timeout? then Busy else why;
      }
      code := AfterDoorbell(exposes, withdraws, reaction);
    }

    /** The command has reached the device. Of the failures only a rejection in the outbox leaves
        the device unquarantined, and then the device has got nothing. */
    method AfterDoorbell(ghost exposes: set<MapId>, ghost withdraws: set<MapId>, reaction: Reaction) returns (code: Code)
      requires Valid() && forall m :: m in exposes ==> Exposable(m)
      modifies `quarantined, `reach
      ensures Valid()
      ensures code.Success? <==> reaction == Answered(0)
      ensures quarantined <==> old(quarantined) || !reaction.Answered?
      ensures code.Timeout? <==> reaction.Silent?
      ensures reach == old(reach) + exposes - (if code.Success? then withdraws else if reaction.Answered? then exposes - old(reach) else {})
    {
      reach := reach + exposes;
      match reaction {
        case Silent =>
          quarantined := true;
          return Timeout;
        case Undelivered(delivery) =>
          quarantined := true;
          return IOError;
        case Answered(outbox) =>
          OnlyZeroSucceeds(outbox);
          code := OutboxCode(outbox);
          Withdraw(if code.Success? then withdraws else exposes - old(reach));
      }
    }

    /** Environment: firmware has let go of some mappings. */
    ghost method Withdraw(gone: set<MapId>)
      requires Valid()
      modifies `reach
      ensures Valid() && reach == old(reach) - gone
    {
      reach := reach - gone;
    }

    /** A create command for an object over a fresh mapping, then whatever other threads do.
        A failure leaves the mapping unreachable or the device quarantined. */
    method Create(m: MapId) returns (code: Code)
      requires Valid() && Mine(m) && m !in reach
      modifies `quarantined, `reach, `status
      ensures Valid() && Mine(m)
      ensures !code.Success? ==> quarantined || m !in reach
    {
      code := Exec({m}, {});
      Interfere();
    }

    /** What a command may hand to the device: a mapping of the running call, or the ring of
        an EQ that is being created. */
    ghost predicate Exposable(m: MapId)
      reads this
    {
      m in place && place[m] == Local
    }

    // -------------------------------------------------------------- completion queues

    /** CreateCQ: the mapping's life from preparation to the table, or to its end. */
    method CreateCq() returns (code: Code, cqn: nat)
      requires Valid()
      modifies this
      ensures Valid()
      ensures code.Success? ==> cqn !in old(cqs) && cqn in cqs
      ensures !code.Success? ==> cqs == old(cqs)
      ensures !code.Success? ==> forall m :: m in place ==> m in old(place)
    {
      cqn := 0;
      var prepared: bool, fits: bool, mapped: bool := *, *, *;
      if !prepared {
        return NoMemory, 0;
      }
      var m := Map();
      if !fits || !mapped {
        CompleteDma(m);
        return NoSpace, 0;
      }
      code := Create(m);
      if !code.Success? {
        Unpin(m);
        return;
      }
      cqn := FreshNumber(cqs.Keys);
      KeepCq(cqn, m);
    }

    /** Firmware never gives a live object's number to a second one. */
    method FreshNumber(used: set<nat>) returns (n: nat)
      ensures n !in used && n > 0
    {
      n := 1;
      ghost var bound := Bound(used);
      while n in used
        invariant n >= 1
        decreases bound - n
      {
        BoundIsAbove(used, n);
        n := n + 1;
      }
    }

    /** DestroyCQ: completed only after firmware confirmed the destroy. */
    method DestroyCq(cqn: nat) returns (code: Code)
      requires Valid()
      modifies this
      ensures Valid()
      ensures code.Success? ==> cqn in old(cqs) && cqs == old(cqs) - {cqn}
      ensures !code.Success? ==> cqs == old(cqs) && place == old(place)
    {
      if quarantined {
        return NotReady;
      }
      code := Exec({}, if cqn in cqs then {cqs[cqn]} else {});
      if !code.Success? {
        return;
      }
      Interfere();
      if cqn !in cqs {
        return NotFound;
      }
      var m := DetachCq(cqn);
      CompleteDma(m);
    }

    /** MlxCQ::Free: destroy every CQ, and retain all that are left once one destroy is not
        verified. */
    method FreeCqs()
      requires Valid()
      modifies this
      ensures Valid() && cqs == map[]
    {
      var unverified := quarantined;
      while !unverified && cqs != map[]
        invariant Valid()
        decreases !unverified, cqs.Keys
      {
        var cqn :| cqn in cqs;
        var code := DestroyCq(cqn);
        if !code.Success? {
          unverified := true;
        }
      }
      RetainCqs();
    }

    method RetainCqs()
      requires Valid()
      modifies this
      ensures Valid() && cqs == map[]
    {
      while cqs != map[]
        invariant Valid()
        decreases cqs.Keys
      {
        var cqn :| cqn in cqs;
        var m := DetachCq(cqn);
        Retain(m);
      }
    }

    // -------------------------------------------------------------- event queues

    /** MlxEQ::Init and CreateEQ. The ring keeps its mapping when the command fails; what
        Free will do with it depends on `eqn` and the quarantine flag. Firmware may choose any
        8-bit number. */
    method CreateEq(n: nat) returns (code: Code)
      requires Valid() && n !in eqs
      modifies this
      ensures Valid() && n in eqs && eqs == old(eqs)[n := eqs[n]]
      ensures if code.Success? then eqNumbers == old(eqNumbers) + [eqs[n].eqn] else eqNumbers == old(eqNumbers) && eqs[n].eqn == 0
    {
      var started: bool, why: Code, reaction: Reaction, number: nat := *, *, *, *;
      code := CreateEqWith(n, started, why, reaction, number % 256);
    }

    method CreateEqWith(n: nat, started: bool, why: Code, reaction: Reaction, number: u8) returns (code: Code)
      requires Valid() && n !in eqs
      modifies this
      ensures Valid() && n in eqs && eqs == old(eqs)[n := eqs[n]]
      ensures code.Success? <==> !old(quarantined) && started && reaction == Answered(0)
      ensures code.Success? ==> eqs[n].eqn == number && eqs[n].map_ in reach && !quarantined && eqNumbers == old(eqNumbers) + [number]
      ensures !code.Success? ==> eqs[n].eqn == 0 && eqNumbers == old(eqNumbers) && mistaken == old(mistaken)
    {
      var m := Map();
      code := ExecWith({m}, {}, started, why, reaction);
      var eqn := 0;
      if code.Success? {
        eqn := number;
        Note(m, number);
      }
      KeepEq(n, m, eqn);
    }

    /** Firmware's choice of a number goes on record. */
    ghost method Note(m: MapId, number: nat)
      requires Valid() && m in status
      modifies `eqNumbers, `mistaken
      ensures Valid() && eqNumbers == old(eqNumbers) + [number]
      ensures mistaken == if number == 0 then old(mistaken) + {m} else old(mistaken)
    {
      eqNumbers := eqNumbers + [number];
      mistaken := if number == 0 then mistaken + {m} else mistaken;
    }

    /** DestroyEQ: the number is forgotten only when firmware confirmed. */
    method DestroyEq(n: nat) returns (code: Code)
      requires Valid() && n in eqs
      modifies `quarantined, `reach, `status, `eqs
      ensures Valid()
      ensures eqs == if code.Success? then old(eqs)[n := old(eqs)[n].(eqn := 0)] else old(eqs)
    {
      code := Exec({}, {eqs[n].map_});
      if code.Success? {
        eqs := eqs[n := eqs[n].(eqn := 0)];
      }
    }

    /** TEARDOWN_HCA ends every object at once. */
    method TeardownHca() returns (ok: bool)
      requires Valid()
      modifies `quarantined, `reach, `status
      ensures Valid()
      ensures ok ==> reach == {}
    {
      var code := Exec({}, reach);
      ok := code.Success?;
    }

    /** MarkDestroyedByTeardown: legitimate after TEARDOWN_HCA or in quarantine. */
    method MarkDestroyedByTeardown(n: nat)
      requires Valid() && n in eqs
      requires quarantined || eqs[n].map_ !in reach
      modifies `eqs
      ensures Valid() && eqs == old(eqs)[n := Eq(old(eqs)[n].map_, 0)]
    {
      eqs := eqs[n := eqs[n].(eqn := 0)];
    }

    /** MlxEQ::Free. A ring the device still reaches is completed if and only if firmware numbered
        the EQ 0, which the field takes for "not created", and the device is not quarantined. */
    method FreeEq(n: nat)
      requires Valid() && n in eqs
      modifies this
      ensures Valid() && eqs == old(eqs) - {n} && reach == old(reach) && eqNumbers == old(eqNumbers)
      ensures status == old(status)[old(eqs)[n].map_ := if old(eqs)[n].eqn == 0 && !old(quarantined) then Completed else Retained]
      ensures old(eqs)[n].map_ in reach ==>
                (status[old(eqs)[n].map_].Completed? <==> old(eqs)[n].eqn == 0 && !old(quarantined))
      ensures old(eqs)[n].map_ in reach && status[old(eqs)[n].map_].Completed? ==> 0 in eqNumbers
    {
      var e := DetachEq(n);
      if e.eqn != 0 || quarantined {
        Retain(e.map_);
      } else {
        CompleteDma(e.map_);
      }
    }

    /** An EQ from CREATE_EQ to Free, nothing in between going wrong: the ring is completed under
        the device if and only if firmware chose the number 0. */
    method CreateAndFreeEq(n: nat, number: u8) returns (ring: MapId)
      requires Valid() && n !in eqs && !quarantined
      modifies this
      ensures Valid() && ring in status && ring in reach
      ensures status[ring].Completed? <==> number == 0
    {
      var code := CreateEqWith(n, true, Busy, Answered(0), number);
      ring := eqs[n].map_;
      FreeEq(n);
    }

    // -------------------------------------------------------------- memory regions

    /** RegMR. When the table is full the new key is destroyed again; if that is not
        confirmed the device is quarantined before the pin is dropped. */
    method RegMr() returns (code: Code, handle: nat)
      requires Valid()
      modifies this
      ensures Valid()
      ensures code.Success? ==> handle !in old(mrs) && handle in mrs
      ensures !code.Success? ==> mrs == old(mrs) && forall m :: m in place ==> m in old(place)
    {
      handle := 0;
      var pinned: bool, encoded: bool, room: bool := *, *, *;
      if quarantined || !pinned {
        return NotReady, 0;
      }
      var m := Map();
      Interfere();
      if !encoded {
        Unpin(m);
        return BadArgument, 0;
      }
      code := CreateKey(m, room);
      if code.Success? {
        handle := FreshNumber(mrs.Keys);
        KeepMr(handle, m);
      }
    }

    /** Its CREATE_MKEY. A mapping that gets no key, or no table slot, is unpinned here. */
    method CreateKey(m: MapId, room: bool) returns (code: Code)
      requires Valid() && Mine(m) && m !in reach
      modifies `quarantined, `reach, `status, `place
      ensures Valid()
      ensures code.Success? ==> Mine(m) && place == old(place)
      ensures !code.Success? ==> place == old(place) - {m}
    {
      code := Create(m);
      if !code.Success? {
        Unpin(m);
        return;
      }
      if !room {
        DestroyUnplaced(m);
        return NoMemory;
      }
    }

    /** RegMR's exit when no table slot is left. */
    method DestroyUnplaced(m: MapId)
      requires Valid() && Mine(m)
      modifies `quarantined, `reach, `status, `place
      ensures Valid() && place == old(place) - {m}
      ensures m in status && (status[m].Completed? ==> m !in reach || m in mistaken)
      ensures status[m].Retained? ==> quarantined
    {
      var gone := Exec({}, {m});
      if !gone.Success? {
        quarantined := true;
      }
      Interfere();
      Unpin(m);
    }

    /** DeregMR of a region with pinned memory. */
    method DeregMr(handle: nat) returns (code: Code)
      requires Valid()
      modifies this
      ensures Valid()
      ensures code.Success? ==> handle in old(mrs) && mrs == old(mrs) - {handle}
      ensures !code.Success? ==> mrs == old(mrs) && place == old(place)
    {
      if quarantined {
        return NotReady;
      }
      if handle !in mrs {
        return NotFound;
      }
      var m := mrs[handle];
      code := Exec({}, {m});
      if !code.Success? {
        return;
      }
      Interfere();
      m := DetachMr(handle);
      Unpin(m);
    }

    /** MlxMR::Free. */
    method FreeMrs()
      requires Valid()
      modifies this
      ensures Valid() && mrs == map[]
    {
      var unverified := quarantined;
      while !unverified && mrs != map[]
        invariant Valid()
        decreases !unverified, mrs.Keys
      {
        var handle :| handle in mrs;
        var code := DeregMr(handle);
        if !code.Success? {
          unverified := true;
        }
      }
      while mrs != map[]
        invariant Valid()
        decreases mrs.Keys
      {
        var handle :| handle in mrs;
        var m := DetachMr(handle);
        Retain(m);
      }
    }

    // -------------------------------------------------------------- mailbox chains

    /** ReleaseChain: all blocks of an idle slot, completed or retained. */
    method ReleaseChain(slot: nat)
      requires Valid() && slot in chains
      modifies `quarantined, `status, `place, `chains
      ensures Valid() && chains == old(chains)[slot := []]
    {
      var keep := quarantined;
      while chains[slot] != []
        invariant Valid() && slot in chains && chains == old(chains)[slot := chains[slot]]
        invariant keep <==> quarantined
        decreases |chains[slot]|
      {
        var m := DetachBlock(slot);
        if keep {
          Retain(m);
        } else {
          CompleteDma(m);
        }
      }
    }

    method DetachBlock(slot: nat) returns (m: MapId)
      requires Valid() && slot in chains && chains[slot] != []
      modifies `chains, `place
      ensures Valid() && Mine(m) && (!quarantined ==> m !in reach)
      ensures slot in chains && chains == old(chains)[slot := chains[slot]] && |chains[slot]| + 1 == |old(chains)[slot]|
    {
      var n := |chains[slot]| - 1;
      m := chains[slot][n];
      chains := chains[slot := chains[slot][..n]];
      place := place[m := Local];
    }

    /** AllocMailbox's replacement of a chain by `n` new blocks. */
    method Regrow(slot: nat, n: nat)
      requires Valid() && slot in chains
      modifies this
      ensures Valid() && slot in chains
    {
      ReleaseChain(slot);
      for i := 0 to n
        invariant Valid() && slot in chains
      {
        var prepared: bool := *;
        if !prepared {
          ReleaseChain(slot);
          return;
        }
        var m := Map();
        AttachBlock(slot, m);
      }
    }

    method AttachBlock(slot: nat, m: MapId)
      requires Valid() && slot in chains && Mine(m) && m !in reach
      modifies `chains, `place
      ensures Valid() && chains == old(chains)[slot := old(chains)[slot] + [m]]
    {
      chains := chains[slot := chains[slot] + [m]];
      place := place[m := InChain(slot)];
    }

    /** ExecOnSlot seen from the slot's own mailboxes: the device reaches them from the
        doorbell until it hands the descriptor back. A command that never does so quarantines
        the device with the mailboxes still attached. */
    method CommandOnSlot(slot: nat) returns (code: Code)
      requires Valid() && slot in chains
      modifies this
      ensures Valid() && slot in chains
      ensures !quarantined ==> forall i :: 0 <= i < |chains[slot]| ==> chains[slot][i] !in reach
      ensures code.Timeout? ==> quarantined && forall i :: 0 <= i < |chains[slot]| ==> chains[slot][i] in reach
    {
      ChainIsQuiet(slot);
      if quarantined {
        return NotReady;
      }
      var grow: bool, n: nat := *, *;
      if grow {
        Regrow(slot, n);
        ChainIsQuiet(slot);
      }
      if quarantined {
        return NotReady;
      }
      code := Ring(slot);
    }

    lemma ChainIsQuiet(slot: nat)
      requires Valid() && slot in chains
      ensures !quarantined ==> forall i :: 0 <= i < |chains[slot]| ==> chains[slot][i] !in reach
    {
      assert ChainPlaced(slot);
    }

    /** From the doorbell to the return of ExecOnSlot. */
    method Ring(slot: nat) returns (code: Code)
      requires Valid() && slot in chains && !quarantined
      modifies `reach, `quarantined
      ensures Valid()
      ensures !quarantined ==> reach == old(reach)
      ensures forall i :: 0 <= i < |chains[slot]| ==> quarantined || chains[slot][i] !in reach
      ensures code.Timeout? ==> quarantined && forall i :: 0 <= i < |chains[slot]| ==> chains[slot][i] in reach
    {
      ghost var mine := set i | 0 <= i < |chains[slot]| :: chains[slot][i];
      assert forall m :: m in mine ==> m in place by {
        assert ChainPlaced(slot);
      }
      assert forall i :: 0 <= i < |chains[slot]| ==> chains[slot][i] !in reach by {
        assert ChainPlaced(slot);
      }
      ghost var before := reach;
      reach := reach + mine;
      var reaction: Reaction := *;
      match reaction {
        case Silent =>
          quarantined := true;
          code := Timeout;
        case Undelivered(delivery) =>
          quarantined := true;
          code := IOError;
        case Answered(outbox) =>
          reach := before;
          OnlyZeroSucceeds(outbox);
          code := OutboxCode(outbox);
      }
    }

    // -------------------------------------------------------------- every run

    /** Any sequence of operations under any firmware, with quarantine and reset between any two
        steps. As long as no created EQ has been numbered 0, nothing the device can reach has been
        completed; the only things it can reach otherwise are rings of such EQs. */
    method Run(ops: seq<Op>)
      requires Valid()
      modifies this
      ensures Valid()
      ensures 0 !in eqNumbers ==> forall m :: m in status && status[m].Completed? ==> m !in reach
      ensures forall m :: m in status && status[m].Completed? && m in reach ==> m in mistaken
    {
      for i := 0 to |ops|
        invariant Valid()
      {
        Interfere();
        Perform(ops[i]);
      }
    }

    method Perform(op: Op)
      requires Valid()
      modifies this
      ensures Valid()
    {
      match op {
        case CreateCompletionQueue =>
          var _, _ := CreateCq();
        case DestroyCompletionQueue(n) =>
          var _ := DestroyCq(n);
        case FreeCompletionQueues =>
          FreeCqs();
        case Register =>
          var _, _ := RegMr();
        case Deregister(n) =>
          var _ := DeregMr(n);
        case FreeRegions =>
          FreeMrs();
        case Event(kind, n) =>
          PerformEq(kind, n);
        case Command(slot) =>
          if slot in chains {
            var _ := CommandOnSlot(slot);
          } else {
            chains := chains[slot := []];
          }
        case FreeSlot(slot) =>
          if slot in chains {
            ReleaseChain(slot);
          }
        case Reset =>
          VerifiedReset();
      }
    }

    method PerformEq(kind: EqOp, n: nat)
      requires Valid()
      modifies this
      ensures Valid()
    {
      match kind {
        case Make =>
          if n !in eqs {
            var _ := CreateEq(n);
          }
        case Destroy =>
          if n in eqs {
            var _ := DestroyEq(n);
          }
        case Teardown =>
          var ok := TeardownHca();
          if n in eqs && (ok || quarantined) {
            MarkDestroyedByTeardown(n);
          }
        case Release =>
          if n in eqs {
            FreeEq(n);
          }
      }
    }
  }

  datatype EqOp = Make | Destroy | Teardown | Release

  datatype Op =
    | CreateCompletionQueue
    | DestroyCompletionQueue(n: nat)
    | FreeCompletionQueues
    | Register
    | Deregister(n: nat)
    | FreeRegions
    | Event(kind: EqOp, n: nat)
    | Command(slot: nat)
    | FreeSlot(slot: nat)
    | Reset

  ghost function Bound(used: set<nat>): nat
  {
    if used == {} then 0 else var x :| x in used; if x > Bound(used - {x}) then x else Bound(used - {x})
  }

  lemma {:induction false} BoundIsAbove(used: set<nat>, n: nat)
    requires n in used
    ensures n <= Bound(used)
  {
    var x :| x in used && Bound(used) == if x > Bound(used - {x}) then x else Bound(used - {x});
    if x != n {
      BoundIsAbove(used - {x}, n);
    }
  }
}
