/** MlxCmd.cpp: the geometry of the command queue and the arbitration of its slots between
    threads. `execLock` regions are atomic; everything between them is open to interference. */
module CommandSlots {
  import opened Words

  const HW_SLOTS: nat := 64
  const REG_SLOTS: nat := 4
  const QUEUE_BYTES: nat := 4096
  const DESCRIPTOR_BYTES: nat := 64

  // ---------------------------------------------------------------- geometry

  /** Two 4-bit fields of the initialization segment. */
  datatype Geometry = Geometry(logSz: nat, logStride: nat)

  predicate Accepted(g: Geometry)
  {
    g.logSz < 16 && g.logStride < 16 && !(g.logSz >= 31 || g.logStride < 6 || g.logSz + g.logStride > 12)
  }

  function HwSlots(g: Geometry): nat { Pow2(g.logSz) }

  function PagesSlot(g: Geometry): nat { HwSlots(g) - 1 }

  function RegSlots(g: Geometry): nat
  {
    var reg := if HwSlots(g) > 1 then HwSlots(g) - 1 else 1;
    if reg > REG_SLOTS then REG_SLOTS else reg
  }

  lemma SlotCount(g: Geometry)
    requires Accepted(g)
    ensures 1 <= HwSlots(g) <= HW_SLOTS
  {
    Pow2Monotone(0, g.logSz);
    Pow2Monotone(g.logSz, 6);
    Pow2Values();
  }

  /** The MANAGE_PAGES slot is disjoint from the regular ones exactly when there is more than
      one descriptor; with a single one both collapse to slot 0. */
  lemma SlotKindsDisjoint(g: Geometry)
    requires Accepted(g)
    ensures 1 <= RegSlots(g) <= HwSlots(g) && PagesSlot(g) < HwSlots(g)
    ensures HwSlots(g) > 1 <==> forall slot :: !(Eligible(g, true, slot) && Eligible(g, false, slot))
  {
    SlotCount(g);
    if HwSlots(g) == 1 {
      assert Eligible(g, true, 0) && Eligible(g, false, 0);
    }
  }

  function Offset(g: Geometry, slot: nat): nat { slot * Pow2(g.logStride) }

  /** Every descriptor lies inside the queue page and no two overlap. */
  lemma DescriptorsFit(g: Geometry, a: nat, b: nat)
    requires Accepted(g) && a < HwSlots(g) && b < HwSlots(g)
    ensures Offset(g, a) + DESCRIPTOR_BYTES <= QUEUE_BYTES
    ensures a < b ==> Offset(g, a) + DESCRIPTOR_BYTES <= Offset(g, b)
  {
    Pow2Values();
    Pow2Monotone(6, g.logStride);
    Pow2Adds(g.logSz, g.logStride);
    Pow2Monotone(g.logSz + g.logStride, 12);
    var stride := Pow2(g.logStride);
    MulMonotone(a + 1, HwSlots(g), stride);
    assert (a + 1) * stride == a * stride + stride;
    if a < b {
      MulMonotone(a + 1, b, stride);
    }
  }

  /** The doorbell is a 32-bit word with the slot's bit set. The bit exists for the
      MANAGE_PAGES slot exactly when the queue has at most 32 descriptors; Init also accepts
      64, where slot 63 has no doorbell bit. */
  lemma PagesDoorbellExists(g: Geometry)
    requires Accepted(g)
    ensures Pow2(PagesSlot(g)) < U32 <==> g.logSz <= 5
  {
    SlotCount(g);
    Pow2Values();
    if g.logSz <= 5 {
      Pow2Monotone(g.logSz, 5);
      assert Pow2(5) == 32;
      Pow2Monotone(PagesSlot(g), 31);
    } else {
      assert HwSlots(g) == 64;
    }
  }

  // ---------------------------------------------------------------- the protocol

  /** Who runs a command on which slot, and the slots whose command timed out. */
  datatype Sys = Sys(busy: set<nat>, running: map<nat, nat>, dead: set<nat>)

  datatype Step = Acquire(t: nat, pages: bool) | Finish(t: nat, timedOut: bool)

  ghost predicate Eligible(g: Geometry, pages: bool, slot: nat)
  {
    if pages then slot == PagesSlot(g) else slot < RegSlots(g)
  }

  /** The locked part of AcquireSlot (first free eligible slot, or no change) and of the end
      of Exec: release, except after a timeout. */
  ghost predicate Next(g: Geometry, s: Sys, step: Step, r: Sys)
  {
    match step
    case Acquire(t, pages) =>
      t !in s.running &&
      if exists slot :: Eligible(g, pages, slot) && slot !in s.busy then
        exists slot :: Eligible(g, pages, slot) && slot !in s.busy &&
                       (forall lower :: Eligible(g, pages, lower) && lower < slot ==> lower in s.busy) &&
                       r == Sys(s.busy + {slot}, s.running[t := slot], s.dead)
      else r == s
    case Finish(t, timedOut) =>
      t in s.running &&
      r == if timedOut then Sys(s.busy, s.running - {t}, s.dead + {s.running[t]})
           else Sys(s.busy - {s.running[t]}, s.running - {t}, s.dead)
  }

  /** The busy mask is exactly the slots in flight and the dead ones; no two threads share a
      slot and no thread holds a dead one. */
  ghost predicate Inv(g: Geometry, s: Sys)
  {
    && s.busy == s.running.Values + s.dead
    && s.running.Values !! s.dead
    && (forall t, u :: t in s.running && u in s.running && s.running[t] == s.running[u] ==> t == u)
    && (forall b :: b in s.busy ==> b < HwSlots(g))
  }

  lemma StepKeepsInv(g: Geometry, s: Sys, step: Step, r: Sys)
    requires Accepted(g) && Inv(g, s) && Next(g, s, step, r)
    ensures Inv(g, r) && s.dead <= r.dead
  {
    SlotKindsDisjoint(g);
    match step
    case Acquire(t, pages) =>
      if r != s {
        var slot :| Eligible(g, pages, slot) && slot !in s.busy && r == Sys(s.busy + {slot}, s.running[t := slot], s.dead);
        assert r.running.Values == s.running.Values + {slot} by {
          assert slot == r.running[t];
          forall x | x in s.running.Values ensures x in r.running.Values {
            var u :| u in s.running && s.running[u] == x;
            assert r.running[u] == x;
          }
        }
      }
    case Finish(t, timedOut) =>
      assert r.running.Values == s.running.Values - {s.running[t]} by {
        forall x | x in s.running.Values && x != s.running[t] ensures x in r.running.Values {
          var u :| u in s.running && s.running[u] == x;
          assert r.running[u] == x;
        }
        forall x | x in r.running.Values ensures x != s.running[t] {
          var u :| u in r.running && r.running[u] == x;
        }
      }
      assert s.running[t] in s.running.Values;
  }

  ghost predicate Behaviour(g: Geometry, run: seq<Sys>, steps: seq<Step>)
  {
    && |run| == |steps| + 1
    && run[0] == Sys({}, map[], {})
    && forall i :: 0 <= i < |steps| ==> Next(g, run[i], steps[i], run[i + 1])
  }

  lemma {:induction false} ReachableInv(g: Geometry, run: seq<Sys>, steps: seq<Step>, i: nat)
    requires Accepted(g) && Behaviour(g, run, steps) && i < |run|
    ensures Inv(g, run[i])
  {
    if i > 0 {
      ReachableInv(g, run, steps, i - 1);
      StepKeepsInv(g, run[i - 1], steps[i - 1], run[i]);
    }
  }

  lemma {:induction false} DeadForever(g: Geometry, run: seq<Sys>, steps: seq<Step>, i: nat, j: nat)
    requires Accepted(g) && Behaviour(g, run, steps) && i <= j < |run|
    ensures run[i].dead <= run[j].dead
    decreases j
  {
    if i < j {
      DeadForever(g, run, steps, i, j - 1);
      ReachableInv(g, run, steps, j - 1);
      StepKeepsInv(g, run[j - 1], steps[j - 1], run[j]);
    }
  }

  /** Under every interleaving: two commands in flight are on different slots, and once a
      command has timed out on a slot no later command ever runs there. */
  lemma SlotsAreExclusive(g: Geometry, run: seq<Sys>, steps: seq<Step>, i: nat, j: nat, t: nat, u: nat)
    requires Accepted(g) && Behaviour(g, run, steps) && i <= j < |run|
    ensures t in run[j].running && u in run[j].running && t != u ==> run[j].running[t] != run[j].running[u]
    ensures t in run[j].running ==> run[j].running[t] !in run[i].dead && run[j].running[t] < HwSlots(g)
  {
    ReachableInv(g, run, steps, j);
    DeadForever(g, run, steps, i, j);
    if t in run[j].running {
      assert run[j].running[t] in run[j].running.Values;
    }
  }

  /** A slot comes free again only through its own holder finishing in time. */
  lemma BusyUntilFinished(g: Geometry, s: Sys, step: Step, r: Sys, t: nat)
    requires Accepted(g) && Inv(g, s) && Next(g, s, step, r) && t in s.running
    ensures s.running[t] !in r.busy <==> step == Finish(t, false)
  {
    assert s.running[t] in s.running.Values;
    match step
    case Acquire(u, pages) =>
    case Finish(u, timedOut) =>
      if u != t {
        assert s.running[u] != s.running[t];
      }
  }

  // ---------------------------------------------------------------- the arbiter

  datatype Grant = Granted | NoMemory | AllBusy

  class Arbiter {
    const g: Geometry
    var busyMask: seq<bool>
    /** The slots whose state has been allocated. */
    var made: seq<bool>
    ghost var running: map<nat, nat>
    ghost var dead: set<nat>

    ghost function Abs(): Sys
      reads this
    {
      Sys((set i | 0 <= i < |busyMask| && busyMask[i]), running, dead)
    }

    ghost predicate Valid()
      reads this
    {
      Accepted(g) && |busyMask| == |made| == HW_SLOTS && Inv(g, Abs()) && forall t :: t in running ==> running[t] < HW_SLOTS && made[running[t]]
    }

    constructor (geometry: Geometry)
      requires Accepted(geometry)
      ensures Valid() && Abs() == Sys({}, map[], {}) && g == geometry
    {
      g := geometry;
      busyMask, made := seq(HW_SLOTS, _ => false), seq(HW_SLOTS, _ => false);
      running, dead := map[], {};
    }

    /** The locked region of AcquireSlot; `room` says whether the state of a slot that has none
        can be allocated. Every command in flight has a slot with its state. */
    method TryAcquire(ghost t: nat, pages: bool, room: bool) returns (code: Grant, chosen: nat)
      requires Valid() && t !in running
      modifies `busyMask, `running, `made
      ensures Valid()
      ensures !code.NoMemory? ==> Next(g, old(Abs()), Acquire(t, pages), Abs())
      ensures code.Granted? <==> t in running
      ensures code.Granted? ==> running[t] == chosen < HW_SLOTS && chosen !in old(Abs()).busy && Eligible(g, pages, chosen)
      ensures code.Granted? ==> made == old(made)[chosen := true] && (room || old(made)[chosen])
      ensures !code.Granted? ==> Abs() == old(Abs()) && made == old(made)
      ensures code.AllBusy? <==> forall slot :: Eligible(g, pages, slot) ==> slot in old(Abs()).busy
      ensures code.NoMemory? ==> !room && chosen < HW_SLOTS && Eligible(g, pages, chosen) && !made[chosen]
    {
      SlotKindsDisjoint(g);
      SlotCount(g);
      chosen := HW_SLOTS;
      if pages {
        if !busyMask[PagesSlot(g)] {
          chosen := PagesSlot(g);
        }
      } else {
        var i := 0;
        while i < RegSlots(g) && busyMask[i]
          invariant i <= RegSlots(g) && forall j :: 0 <= j < i ==> busyMask[j]
        {
          i := i + 1;
        }
        if i < RegSlots(g) {
          chosen := i;
        }
      }
      if chosen < HW_SLOTS {
        assert Eligible(g, pages, chosen) && chosen !in Abs().busy;
        if !made[chosen] {
          if !room {
            return NoMemory, chosen;
          }
          made := made[chosen := true];
        }
        ghost var was := Abs();
        busyMask := busyMask[chosen := true];
        running := running[t := chosen];
        assert Abs().busy == was.busy + {chosen};
        code := Granted;
      } else {
        code := AllBusy;
      }
      StepKeepsInv(g, old(Abs()), Acquire(t, pages), Abs());
    }

    /** ReleaseSlot, or its omission after a timeout. */
    method Retire(ghost t: nat, slot: nat, timedOut: bool)
      requires Valid() && t in running && running[t] == slot
      modifies `busyMask, `running, `dead
      ensures Valid() && Next(g, old(Abs()), Finish(t, timedOut), Abs())
    {
      assert slot in Abs().busy by {
        assert slot in running.Values;
      }
      ghost var was := Abs();
      if timedOut {
        dead := dead + {slot};
      } else {
        busyMask := busyMask[slot := false];
      }
      running := running - {t};
      assert timedOut ==> Abs().busy == was.busy;
      assert !timedOut ==> Abs().busy == was.busy - {slot};
      StepKeepsInv(g, was, Finish(t, timedOut), Abs());
    }
  }
}
