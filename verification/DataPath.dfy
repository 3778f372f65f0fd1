/** MlxUserClient.cpp: data-path calls that skip the method lock, against the teardown that frees
    the tables they read. Every locked region is one step; any number of threads take steps in
    any order. */
module DataPath {
  import opened Words

  /** Where a thread is: outside; with a look at the lock's pointer behind it but not yet at the
      lock; inside a data-path method; turned away with NotReady; or in a lock that was freed. */
  datatype Call = Outside | Looked | Inside | Refused | Wild

  /** How far Cleanup has got. Between Freed and Cleared the pointer leads to a freed lock. */
  datatype Phase = Live | Draining | Drained | Freed | Cleared

  /** `inflight` and `teardown` are the client's fields; `tables` says the ownership tables and
      their lock still exist, `pointer` that the client's pointer to the lock is not null. */
  datatype Sys = Sys(inflight: u32, teardown: bool, tables: bool, pointer: bool, phase: Phase, calls: seq<Call>)

  datatype Action = Look(thread: nat) | Lock(thread: nat) | Body(thread: nat) | Leave(thread: nat) | Begin | Check | Free | Clear | Stall

  function CountInside(calls: seq<Call>): nat
  {
    if calls == [] then 0 else CountInside(calls[..|calls| - 1]) + if calls[|calls| - 1].Inside? then 1 else 0
  }

  lemma {:induction false} CountUpdate(calls: seq<Call>, t: nat, c: Call)
    requires t < |calls|
    ensures CountInside(calls[t := c]) + (if calls[t].Inside? then 1 else 0) == CountInside(calls) + if c.Inside? then 1 else 0
  {
    var n := |calls| - 1;
    if t == n {
      assert calls[t := c][..n] == calls[..n];
    } else {
      assert calls[t := c][..n] == calls[..n][t := c];
      CountUpdate(calls[..n], t, c);
    }
  }

  lemma {:induction false} CountBounds(calls: seq<Call>, t: nat)
    requires t < |calls|
    ensures calls[t].Inside? ==> CountInside(calls) > 0
    ensures CountInside(calls) <= |calls|
  {
    var n := |calls| - 1;
    if t < n {
      CountBounds(calls[..n], t);
    } else if n > 0 {
      CountBounds(calls[..n], 0);
    }
  }

  // ---------------------------------------------------------------- steps

  /** MlxDataPathGuard's constructor, before it takes the lock: is there a lock to take? */
  function LookStep(s: Sys, t: nat): Sys
    requires t < |s.calls|
  {
    s.(calls := s.calls[t := if s.pointer then Looked else Refused])
  }

  /** And under the lock: counted in unless teardown has begun. */
  function LockStep(s: Sys, t: nat): Sys
    requires t < |s.calls|
  {
    if !s.tables then s.(calls := s.calls[t := Wild])
    else if s.teardown then s.(calls := s.calls[t := Refused])
    else s.(inflight := (s.inflight + 1) % 0x1_0000_0000, calls := s.calls[t := Inside])
  }

  /** Its destructor; a call that was refused does not count out. */
  function LeaveStep(s: Sys, t: nat): Sys
    requires t < |s.calls|
  {
    if s.calls[t].Inside?
    then s.(inflight := (s.inflight - 1) % 0x1_0000_0000, calls := s.calls[t := Outside])
    else s.(calls := s.calls[t := Outside])
  }

  ghost predicate Next(s: Sys, a: Action, s': Sys)
  {
    match a
    case Look(t) => t < |s.calls| && s.calls[t].Outside? && s' == LookStep(s, t)
    case Lock(t) => t < |s.calls| && s.calls[t].Looked? && s' == LockStep(s, t)
    case Body(t) => t < |s.calls| && s.calls[t].Inside? && s' == s
    case Leave(t) => t < |s.calls| && (s.calls[t].Inside? || s.calls[t].Refused?) && s' == LeaveStep(s, t)
    case Begin => s.phase.Live? && s' == s.(teardown := true, phase := Draining)
    case Check => s.phase.Draining? && s' == if s.inflight == 0 then s.(phase := Drained) else s
    case Free => s.phase.Drained? && s' == s.(tables := false, phase := Freed)
    case Clear => s.phase.Freed? && s' == s.(pointer := false, phase := Cleared)
    case Stall => s' == s
  }

  function Start(threads: nat): Sys
  {
    Sys(0, false, true, true, Live, seq(threads, _ => Outside))
  }

  /** A run: `acts[i]` leads from `states[i]` to the next state. */
  ghost predicate Run(states: seq<Sys>, acts: seq<Action>)
  {
    |states| == |acts| + 1 && forall i :: 0 <= i < |acts| ==> Next(states[i], acts[i], states[i + 1])
  }

  /** Cleanup has passed its drain loop. */
  predicate Past(s: Sys) { s.phase.Drained? || s.phase.Freed? || s.phase.Cleared? }

  ghost predicate Inv(s: Sys)
  {
    && |s.calls| < U32 && s.inflight == CountInside(s.calls)
    && (s.teardown <==> !s.phase.Live?)
    && (Past(s) ==> s.inflight == 0)
    && (s.tables <==> !s.phase.Freed? && !s.phase.Cleared?)
    && (s.pointer <==> !s.phase.Cleared?)
  }

  lemma {:induction false} StartInv(threads: nat)
    requires threads < U32
    ensures Inv(Start(threads))
  {
    NobodyInside(threads);
  }

  lemma {:induction false} NobodyInside(threads: nat)
    ensures CountInside(seq(threads, _ => Outside)) == 0
  {
    if threads > 0 {
      assert seq(threads, _ => Outside)[..threads - 1] == seq(threads - 1, _ => Outside);
      NobodyInside(threads - 1);
    }
  }

  lemma StepKeepsInv(s: Sys, a: Action, s': Sys)
    requires Inv(s) && Next(s, a, s')
    ensures Inv(s') && |s'.calls| == |s.calls|
    ensures s.teardown ==> s'.inflight <= s.inflight
    ensures s.teardown && a.Leave? && s.calls[a.thread].Inside? ==> s'.inflight == s.inflight - 1
    ensures Past(s) ==> Past(s')
  {
    match a
    case Look(t) =>
      CountUpdate(s.calls, t, s'.calls[t]);
    case Lock(t) =>
      CountUpdate(s.calls, t, s'.calls[t]);
      CountBounds(s.calls[t := Inside], t);
    case Leave(t) =>
      CountUpdate(s.calls, t, Outside);
      CountBounds(s.calls, t);
    case _ =>
  }

  lemma {:induction false} ReachableInv(states: seq<Sys>, acts: seq<Action>, threads: nat, i: nat)
    requires Run(states, acts) && states[0] == Start(threads) && threads < U32 && i < |states|
    ensures Inv(states[i])
  {
    if i == 0 {
      StartInv(threads);
    } else {
      ReachableInv(states, acts, threads, i - 1);
      StepKeepsInv(states[i - 1], acts[i - 1], states[i]);
    }
  }

  lemma {:induction false} StaysDrained(states: seq<Sys>, acts: seq<Action>, threads: nat, i: nat, j: nat)
    requires Run(states, acts) && states[0] == Start(threads) && threads < U32
    requires i <= j < |states| && Past(states[i])
    ensures Past(states[j])
  {
    if i < j {
      StaysDrained(states, acts, threads, i, j - 1);
      ReachableInv(states, acts, threads, j - 1);
      StepKeepsInv(states[j - 1], acts[j - 1], states[j]);
    }
  }

  /** Once Cleanup has passed its drain loop, no data-path call is inside, and none ever is
      again. */
  lemma NobodyInsideAfterDrain(states: seq<Sys>, acts: seq<Action>, threads: nat, i: nat, j: nat, t: nat)
    requires Run(states, acts) && states[0] == Start(threads) && threads < U32
    requires i <= j < |states| && Past(states[i]) && t < |states[j].calls|
    ensures !states[j].calls[t].Inside?
  {
    StaysDrained(states, acts, threads, i, j);
    ReachableInv(states, acts, threads, j);
    CountBounds(states[j].calls, t);
  }

  predicate CountsOut(s: Sys, a: Action)
  {
    a.Leave? && a.thread < |s.calls| && s.calls[a.thread].Inside?
  }

  /** So the body of a data-path method always finds the tables it reads, and its guard the lock
      on the way out. */
  lemma BodiesFindTables(states: seq<Sys>, acts: seq<Action>, threads: nat, i: nat)
    requires Run(states, acts) && states[0] == Start(threads) && threads < U32
    requires i < |acts| && (acts[i].Body? || CountsOut(states[i], acts[i]))
    ensures states[i].tables && states[i].pointer
  {
    ReachableInv(states, acts, threads, i);
    assert Next(states[i], acts[i], states[i + 1]);
    CountBounds(states[i].calls, acts[i].thread);
  }

  /** The test of the drain loop is neither too weak nor too strong: it passes exactly when
      nobody is inside, and then the tables may go. */
  lemma DrainIsExact(states: seq<Sys>, acts: seq<Action>, threads: nat, i: nat)
    requires Run(states, acts) && states[0] == Start(threads) && threads < U32
    requires i < |acts| && acts[i].Check?
    ensures states[i + 1].phase.Drained? <==> forall t :: 0 <= t < |states[i].calls| ==> !states[i].calls[t].Inside?
  {
    ReachableInv(states, acts, threads, i);
    assert Next(states[i], acts[i], states[i + 1]);
    CountZero(states[i].calls);
  }

  lemma {:induction false} CountZero(calls: seq<Call>)
    ensures CountInside(calls) == 0 <==> forall t :: 0 <= t < |calls| ==> !calls[t].Inside?
  {
    if calls != [] {
      var n := |calls| - 1;
      CountZero(calls[..n]);
      assert forall t :: 0 <= t < n ==> calls[..n][t] == calls[t];
    }
  }

  // ---------------------------------------------------------------- the freed lock

  /** The guard looks at the pointer before it has the lock: some run goes on from here in which
      the call takes a lock that was freed. */
  ghost predicate CanGoWild(s: Sys, t: nat)
  {
    exists states, acts :: GoesWild(states, acts, s, t)
  }

  ghost predicate GoesWild(states: seq<Sys>, acts: seq<Action>, s: Sys, t: nat)
  {
    Run(states, acts) && states[0] == s && t < |states[|acts|].calls| && states[|acts|].calls[t].Wild?
  }

  /** Once Cleanup has freed the lock, a call can take it if and only if it has already looked at
      the pointer, or the pointer is still there to look at. */
  lemma WildIsExact(s: Sys, t: nat)
    requires Inv(s) && !s.tables && t < |s.calls|
    ensures CanGoWild(s, t) <==> s.pointer || s.calls[t].Looked? || s.calls[t].Wild?
  {
    CountBounds(s.calls, t);
    if s.calls[t].Wild? {
      assert GoesWild([s], [], s, t);
    } else if s.calls[t].Looked? {
      assert GoesWild([s, LockStep(s, t)], [Lock(t)], s, t);
    } else if s.pointer {
      var out := if s.calls[t].Refused? then Leave(t) else Stall;
      var s1 := if s.calls[t].Refused? then LeaveStep(s, t) else s;
      var s2 := LookStep(s1, t);
      assert GoesWild([s, s1, s2, LockStep(s2, t)], [out, Look(t), Lock(t)], s, t);
    } else {
      forall states, acts ensures !GoesWild(states, acts, s, t) {
        if Run(states, acts) && states[0] == s {
          StaysTame(states, acts, t, |acts|);
        }
      }
    }
  }

  /** A call that finds no pointer is turned away. */
  lemma {:induction false} StaysTame(states: seq<Sys>, acts: seq<Action>, t: nat, i: nat)
    requires Run(states, acts) && i <= |acts| && t < |states[0].calls|
    requires Inv(states[0]) && states[0].phase.Cleared? && !states[0].calls[t].Looked? && !states[0].calls[t].Wild?
    ensures Inv(states[i]) && states[i].phase.Cleared? && |states[i].calls| == |states[0].calls|
    ensures !states[i].calls[t].Looked? && !states[i].calls[t].Wild?
  {
    if i > 0 {
      StaysTame(states, acts, t, i - 1);
      StepKeepsInv(states[i - 1], acts[i - 1], states[i]);
    }
  }

  /** It happens: the call looks, Cleanup finds nobody inside and ends, and the call goes on. */
  lemma LocksAFreedLock() returns (states: seq<Sys>, acts: seq<Action>)
    ensures Run(states, acts) && states[0] == Start(1) && states[|acts|].phase.Cleared? && states[|acts|].calls == [Wild]
  {
    var s := Start(1);
    var looked := LookStep(s, 0);
    var drained := looked.(teardown := true, phase := Drained);
    var cleared := drained.(tables := false, pointer := false, phase := Cleared);
    acts := [Look(0), Begin, Check, Free, Clear, Lock(0)];
    states := [s, looked, drained.(phase := Draining), drained, cleared.(pointer := true, phase := Freed), cleared, LockStep(cleared, 0)];
  }

  // ---------------------------------------------------------------- the code

  class Guarded {
    var inflight: u32
    var teardown: bool
    var tables: bool
    var pointer: bool
    ghost var phase: Phase
    ghost var calls: seq<Call>

    ghost function View(): Sys
      reads this
    {
      Sys(inflight, teardown, tables, pointer, phase, calls)
    }

    constructor (ghost threads: nat)
      requires threads < U32
      ensures View() == Start(threads) && Inv(View())
    {
      inflight, teardown, tables, pointer, phase, calls := 0, false, true, true, Live, seq(threads, _ => Outside);
      new;
      StartInv(threads);
    }

    /** The guard on the way in, up to the lock; without a lock the call is refused. */
    method SeeLock(ghost t: nat) returns (there: bool)
      requires Inv(View()) && t < |calls| && calls[t].Outside?
      modifies `calls
      ensures Inv(View()) && Next(old(View()), Look(t), View()) && (there <==> calls[t].Looked?)
    {
      there := pointer;
      calls := calls[t := if there then Looked else Refused];
      StepKeepsInv(old(View()), Look(t), View());
    }

    /** The guard inside the lock, if that still exists; `entered` is its ok(). */
    method TakeLock(ghost t: nat) returns (entered: bool)
      requires Inv(View()) && t < |calls| && calls[t].Looked? && tables
      modifies `inflight, `calls
      ensures Inv(View()) && Next(old(View()), Lock(t), View()) && (entered <==> calls[t].Inside?)
      ensures entered <==> !teardown
    {
      entered := false;
      if !teardown {
        inflight := (inflight + 1) % 0x1_0000_0000;
        entered := true;
      }
      calls := calls[t := if entered then Inside else Refused];
      StepKeepsInv(old(View()), Lock(t), View());
    }

    /** The guard on the way out. */
    method LeaveCall(ghost t: nat, entered: bool)
      requires Inv(View()) && t < |calls| && (if entered then calls[t].Inside? else calls[t].Refused?)
      modifies `inflight, `calls
      ensures Inv(View()) && Next(old(View()), Leave(t), View()) && calls[t].Outside?
    {
      CountBounds(calls, t);
      if entered && pointer {
        inflight := (inflight - 1) % 0x1_0000_0000;
      }
      calls := calls[t := Outside];
      StepKeepsInv(old(View()), Leave(t), View());
    }

    /** Environment: while Cleanup sleeps, a call that is inside comes out; others may try to get
        in, and may have looked at the pointer when Cleanup goes on. This is what lets the drain
        loop end. */
    method WhileAsleep()
      requires Inv(View()) && phase.Draining? && inflight > 0
      modifies `inflight, `calls
      ensures Inv(View()) && inflight < old(inflight) && |calls| == |old(calls)|
    {
      ghost var t := SomebodyInside();
      LeaveCall(t, true);
      var again, further: bool := *, *;
      if again {
        var there := SeeLock(t);
        if further {
          var entered := TakeLock(t);
        }
      }
    }

    ghost method SomebodyInside() returns (t: nat)
      requires Inv(View()) && inflight > 0
      ensures t < |calls| && calls[t].Inside?
    {
      CountZero(calls);
      t :| t < |calls| && calls[t].Inside?;
    }

    /** The part of Cleanup that blocks, drains and frees. Nobody is inside at its end; of those
        that have looked at the pointer it knows nothing. */
    method Cleanup()
      requires Inv(View()) && phase.Live?
      modifies this
      ensures Inv(View()) && phase.Cleared? && !tables && !pointer && teardown
      ensures forall t :: 0 <= t < |calls| ==> !calls[t].Inside?
      ensures forall t: nat :: t < |calls| ==> (CanGoWild(View(), t) <==> calls[t].Looked? || calls[t].Wild?)
    {
      teardown := true;
      phase := Draining;
      while inflight > 0
        invariant Inv(View()) && phase.Draining? && teardown
        decreases inflight
      {
        WhileAsleep();
      }
      phase := Drained;
      CountZero(calls);
      tables, phase := false, Freed;
      pointer, phase := false, Cleared;
      forall t: nat | t < |calls| ensures CanGoWild(View(), t) <==> calls[t].Looked? || calls[t].Wild? {
        WildIsExact(View(), t);
      }
    }
  }
}
