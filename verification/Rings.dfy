/** The phase-bit rings: a generic account of what hardware puts in a ring of 2^logSize entries
    and when the consumer's test finds an entry new, the event queue of MlxEQ.cpp and the
    completion queue of MlxCQ.cpp. `written` is every entry hardware ever wrote; the positions
    `consumed` and `published` are unbounded, the driver's own counters are machine words. */
module Rings {
  import opened Words

  /** An entry as it lies in memory: the byte that carries the owner bit, and the rest. */
  datatype Slot<T> = Slot(mark: u8, body: T)

  /** The owner bit of the lap that index `n` belongs to. */
  function Parity(n: nat, depth: nat): nat
    requires depth > 0
  {
    n / depth % 2
  }

  // ---------------------------------------------------------------- positions

  lemma Pow2Splits(a: nat, b: nat)
    requires a <= b
    ensures Pow2(b) == Pow2(b - a) * Pow2(a)
  {
    Pow2Adds(b - a, a);
  }

  /** A counter that wraps at 2^width points at the same slot, and expects the same owner, as
      the index it stands for: the 32-bit head of an EQ, the 64-bit consumer index of a CQ and
      the 24 bits a doorbell carries, for any ring of at most half that many entries. */
  lemma WrapKeepsPlace(n: nat, width: nat, logSize: nat)
    requires logSize < width
    ensures n % Pow2(width) % Pow2(logSize) == n % Pow2(logSize)
    ensures Parity(n % Pow2(width), Pow2(logSize)) == Parity(n, Pow2(logSize))
  {
    var depth := Pow2(logSize);
    Pow2Splits(logSize + 1, width);
    var k := Pow2(width - logSize - 1);
    assert Pow2(logSize + 1) == 2 * depth;
    WholeLaps(n, depth, k);
  }

  /** Dropping whole pairs of laps from an index keeps its slot and its owner bit. */
  lemma WholeLaps(n: nat, depth: nat, k: nat)
    requires depth > 0 && k > 0
    ensures k * (2 * depth) > 0
    ensures n % (k * (2 * depth)) % depth == n % depth
    ensures Parity(n % (k * (2 * depth)), depth) == Parity(n, depth)
  {
    MulMonotone(1, k, 2 * depth);
    var m := k * (2 * depth);
    var q, r := n / m, n % m;
    RemainderBound(n, m);
    Regroup(q, k, depth);
    DivModShift(r, 2 * (q * k), depth);
    DivModShift(r / depth, q * k, 2);
  }

  lemma Regroup(q: int, k: int, depth: int)
    ensures q * (k * (2 * depth)) == (2 * (q * k)) * depth
  {
  }

  /** Indexes less than a lap apart have slots of their own. */
  lemma SlotsDiffer(a: nat, b: nat, depth: nat)
    requires a < b < a + depth
    ensures a % depth != b % depth
  {
    RemainderBound(a, depth);
    RemainderBound(b, depth);
    var x, y := a / depth, b / depth;
    assert a % depth == b % depth ==> (y - x) * depth == b - a by {
      assert y * depth - x * depth == (y - x) * depth;
    }
    assert y - x >= 1 ==> (y - x) * depth >= depth by {
      if y - x >= 1 {
        MulMonotone(1, y - x, depth);
      }
    }
    assert y - x <= 0 ==> (y - x) * depth <= 0 by {
      if y - x <= 0 {
        MulMonotone(y - x, 0, depth);
      }
    }
  }

  lemma NextLap(n: nat, depth: nat)
    requires depth > 0
    ensures (n + depth) % depth == n % depth && Parity(n + depth, depth) == 1 - Parity(n, depth)
  {
    DivModShift(n, 1, depth);
  }

  /** The index hardware reads out of a doorbell that carries only its low 24 bits: the latest
      one, not beyond what has been written, with those bits. */
  function Widen(ci: nat, written: nat): (p: int)
    requires ci < 0x100_0000
  {
    written - (written - ci) % 0x100_0000
  }

  /** It is the index the driver published, as long as the two are within 2^24 entries. */
  lemma WidenInverts(p: nat, written: nat)
    requires p <= written < p + 0x100_0000
    ensures Widen(p % 0x100_0000, written) == p
  {
    var q := p / 0x100_0000;
    assert p == q * 0x100_0000 + p % 0x100_0000;
    DivModUnique(written - p % 0x100_0000, 0x100_0000, q, written - p);
  }

  // ---------------------------------------------------------------- contents

  /** The ring holds the last `depth` entries written, each in the slot of its index and with
      the owner bit of its lap; slots not written yet still belong to lap "minus one". */
  ghost predicate Ring<T>(slots: seq<Slot<T>>, written: seq<Slot<T>>)
  {
    && |slots| > 0
    && (forall n :: 0 <= n < |written| ==> written[n].mark % 2 == Parity(n, |slots|))
    && (forall n {:trigger written[n]} :: 0 <= n < |written| && |written| - |slots| <= n ==> slots[n % |slots|] == written[n])
    && (forall j :: |written| <= j < |slots| ==> slots[j].mark % 2 == 1)
  }

  /** The consumer's test finds the slot of its index new if and only if hardware has written
      that index, and what it then reads is that entry. */
  lemma NewIffWritten<T>(slots: seq<Slot<T>>, written: seq<Slot<T>>, h: nat)
    requires Ring(slots, written) && |written| - |slots| <= h <= |written|
    ensures slots[h % |slots|].mark % 2 == Parity(h, |slots|) <==> h < |written|
    ensures h < |written| ==> slots[h % |slots|] == written[h]
  {
    if h == |written| {
      var depth := |slots|;
      if h >= depth {
        NextLap(h - depth, depth);
        assert slots[(h - depth) % depth] == written[h - depth];
      } else {
        DivModUnique(h, depth, 0, h);
      }
    }
  }

  lemma WriteKeepsRing<T>(slots: seq<Slot<T>>, written: seq<Slot<T>>, e: Slot<T>)
    requires Ring(slots, written) && e.mark % 2 == Parity(|written|, |slots|)
    ensures Ring(slots[|written| % |slots| := e], written + [e])
  {
    var w, t, depth := |written|, written + [e], |slots|;
    var after := slots[w % depth := e];
    forall n | 0 <= n < |t| && |t| - depth <= n ensures after[n % depth] == t[n] {
      if n < w {
        SlotsDiffer(n, w, depth);
        assert written[n] == t[n];
      }
    }
    forall j | |t| <= j < depth ensures after[j].mark % 2 == 1 {
      DivModUnique(w, depth, 0, w);
    }
  }

  // ---------------------------------------------------------------- the event queue

  datatype Event = Event(kind: u8, data: nat)

  const COMPLETION: u8 := 0

  function Completions(events: seq<Slot<Event>>): nat
  {
    if events == [] then 0
    else Completions(events[..|events| - 1]) + if events[|events| - 1].body.kind == COMPLETION then 1 else 0
  }

  lemma CompletionsSnoc(events: seq<Slot<Event>>, e: Slot<Event>)
    ensures Completions(events + [e]) == Completions(events) + if e.body.kind == COMPLETION then 1 else 0
  {
    assert (events + [e])[..|events|] == events;
  }

  lemma Middle<T>(first: seq<T>, got: seq<T>, whole: seq<T>, n: nat)
    requires n <= |whole| && first + got == whole[..n]
    ensures got == whole[|first|..n] && |first| + |got| == n
  {
    assert whole[..n][|first|..] == whole[|first|..n];
    assert (first + got)[|first|..] == got;
  }

  class EventQueue {
    const logSize: nat
    const eqes: array<Slot<Event>>
    var head: u32
    var eqn: u8
    var armed: bool
    var polling: bool
    var overflow: nat
    /** The last doorbell: 24 bits of consumer index under 8 bits of EQ number. */
    var doorbell: u32

    var written: seq<Slot<Event>>
    ghost var consumed: nat
    ghost var published: nat
    /** Every event given to the notifier (or counted as unknown when there is none). */
    ghost var delivered: seq<Slot<Event>>

    ghost predicate Valid()
      reads this, eqes
    {
      && 4 <= logSize <= 16 && eqes.Length == Pow2(logSize)
      && Ring(eqes[..], written)
      && published <= consumed <= |written| <= published + eqes.Length
      && head == consumed % 0x1_0000_0000
      && doorbell % 0x100_0000 == published % 0x100_0000
      && delivered == written[..consumed]
    }

    /** Init fills the ring with zeroes and owner 1. */
    constructor (logSize: nat)
      requires 4 <= logSize <= 16
      ensures Valid() && !armed && !polling && fresh(eqes)
      ensures this.logSize == logSize && written == [] && published == 0
    {
      this.logSize := logSize;
      eqes := new Slot<Event>[Pow2(logSize)](_ => Slot(0, Event(0, 0)));
      head, eqn, armed, polling, overflow, doorbell := 0, 0, false, false, 0, 0;
      written, consumed, published, delivered := [], 0, 0, [];
      new;
      for i := 0 to eqes.Length
        invariant forall j :: 0 <= j < i ==> eqes[j].mark % 2 == 1
        modifies eqes
      {
        eqes[i] := Slot(1, Event(0, 0));
      }
    }

    /** Environment: hardware writes any number of entries, never more than a ring beyond the
        index it reads in the doorbell. */
    method Hardware()
      requires Valid()
      modifies eqes, `written
      ensures Valid() && old(written) <= written
    {
      var left: nat := *;
      WidenOf(this);
      var limit := Widen(doorbell % 0x100_0000, |written|) + eqes.Length;
      while left > 0 && |written| < limit
        invariant Valid() && old(written) <= written && limit == published + eqes.Length
      {
        Write();
        left := left - 1;
      }
    }

    /** Environment: one entry, in the slot of its index and with the owner bit of its lap. */
    method Write()
      requires Valid() && |written| < published + eqes.Length
      modifies eqes, `written
      ensures Valid() && |written| == |old(written)| + 1 && old(written) <= written
    {
      var bits: nat, kind: nat, data: nat := *, *, *;
      var e := Slot(bits % 128 * 2 + Parity(|written|, eqes.Length), Event(kind % 256, data));
      WriteKeepsRing(eqes[..], written, e);
      ghost var before := eqes[..];
      eqes[|written| % eqes.Length] := e;
      assert eqes[..] == before[|written| % eqes.Length := e];
      written := written + [e];
      assert written[..consumed] == old(written)[..consumed];
    }

    /** UpdateCi: without an EQ number nothing is written. */
    method UpdateCi()
      requires Valid()
      modifies `doorbell, `published
      ensures Valid()
      ensures eqn != 0 ==> published == consumed && doorbell / 0x100_0000 == eqn
      ensures eqn == 0 ==> published == old(published) && doorbell == old(doorbell)
    {
      if eqn == 0 {
        return;
      }
      doorbell := head % 0x100_0000 + eqn * 0x100_0000;
      published := consumed;
      LowBits(consumed);
    }

    method Arm()
      requires Valid()
      modifies `armed, `doorbell, `published
      ensures Valid() && armed && published == (if eqn != 0 then consumed else old(published))
    {
      armed := true;
      UpdateCi();
    }

    /** Everything that may happen between two steps of Poll: hardware writes, another thread
        arms the queue, or polls it while `polling` is set. */
    method Others()
      requires Valid() && polling
      modifies this, eqes
      ensures Valid() && polling && old(written) <= written && consumed == old(consumed) && delivered == old(delivered)
      ensures eqn == old(eqn) && overflow == old(overflow) && published >= old(published) && (old(armed) ==> armed)
      decreases 1, 0
    {
      Hardware();
      var arms: bool, polls: bool := *, *;
      if arms {
        Arm();
      }
      if polls {
        var n, c := Poll();
        assert n == 0;
      }
      Hardware();
    }

    /** One turn of Poll's loop: test the slot of the head, copy the entry, advance. Hardware
        may be writing all the while. */
    method Take() returns (taken: bool, kind: u8)
      requires Valid() && polling
      modifies eqes, `head, `written, `consumed, `delivered
      ensures Valid() && old(written) <= written
      ensures !taken ==> consumed == old(consumed) == |old(written)|
      ensures taken ==> consumed == old(consumed) + 1 && |delivered| == |old(delivered)| + 1 && old(delivered) < delivered
      ensures taken ==> kind == delivered[|old(delivered)|].body.kind
    {
      PlaceOfHead(consumed, logSize);
      NewIffWritten(eqes[..], written, consumed);
      var at := head % eqes.Length;
      if eqes[at].mark % 2 != Parity(head, eqes.Length) {
        return false, 0;
      }
      Hardware();
      NewIffWritten(eqes[..], written, consumed);
      var local := eqes[at];
      IncrementWraps(consumed);
      head := (head + 1) % 0x1_0000_0000;
      consumed := consumed + 1;
      assert written[..consumed] == written[..consumed - 1] + [local];
      delivered := delivered + [local];
      return true, local.body.kind;
    }

    /** A turn among everything else that goes on, the handler included. */
    method Turn() returns (taken: bool, kind: u8)
      requires Valid() && polling
      modifies this, eqes
      ensures Valid() && polling && old(written) <= written && eqn == old(eqn) && overflow == old(overflow)
      ensures !taken ==> consumed == old(consumed) && |old(written)| <= consumed && delivered == old(delivered)
      ensures taken ==> consumed == old(consumed) + 1 && |delivered| == |old(delivered)| + 1 && old(delivered) < delivered
      ensures taken ==> kind == delivered[|old(delivered)|].body.kind
      decreases 1, 1
    {
      Others();
      taken, kind := Take();
      if taken {
        Others();
      }
    }

    /** Poll. It hands on the next entries hardware wrote, in order and once each, at most 64 of
        them, and stops short of 64 only when it has seen the ring drained. A nested Poll, from
        a handler or another thread, does nothing. Each entry is copied before its index is
        published, which is when hardware may reuse its slot. */
    method Poll() returns (processed: nat, completions: nat)
      requires Valid()
      modifies this, eqes
      ensures Valid() && polling == old(polling) && eqn == old(eqn) && old(written) <= written
      ensures old(polling) || !old(armed) ==> processed == 0 && consumed == old(consumed) && published == old(published)
      ensures old(polling) || !old(armed) ==> armed == old(armed) && overflow == old(overflow)
      ensures processed <= 64 && consumed == old(consumed) + processed
      ensures delivered == old(delivered) + written[old(consumed)..consumed]
      ensures completions == Completions(written[old(consumed)..consumed])
      ensures old(armed) && !old(polling) && processed < 64 ==> consumed >= |old(written)|
      ensures processed > 0 && eqn != 0 ==> published == consumed
      ensures overflow == old(overflow) + if processed == 64 then 1 else 0
      decreases if polling then 0 else 2
    {
      processed, completions := 0, 0;
      if !armed || polling {
        Middle(delivered, [], written, consumed);
        return;
      }
      polling := true;
      ghost var got;
      processed, completions, got := Drain();
      Middle(old(delivered), got, written, consumed);
      if processed == 64 {
        overflow := overflow + 1;
      }
      if processed > 0 {
        UpdateCi();
      }
      polling := false;
    }

    /** The loop of Poll. */
    method Drain() returns (processed: nat, completions: nat, ghost got: seq<Slot<Event>>)
      requires Valid() && polling
      modifies this, eqes
      ensures Valid() && polling && old(written) <= written && eqn == old(eqn) && overflow == old(overflow)
      ensures processed <= 64 && consumed == old(consumed) + processed
      ensures delivered == old(delivered) + got && completions == Completions(got)
      ensures processed < 64 ==> consumed >= |old(written)|
      decreases 1, 2
    {
      processed, completions, got := 0, 0, [];
      while processed < 64
        invariant Valid() && polling && eqn == old(eqn) && old(written) <= written && overflow == old(overflow)
        invariant consumed == old(consumed) + processed && processed <= 64
        invariant delivered == old(delivered) + got && completions == Completions(got)
        decreases 64 - processed
      {
        ghost var before := delivered;
        var taken, kind := Turn();
        if !taken {
          break;
        }
        ghost var e := delivered[|before|];
        CompletionsSnoc(got, e);
        OneMore(old(delivered), got, before, delivered);
        got := got + [e];
        processed := processed + 1;
        if kind == COMPLETION {
          completions := completions + 1;
        }
      }
    }
  }

  lemma OneMore<T>(first: seq<T>, got: seq<T>, before: seq<T>, now: seq<T>)
    requires before == first + got && before < now && |now| == |before| + 1
    ensures now == first + (got + [now[|before|]])
  {
    assert now == before + [now[|before|]];
  }

  lemma WidenOf(q: EventQueue)
    requires q.Valid()
    ensures Widen(q.doorbell % 0x100_0000, |q.written|) == q.published
  {
    Pow2Monotone(q.logSize, 16);
    Pow2Values();
    WidenInverts(q.published, |q.written|);
  }

  lemma LowBits(n: nat)
    ensures n % 0x1_0000_0000 % 0x100_0000 == n % 0x100_0000
  {
  }

  lemma IncrementWraps(n: nat)
    ensures (n % 0x1_0000_0000 + 1) % 0x1_0000_0000 == (n + 1) % 0x1_0000_0000
  {
  }

  lemma PlaceOfHead(n: nat, logSize: nat)
    requires logSize <= 16
    ensures n % 0x1_0000_0000 % Pow2(logSize) == n % Pow2(logSize)
    ensures Parity(n % 0x1_0000_0000, Pow2(logSize)) == Parity(n, Pow2(logSize))
  {
    Pow2Values();
    WrapKeepsPlace(n, 32, logSize);
  }

  // ---------------------------------------------------------------- the completion queue

  /** The driver's test for a new CQE: the owner bit of the lap, and an opcode other than the
      "invalid" 15 that a fresh slot carries in 0xf1. */
  predicate IsNew(slots: seq<Slot<nat>>, at: nat, parity: nat)
    requires at < |slots|
  {
    slots[at].mark % 2 == parity && slots[at].mark / 16 != 15
  }

  ghost predicate CqRing(slots: seq<Slot<nat>>, written: seq<Slot<nat>>)
  {
    && Ring(slots, written)
    && (forall n :: 0 <= n < |written| ==> written[n].mark / 16 != 15)
    && (forall j :: |written| <= j < |slots| ==> slots[j].mark == 0xf1)
  }

  /** What the test says at an index the consumer has been moved to without regard to what was
      written: nothing is new ahead of hardware, except exactly one lap ahead, where the oldest
      entry of a full ring, already consumed, passes for a new one. */
  lemma NewAhead(slots: seq<Slot<nat>>, written: seq<Slot<nat>>, h: nat)
    requires CqRing(slots, written) && |written| <= h <= |written| + |slots|
    ensures IsNew(slots, h % |slots|, Parity(h, |slots|)) <==> h == |written| + |slots| && |written| >= |slots|
    ensures h == |written| + |slots| && |written| >= |slots| ==> slots[h % |slots|] == written[|written| - |slots|]
  {
    var depth := |slots|;
    NewestAt(slots, written, h);
    if h < depth {
      DivModUnique(h, depth, 0, h);
    } else {
      NextLap(h - depth, depth);
      if h == |written| + depth {
        if |written| >= depth {
          NextLap(|written| - depth, depth);
          assert slots[(|written| - depth) % depth] == written[|written| - depth];
        } else {
          DivModUnique(|written|, depth, 0, |written|);
        }
      }
    }
  }

  lemma CqWriteKeepsRing(slots: seq<Slot<nat>>, written: seq<Slot<nat>>, e: Slot<nat>)
    requires CqRing(slots, written) && e.mark % 2 == Parity(|written|, |slots|) && e.mark / 16 != 15
    ensures CqRing(slots[|written| % |slots| := e], written + [e])
  {
    WriteKeepsRing(slots, written, e);
    if |written| < |slots| {
      DivModUnique(|written|, |slots|, 0, |written|);
    }
  }

  /** A slot between hardware's index and a lap beyond holds the entry of the lap before. */
  lemma NewestAt(slots: seq<Slot<nat>>, written: seq<Slot<nat>>, h: nat)
    requires CqRing(slots, written) && |written| <= h
    ensures |slots| <= h < |written| + |slots| ==>
              slots[h % |slots|] == written[h - |slots|] && Parity(h - |slots|, |slots|) != Parity(h, |slots|)
  {
    var depth := |slots|;
    if depth <= h < |written| + depth {
      NextLap(h - depth, depth);
      assert slots[(h - depth) % depth] == written[h - depth];
    }
  }

  datatype CqCode = CqOk | CqBadArgument

  /** The test UpdateCqConsumer applies to the 24-bit index a client claims. */
  predicate AcceptsConsumer(bundle: bool, depth: nat, current: nat, claimed: nat)
  {
    bundle || (claimed - current) % 0x100_0000 <= depth
  }

  class CompletionQueue {
    const logSize: nat
    const cqes: array<Slot<nat>>
    /** The client polls and publishes for itself through its own doorbell record. */
    const bundle: bool
    var consumerIndex: u64
    var dbRecord: u32
    var completions: nat

    var written: seq<Slot<nat>>
    ghost var consumed: nat
    ghost var published: nat

    ghost predicate Valid()
      reads this, cqes
    {
      && 6 <= logSize <= 11 && cqes.Length == Pow2(logSize)
      && CqRing(cqes[..], written)
      && consumerIndex % 0x100_0000 == consumed % 0x100_0000
      && dbRecord == published % 0x100_0000
      && published <= |written| <= published + cqes.Length
      && (bundle || published <= consumed)
    }

    /** The driver's consumer index is within the ring, which on the shared path it always is. */
    ghost predicate InStep()
      reads this, cqes
    {
      |written| - cqes.Length <= consumed <= |written|
    }

    constructor (logSize: nat, bundle: bool)
      requires 6 <= logSize <= 11
      ensures Valid() && InStep() && written == [] && consumed == 0 && this.logSize == logSize && this.bundle == bundle && fresh(cqes)
    {
      this.logSize, this.bundle := logSize, bundle;
      cqes := new Slot<nat>[Pow2(logSize)](_ => Slot(0, 0));
      consumerIndex, dbRecord, completions, written, consumed, published := 0, 0, 0, [], 0, 0;
      new;
      for i := 0 to cqes.Length
        invariant forall j :: 0 <= j < i ==> cqes[j].mark == 0xf1
        modifies cqes
      {
        cqes[i] := Slot(0xf1, 0);
      }
    }

    /** Environment: as for the event queue. */
    method Hardware()
      requires Valid()
      modifies cqes, `written
      ensures Valid() && old(written) <= written && (old(InStep()) && (!bundle || published <= consumed) ==> InStep())
    {
      var left: nat := *;
      Pow2Monotone(logSize, 11);
      assert Pow2(11) == 2048;
      WidenInverts(published, |written|);
      var limit := Widen(dbRecord, |written|) + cqes.Length;
      while left > 0 && |written| < limit
        invariant Valid() && old(written) <= written && limit == published + cqes.Length
      {
        Write();
        left := left - 1;
      }
    }

    method Write()
      requires Valid() && |written| < published + cqes.Length
      modifies cqes, `written
      ensures Valid() && |written| == |old(written)| + 1 && old(written) <= written
    {
      var bits: nat, data: nat := *, *;
      var mark := bits % 120 * 2 + Parity(|written|, cqes.Length);
      var e := Slot(mark, data);
      MarkIsValid(bits, Parity(|written|, cqes.Length));
      CqWriteKeepsRing(cqes[..], written, e);
      ghost var before := cqes[..];
      cqes[|written| % cqes.Length] := e;
      assert cqes[..] == before[|written| % cqes.Length := e];
      written := written + [e];
    }

    /** PollCQ: at most `maxEntries` completions, the next ones hardware wrote, in order and
        once each; fewer only when the ring was seen empty. On the shared path what has been
        read is then released to hardware. */
    method PollCQ(maxEntries: nat) returns (wcs: seq<Slot<nat>>)
      requires Valid() && InStep() && published <= consumed && maxEntries <= 16
      modifies cqes, `consumerIndex, `dbRecord, `written, `consumed, `published
      ensures Valid() && InStep() && published <= consumed && old(written) <= written
      ensures |wcs| <= maxEntries && consumed == old(consumed) + |wcs|
      ensures wcs == written[old(consumed)..consumed]
      ensures |wcs| < maxEntries ==> consumed >= |old(written)|
      ensures published == if wcs != [] && !bundle then consumed else old(published)
    {
      wcs := [];
      while |wcs| < maxEntries
        invariant Valid() && InStep() && published == old(published) <= consumed && old(written) <= written
        invariant |wcs| <= maxEntries && consumed == old(consumed) + |wcs|
        invariant wcs == written[old(consumed)..consumed]
      {
        Hardware();
        var taken, wc := TakeCqe();
        if !taken {
          break;
        }
        assert written[old(consumed)..consumed] == wcs + [wc];
        wcs := wcs + [wc];
      }
      if wcs != [] && !bundle {
        dbRecord := consumerIndex % 0x1_0000_0000 % 0x100_0000;
        LowBits(consumerIndex);
        published := consumed;
      }
    }

    /** One turn of PollCQ's loop: test, copy, advance. */
    method TakeCqe() returns (taken: bool, wc: Slot<nat>)
      requires Valid() && InStep() && published <= consumed
      modifies cqes, `consumerIndex, `written, `consumed
      ensures Valid() && InStep() && published <= consumed && old(written) <= written
      ensures !taken ==> consumed == old(consumed) == |old(written)|
      ensures taken ==> consumed == old(consumed) + 1 && wc == written[old(consumed)]
    {
      PlaceOfConsumer(consumerIndex, consumed, logSize);
      NewIffWritten(cqes[..], written, consumed);
      LastIsFresh(cqes[..], written, consumed);
      var at := consumerIndex % cqes.Length;
      if !IsNew(cqes[..], at, Parity(consumerIndex, cqes.Length)) {
        return false, Slot(0, 0);
      }
      Hardware();
      NewIffWritten(cqes[..], written, consumed);
      wc := cqes[at];
      CountOn(consumerIndex, consumed);
      consumerIndex := (consumerIndex + 1) % 0x1_0000_0000_0000_0000;
      consumed := consumed + 1;
      return true, wc;
    }

    /** GetCompletions: completion events plus the entries waiting in the ring, all of those
        there when the call began and none that hardware has not written when it ends. */
    method GetCompletions() returns (total: nat)
      requires Valid() && InStep() && published <= consumed
      modifies cqes, `written
      ensures Valid() && InStep() && old(written) <= written
      ensures completions + |old(written)| - consumed <= total <= completions + |written| - consumed
    {
      var pending := 0;
      while pending < cqes.Length
        invariant Valid() && InStep() && old(written) <= written && pending <= cqes.Length
        invariant consumed + pending <= |written|
        decreases cqes.Length - pending
      {
        Hardware();
        var waiting := Waiting(pending);
        if !waiting {
          break;
        }
        pending := pending + 1;
      }
      return completions + pending;
    }

    method Waiting(pending: nat) returns (yes: bool)
      requires Valid() && InStep() && consumed + pending <= |written|
      ensures yes <==> consumed + pending < |written|
    {
      var index := consumerIndex + pending;
      CountOnBy(consumerIndex, consumed, pending);
      PlaceOfConsumer(index, consumed + pending, logSize);
      LastIsFresh(cqes[..], written, consumed + pending);
      return IsNew(cqes[..], index % cqes.Length, Parity(index, cqes.Length));
    }

    /** UpdateCqConsumer: the index moves forward by what the low 24 bits say. A ring that was
        in step stays so if and only if the client claims no more than is pending. */
    method UpdateCqConsumer(claimed: u32) returns (code: CqCode)
      requires Valid()
      modifies `consumerIndex, `dbRecord, `consumed, `published
      ensures code.CqOk? <==> AcceptsConsumer(bundle, cqes.Length, old(consumed), claimed)
      ensures !code.CqOk? ==> consumed == old(consumed) && published == old(published) && dbRecord == old(dbRecord) && Valid()
      ensures code.CqOk? ==> consumed == old(consumed) + (claimed - old(consumed)) % 0x100_0000 == published
      ensures code.CqOk? && old(InStep()) ==>
                (Valid() && InStep() <==> (claimed - old(consumed)) % 0x100_0000 <= |written| - old(consumed))
    {
      var current := consumerIndex % 0x100_0000;
      var requested := claimed % 0x100_0000;
      var forward := (requested - current) % 0x100_0000;
      Differences(claimed, consumed, consumerIndex);
      if !bundle && forward > cqes.Length {
        return CqBadArgument;
      }
      consumerIndex := requested;
      dbRecord := claimed % 0x100_0000;
      consumed := consumed + forward;
      published := consumed;
      return CqOk;
    }

  }

  lemma PlaceOfConsumer(index: nat, n: nat, logSize: nat)
    requires index % 0x100_0000 == n % 0x100_0000 && logSize <= 11
    ensures index % Pow2(logSize) == n % Pow2(logSize) && Parity(index, Pow2(logSize)) == Parity(n, Pow2(logSize))
  {
    Pow2Values();
    WrapKeepsPlace(index, 24, logSize);
    WrapKeepsPlace(n, 24, logSize);
  }

  lemma LastIsFresh(slots: seq<Slot<nat>>, written: seq<Slot<nat>>, h: nat)
    requires CqRing(slots, written) && |written| - |slots| <= h <= |written|
    ensures IsNew(slots, h % |slots|, Parity(h, |slots|)) <==> h < |written|
  {
    NewIffWritten(slots, written, h);
  }

  /** Any opcode below 15, any format bits, and the owner bit. */
  lemma MarkIsValid(bits: nat, owner: nat)
    requires owner < 2
    ensures bits % 120 * 2 + owner < 240 && (bits % 120 * 2 + owner) % 2 == owner && (bits % 120 * 2 + owner) / 16 != 15
  {
  }

  lemma CountOnBy(x: nat, n: nat, k: nat)
    requires x % 0x100_0000 == n % 0x100_0000
    ensures (x + k) % 0x100_0000 == (n + k) % 0x100_0000
  {
    DivModShift(x % 0x100_0000 + k, x / 0x100_0000, 0x100_0000);
    DivModShift(n % 0x100_0000 + k, n / 0x100_0000, 0x100_0000);
  }

  lemma CountOn(x: nat, n: nat)
    requires x % 0x100_0000 == n % 0x100_0000
    ensures (x + 1) % 0x1_0000_0000_0000_0000 % 0x100_0000 == (n + 1) % 0x100_0000
  {
  }

  lemma Differences(claimed: nat, consumed: nat, index: nat)
    requires index % 0x100_0000 == consumed % 0x100_0000
    ensures (claimed % 0x100_0000 - index % 0x100_0000) % 0x100_0000 == (claimed - consumed) % 0x100_0000
    ensures (consumed + (claimed - consumed) % 0x100_0000) % 0x100_0000 == claimed % 0x100_0000
  {
  }

  /** The bound of the shared path is one too generous: when everything has been consumed, a
      claim of a whole ring more is accepted, and the entry PollCQ returns next is one it
      returned before. Any smaller claim beyond what was written only makes PollCQ wait. */
  lemma WholeLapIsReplayed(slots: seq<Slot<nat>>, written: seq<Slot<nat>>, claimed: nat)
    requires CqRing(slots, written) && |slots| < 0x100_0000 && |written| <= claimed
    requires AcceptsConsumer(false, |slots|, |written|, claimed) && claimed < |written| + 0x100_0000
    ensures IsNew(slots, claimed % |slots|, Parity(claimed, |slots|)) <==> claimed == |written| + |slots| && |written| >= |slots|
    ensures AcceptsConsumer(false, |slots|, |written|, |written| + |slots|)
  {
    assert (claimed - |written|) % 0x100_0000 == claimed - |written|;
    NewAhead(slots, written, claimed);
  }
}
