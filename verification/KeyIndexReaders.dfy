/** MlxKeyIndex.hpp: a search without the lock, against one thread that inserts and removes keys
    under it. Every read and every write of a bucket word is a step of its own. */
module KeyIndexReaders {
  import opened Words
  import opened KeyIndex

  /** Where the writer is. An insertion stores the key of its bucket before the slot. */
  datatype Writer = Idle | Filling(bucket: nat, slot: nat)

  datatype Mem = Mem(t: Table, writer: Writer)

  /** What the writer does: `PutKey` and `PutSlot` are the two stores of an insertion, in the
      `d`-th bucket from the home of the key; `PutTombstone` is the one of a removal. */
  datatype Write = PutKey(key: u32, slot: nat, d: nat) | PutSlot | PutTombstone(bucket: nat) | NoWrite

  ghost predicate Writes(m: Mem, w: Write, m': Mem)
  {
    Shaped(m.t) &&
    match w
    case PutKey(key, slot, d) =>
      && m.writer.Idle? && !HasKey(m.t, key) && d < |m.t.slots| && FirstFree(m.t, HomeOf(|m.t.slots|)(key), d)
      && var b := At(HomeOf(|m.t.slots|)(key), d, |m.t.slots|);
         m' == Mem(m.t.(keys := m.t.keys[b := key]), Filling(b, slot))
    case PutSlot =>
      && m.writer.Filling? && m.writer.bucket < |m.t.slots|
      && m' == Mem(m.t.(slots := m.t.slots[m.writer.bucket := m.writer.slot + 1]), Idle)
    case PutTombstone(b) =>
      && m.writer.Idle? && b < |m.t.slots| && Live(m.t, b)
      && m' == Mem(m.t.(slots := m.t.slots[b := -1]), Idle)
    case NoWrite => m' == m
  }

  /** The table is sound at every step, and the bucket of an unfinished insertion is where its
      key belongs. */
  ghost predicate Inv(m: Mem)
  {
    Sound(m.t) && (m.writer.Filling? ==> m.writer.bucket < |m.t.slots| && Belongs(m.t, m.writer.bucket))
  }

  ghost predicate Belongs(t: Table, b: nat)
    requires Shaped(t) && b < |t.slots|
  {
    !HasKey(t, t.keys[b]) && exists d: nat :: d < |t.slots| && FreeAt(t, t.keys[b], d, b)
  }

  ghost predicate FreeAt(t: Table, key: u32, d: nat, b: nat)
    requires Shaped(t) && d < |t.slots|
  {
    FirstFree(t, HomeOf(|t.slots|)(key), d) && b == At(HomeOf(|t.slots|)(key), d, |t.slots|)
  }

  /** The map changes with the second store of an insertion and with the tombstone. */
  ghost function ViewAfter(m: Mem, w: Write): map<u32, nat>
    requires Inv(m) && exists m' :: Writes(m, w, m')
  {
    match w
    case PutSlot => View(m.t)[m.t.keys[m.writer.bucket] := m.writer.slot]
    case PutTombstone(b) => View(m.t) - {m.t.keys[b]}
    case _ => View(m.t)
  }

  lemma KeepsInv(m: Mem, w: Write, m': Mem)
    requires Inv(m) && Writes(m, w, m')
    ensures Inv(m') && |m'.t.slots| == |m.t.slots| && View(m'.t) == ViewAfter(m, w)
  {
    match w
    case PutKey(key, slot, d) =>
      KeyIsStored(m.t, m'.t, key, d, m'.writer.bucket);
    case PutSlot =>
      var b := m.writer.bucket;
      var d: nat :| d < |m.t.slots| && FreeAt(m.t, m.t.keys[b], d, b);
      assert m.t.keys[b := m.t.keys[b]] == m.t.keys;
      FilledIsSound(m.t, m'.t, m.t.keys[b], m.writer.slot, d);
    case PutTombstone(b) =>
      RemoveIsSound(m.t, m'.t, m.t.keys[b], b, HomeOf(|m.t.slots|));
    case NoWrite =>
  }

  /** A key stored in a bucket that is not live changes nothing. */
  lemma KeyIsStored(t: Table, u: Table, key: u32, d: nat, b: nat)
    requires Sound(t) && !HasKey(t, key) && d < |t.slots| && FreeAt(t, key, d, b) && u == t.(keys := t.keys[b := key])
    ensures Sound(u) && Belongs(u, b) && View(u) == View(t)
  {
    assert FreeAt(u, key, d, b);
    forall c | 0 <= c < |u.slots| ensures !Holds(u, c, key) {
      assert !Holds(t, c, key);
    }
    forall c | 0 <= c < |u.slots| && Live(u, c) ensures Reachable(u, c, HomeOf(|u.slots|)(u.keys[c])) {
      assert Live(t, c) && Reachable(t, c, HomeOf(|t.slots|)(t.keys[c]));
    }
    forall c, e | 0 <= c < |u.slots| && 0 <= e < |u.slots| && Live(u, c) && Live(u, e) && u.keys[c] == u.keys[e] ensures c == e {
      assert Live(t, c) && Live(t, e);
    }
    forall k ensures (k in View(u) <==> k in View(t)) && (k in View(t) ==> View(u)[k] == View(t)[k]) {
      SameAway(t, u, b, k);
    }
  }

  // ---------------------------------------------------------------- what a reader sees

  /** The memory step by step, while a reader is at work. */
  ghost predicate Trace(mems: seq<Mem>, writes: seq<Write>)
  {
    |mems| == |writes| + 1 && Inv(mems[0]) && forall i :: 0 <= i < |writes| ==> Writes(mems[i], writes[i], mems[i + 1])
  }

  lemma {:induction false} TraceInv(mems: seq<Mem>, writes: seq<Write>, i: nat)
    requires Trace(mems, writes) && i < |mems|
    ensures Inv(mems[i]) && |mems[i].t.slots| == |mems[0].t.slots|
  {
    if i > 0 {
      TraceInv(mems, writes, i - 1);
      KeepsInv(mems[i - 1], writes[i - 1], mems[i]);
    }
  }

  predicate Stored(mems: seq<Mem>, key: u32)
  {
    forall i :: 0 <= i < |mems| ==> StoredIn(mems[i], key)
  }

  predicate StoredIn(m: Mem, key: u32) { Shaped(m.t) && HasKey(m.t, key) }

  /** A bucket that was used stays used. */
  lemma {:induction false} StaysUsed(mems: seq<Mem>, writes: seq<Write>, i: nat, j: nat, b: nat)
    requires Trace(mems, writes) && i <= j < |mems| && b < |mems[0].t.slots|
    ensures |mems[i].t.slots| == |mems[j].t.slots| == |mems[0].t.slots|
    ensures mems[i].t.slots[b] != 0 ==> mems[j].t.slots[b] != 0
  {
    TraceInv(mems, writes, j);
    if i < j {
      StaysUsed(mems, writes, i, j - 1, b);
      TraceInv(mems, writes, j - 1);
      assert Writes(mems[j - 1], writes[j - 1], mems[j]);
    }
  }

  lemma KeepsKey(m: Mem, w: Write, m': Mem, key: u32, b: nat)
    requires Inv(m) && Writes(m, w, m') && StoredIn(m', key) && b < |m.t.slots| && Holds(m.t, b, key)
    ensures |m'.t.slots| == |m.t.slots| && Holds(m'.t, b, key) && m'.t.slots[b] == m.t.slots[b]
  {
    assert Live(m.t, b);
    assert forall e :: 0 <= e < |m.t.slots| && Live(m.t, e) && m.t.keys[e] == key ==> e == b;
  }

  /** A key that stays in the table stays in its bucket, with its slot. */
  lemma {:induction false} KeyStays(mems: seq<Mem>, writes: seq<Write>, key: u32, j: nat, b: nat)
    requires Trace(mems, writes) && Stored(mems, key) && j < |mems| && b < |mems[0].t.slots| && Holds(mems[0].t, b, key)
    ensures |mems[j].t.slots| == |mems[0].t.slots| && Shaped(mems[j].t) && Holds(mems[j].t, b, key)
    ensures mems[j].t.slots[b] == mems[0].t.slots[b]
  {
    if j > 0 {
      KeyStays(mems, writes, key, j - 1, b);
      TraceInv(mems, writes, j - 1);
      assert StoredIn(mems[j], key);
      KeepsKey(mems[j - 1], writes[j - 1], mems[j], key, b);
    }
  }

  /** While the key stays in the table, no other bucket gets it. */
  lemma {:induction false} NotTheKey(mems: seq<Mem>, writes: seq<Write>, key: u32, i: nat, j: nat, b: nat)
    requires Trace(mems, writes) && Stored(mems, key) && i <= j < |mems| && b < |mems[0].t.slots|
    requires |mems[i].t.slots| == |mems[0].t.slots| && Shaped(mems[i].t) && mems[i].t.keys[b] != key
    ensures |mems[j].t.slots| == |mems[0].t.slots| && Shaped(mems[j].t) && mems[j].t.keys[b] != key
  {
    if i < j {
      NotTheKey(mems, writes, key, i, j - 1, b);
      assert StoredIn(mems[j - 1], key);
      KeepsAway(mems[j - 1], writes[j - 1], mems[j], key, b);
    }
  }

  lemma KeepsAway(m: Mem, w: Write, m': Mem, key: u32, b: nat)
    requires Writes(m, w, m') && StoredIn(m, key) && b < |m.t.slots| && m.t.keys[b] != key
    ensures Shaped(m'.t) && |m'.t.slots| == |m.t.slots| && m'.t.keys[b] != key
  {
  }

  predicate Missing(mems: seq<Mem>, key: u32)
  {
    forall i :: 0 <= i < |mems| ==> MissingIn(mems[i], key)
  }

  predicate MissingIn(m: Mem, key: u32) { Shaped(m.t) && !HasKey(m.t, key) }

  /** While the key stays out of the table, a bucket that was live has its word for key only
      while an insertion of the key waits for its second store. */
  predicate NotYet(m: Mem, key: u32, b: nat)
  {
    b < |m.t.slots| && b < |m.t.keys| &&
    (m.t.keys[b] == key ==> m.writer.Filling? && m.writer.bucket == b && m.t.slots[b] <= 0)
  }

  lemma {:induction false} KeyIsNotYet(mems: seq<Mem>, writes: seq<Write>, key: u32, i: nat, j: nat, b: nat)
    requires Trace(mems, writes) && Missing(mems, key) && i <= j < |mems| && NotYet(mems[i], key, b)
    ensures NotYet(mems[j], key, b) && (mems[i].t.keys[b] == key ==> mems[j].t.keys[b] == key)
  {
    if i < j {
      KeyIsNotYet(mems, writes, key, i, j - 1, b);
      assert Writes(mems[j - 1], writes[j - 1], mems[j]) && MissingIn(mems[j], key);
      TraceInv(mems, writes, j - 1);
      assert !Holds(mems[j].t, b, key);
    }
  }

  /** Bucket `b` ends the search at every time: the key's own, with its slot, or one never used. */
  predicate Ends(mems: seq<Mem>, key: u32, b: nat)
  {
    forall i :: 0 <= i < |mems| ==> EndsIn(mems[0], mems[i], key, b, Stored(mems, key))
  }

  predicate EndsIn(first: Mem, m: Mem, key: u32, b: nat, stored: bool)
  {
    && Shaped(m.t) && Shaped(first.t) && |m.t.slots| == |first.t.slots| && b < |m.t.slots|
    && if stored then Holds(m.t, b, key) && m.t.slots[b] == first.t.slots[b] else m.t.slots[b] == 0
  }

  lemma WhereItEnds(mems: seq<Mem>, writes: seq<Write>, key: u32) returns (b: nat)
    requires Trace(mems, writes)
    requires Stored(mems, key) || HasEmpty(mems[|mems| - 1].t)
    ensures b < |mems[0].t.slots| && Ends(mems, key, b)
    ensures Stored(mems, key) ==> Holds(mems[0].t, b, key)
  {
    var last := |mems| - 1;
    TraceInv(mems, writes, last);
    if Stored(mems, key) {
      assert StoredIn(mems[0], key);
      b :| 0 <= b < |mems[0].t.slots| && Holds(mems[0].t, b, key);
      forall i | 0 <= i < |mems| ensures EndsIn(mems[0], mems[i], key, b, true) {
        KeyStays(mems, writes, key, i, b);
      }
    } else {
      b :| 0 <= b < |mems[last].t.slots| && mems[last].t.slots[b] == 0;
      forall i | 0 <= i < |mems| ensures EndsIn(mems[0], mems[i], key, b, false) {
        TraceInv(mems, writes, i);
        StaysUsed(mems, writes, i, last, b);
      }
    }
  }

  /** A search does not meet a never-used bucket before the bucket of a key that stays stored. */
  lemma NoGapBefore(mems: seq<Mem>, writes: seq<Write>, key: u32, stop: nat, d: nat, now: nat)
    requires Trace(mems, writes) && Stored(mems, key) && now < |mems|
    requires stop < |mems[0].t.slots| && Ends(mems, key, stop) && d <= Distance(HomeOf(|mems[0].t.slots|)(key), stop, |mems[0].t.slots|)
    ensures var b := At(HomeOf(|mems[0].t.slots|)(key), d, |mems[0].t.slots|);
            b < |mems[now].t.slots| && mems[now].t.slots[b] != 0
  {
    var t, home := mems[0].t, HomeOf(|mems[0].t.slots|)(key);
    assert EndsIn(mems[0], mems[0], key, stop, true) && EndsIn(mems[0], mems[now], key, stop, true);
    if d < Distance(home, stop, |t.slots|) {
      assert Live(t, stop) && Reachable(t, stop, home);
      assert t.slots[At(home, d, |t.slots|)] != 0;
      StaysUsed(mems, writes, 0, now, At(home, d, |t.slots|));
    }
  }

  /** A bucket seen live and then with the key is the key's bucket, if the key stays stored; if
      it stays out, the bucket is not live. */
  lemma MatchIsRight(mems: seq<Mem>, writes: seq<Write>, key: u32, stop: nat, b: nat, seen: nat, matched: nat, now: nat)
    requires Trace(mems, writes) && stop < |mems[0].t.slots| && Ends(mems, key, stop) && b < |mems[0].t.slots|
    requires seen <= matched <= now < |mems| && b < |mems[seen].t.slots| && b < |mems[matched].t.keys|
    requires mems[seen].t.slots[b] > 0 && mems[matched].t.keys[b] == key
    ensures Stored(mems, key) ==> b == stop
    ensures Missing(mems, key) ==> b < |mems[now].t.slots| && mems[now].t.slots[b] <= 0
  {
    TraceInv(mems, writes, seen);
    assert Live(mems[seen].t, b);
    if Stored(mems, key) && b != stop {
      assert EndsIn(mems[0], mems[seen], key, stop, true);
      assert Live(mems[seen].t, stop);
      NotTheKey(mems, writes, key, seen, matched, b);
    }
    if Missing(mems, key) {
      assert MissingIn(mems[seen], key) && !Holds(mems[seen].t, b, key);
      KeyIsNotYet(mems, writes, key, seen, matched, b);
      KeyIsNotYet(mems, writes, key, matched, now, b);
    }
  }

  /** mlxKeyIndexFind without the lock: any number of writes go on between its reads, four for
      each bucket. A key that stays stored is found, with its slot; for one that stays out the
      answer is negative. */
  method FindAmong(mems: seq<Mem>, writes: seq<Write>, key: u32) returns (slot: int)
    requires Trace(mems, writes)
    requires Stored(mems, key) || (Missing(mems, key) && HasEmpty(mems[|mems| - 1].t))
    ensures key in View(mems[0].t) ==> slot == View(mems[0].t)[key]
    ensures key !in View(mems[0].t) ==> slot < 0
  {
    ghost var stop := WhereItEnds(mems, writes, key);
    var cap := |mems[0].t.slots|;
    var h: nat := HomeOf(cap)(key);
    ghost var home := h;
    ghost var d := 0;
    var now := 0;
    while true
      invariant now < |mems| && 0 <= h < cap && 0 <= d <= Distance(home, stop, cap) && h == At(home, d, cap)
      decreases Distance(home, stop, cap) - d
    {
      now := Wait(now, |mems|);
      TraceInv(mems, writes, now);
      if mems[now].t.slots[h] == 0 {
        if Stored(mems, key) {
          NoGapBefore(mems, writes, key, stop, d, now);
        }
        return -1;
      }
      now := Wait(now, |mems|);
      TraceInv(mems, writes, now);
      if mems[now].t.slots[h] > 0 {
        ghost var seen := now;
        now := Wait(now, |mems|);
        TraceInv(mems, writes, now);
        if mems[now].t.keys[h] == key {
          ghost var matched := now;
          now := Wait(now, |mems|);
          TraceInv(mems, writes, now);
          MatchIsRight(mems, writes, key, stop, h, seen, matched, now);
          return mems[now].t.slots[h] - 1;
        }
      }
      h := Next(h, cap);
      d := d + 1;
    }
  }

  method Wait(now: nat, n: nat) returns (later: nat)
    requires now < n
    ensures now <= later < n
  {
    later :| now <= later < n;
  }
}
