/** MlxKeyIndex.hpp: the open-addressing index from 32-bit keys to table slots. Capacity is
    a power of two, so `(h + 1) & mask` is `h + 1` with wrap to 0 at the capacity. */
module KeyIndex {
  import opened Words

  // ---------------------------------------------------------------- sizing and hashing

  /** mlxKeyIndexCap. The loop doubles a 32-bit word: past 2^31 the word becomes 0 and the
      loop cannot end, which `CapDiverges` shows; up to 2^30 entries it ends with the least
      sufficient power of two. */
  method Cap(entries: u32) returns (cap: u32)
    requires entries <= 0x4000_0000
    ensures IsPow2(cap) && cap >= 2 && 2 * entries <= cap
    ensures cap > 2 ==> cap / 2 < 2 * entries
  {
    var need := 2 * entries;
    if need < 2 {
      need := 2;
    }
    cap := 1;
    while cap < need
      invariant IsPow2(cap) && 1 <= cap <= 0x8000_0000
      invariant cap > 1 ==> cap / 2 < need
      decreases need - cap
    {
      cap := Doubled(cap, need);
    }
  }

  /** `cap <<= 1` on a 32-bit word; below 2^31 nothing is shifted out. */
  function Doubled(cap: u32, need: nat): (next: u32)
    requires IsPow2(cap) && cap < need <= 0x8000_0000
    ensures next == 2 * cap <= 0x8000_0000 && IsPow2(next) && next / 2 < need
  {
    PowersBelow(cap);
    cap * 2 % U32
  }

  lemma PowersBelow(x: nat)
    requires IsPow2(x) && x < 0x8000_0000
    ensures 2 * x <= 0x8000_0000 && IsPow2(2 * x)
  {
    Pow2Values();
    Pow2IsPow2(30);
    assert Pow2(31) == 2 * Pow2(30);
    PowersAreSpaced(x, Pow2(30));
    assert 2 * x / 2 == x;
  }

  lemma {:induction false} Pow2IsPow2(n: nat)
    ensures IsPow2(Pow2(n))
  {
    if n > 0 {
      Pow2IsPow2(n - 1);
      assert Pow2(n) / 2 == Pow2(n - 1);
    }
  }

  lemma {:induction false} PowersAreSpaced(x: nat, y: nat)
    requires IsPow2(x) && IsPow2(y) && x < 2 * y
    ensures x <= y
  {
    if x > 1 && y > 1 {
      PowersAreSpaced(x / 2, y / 2);
    }
  }

  /** The loop variable after `n` turns. */
  function CapAfter(n: nat): u32
  {
    if n == 0 then 1 else CapAfter(n - 1) * 2 % U32
  }

  /** For more than 2^30 entries the loop test never fails: after 32 turns the word is 0. */
  lemma CapDiverges(entries: u32, n: nat)
    requires entries > 0x4000_0000
    ensures CapAfter(n) < 2 * entries
  {
    CapWordIs(n);
    if n <= 31 {
      Pow2Monotone(n, 31);
      Pow2Values();
    }
  }

  lemma DoubleWraps(x: u32)
    ensures x < 0x8000_0000 ==> x * 2 % U32 == x * 2
    ensures x == 0x8000_0000 || x == 0 ==> x * 2 % U32 == 0
  {
    if x < 0x8000_0000 {
      DivModUnique(x * 2, U32, 0, x * 2);
    } else if x == 0x8000_0000 {
      DivModUnique(x * 2, U32, 1, 0);
    }
  }

  lemma {:induction false} CapWordIs(n: nat)
    ensures CapAfter(n) == if n <= 31 then Pow2(n) else 0
  {
    if n > 0 {
      CapWordIs(n - 1);
      var k := if n <= 31 then n else 31;
      assert Pow2(k) <= 0x8000_0000 && Pow2(31) == 0x8000_0000 by {
        Pow2Values();
        Pow2Monotone(k, 31);
      }
      DoubleWraps(CapAfter(n - 1));
    }
  }

  /** Count of leading zeros of a 32-bit word: mlxKeyIndexShift is Clz32(cap - 1). */
  function BitLength(x: nat): nat
  {
    if x == 0 then 0 else 1 + BitLength(x / 2)
  }

  function Shift(cap: u32): int
    requires cap >= 2
  {
    32 - BitLength(cap - 1)
  }

  /** For a capacity of 2^k the shift leaves exactly k bits of the 32-bit product. */
  lemma {:induction false} ShiftOfPower(cap: nat)
    requires IsPow2(cap) && cap >= 2
    ensures Pow2(BitLength(cap - 1)) == cap && BitLength(cap - 1) >= 1
  {
    if cap == 2 {
      assert BitLength(1) == 1 + BitLength(0);
    } else {
      assert (cap - 1) / 2 == cap / 2 - 1;
      ShiftOfPower(cap / 2);
    }
  }

  /** The 32-bit product `key * 0x9E3779B9`. */
  function Product(key: u32): u32
  {
    key * 0x9E3779B9 % 0x1_0000_0000
  }

  function Hash(key: u32, shift: nat): (h: int)
  {
    Product(key) / Pow2(shift)
  }

  /** The hash is always a bucket of the table. */
  lemma HashInTable(key: u32, cap: u32)
    requires IsPow2(cap) && cap >= 2
    ensures 0 <= Shift(cap) <= 31 && 0 <= Hash(key, Shift(cap)) < cap
  {
    ShiftSplitsWord(cap);
    QuotientBelow(Product(key), cap, Pow2(Shift(cap)));
  }

  lemma ShiftSplitsWord(cap: u32)
    requires IsPow2(cap) && cap >= 2
    ensures 0 <= Shift(cap) <= 31 && cap * Pow2(Shift(cap)) == U32
  {
    ShiftOfPower(cap);
    WordSplits(cap, BitLength(cap - 1));
  }

  lemma WordSplits(cap: u32, k: nat)
    requires Pow2(k) == cap
    ensures k <= 31 && cap * Pow2(32 - k) == U32
  {
    assert Pow2(32) == U32 by {
      Pow2Values();
    }
    if k > 31 {
      Pow2Monotone(32, k);
    }
    Pow2Adds(k, 32 - k);
  }

  lemma QuotientBelow(x: nat, cap: int, p: int)
    requires p > 0 && x < cap * p
    ensures 0 <= x / p < cap
  {
    RemainderBound(x, p);
    if x / p >= cap {
      MulMonotone(cap, x / p, p);
    }
    if x / p <= -1 {
      MulMonotone(x / p, -1, p);
    }
  }

  // ---------------------------------------------------------------- tables

  /** `slots[h]` is slot + 1, 0 for never used, -1 for a tombstone. */
  datatype Table = Table(keys: seq<u32>, slots: seq<int>)

  predicate Shaped(t: Table)
  {
    |t.keys| == |t.slots| && 2 <= |t.slots| < U32 && IsPow2(|t.slots|)
  }

  predicate Live(t: Table, b: nat)
    requires b < |t.slots|
  {
    t.slots[b] > 0
  }

  predicate Holds(t: Table, b: nat, key: u32)
    requires Shaped(t) && b < |t.slots|
  {
    t.slots[b] > 0 && t.keys[b] == key
  }

  function Next(h: nat, cap: nat): nat { if h + 1 >= cap then 0 else h + 1 }

  /** Bucket visited at probe step `d`. */
  function At(h: nat, d: nat, cap: nat): nat
    requires h < cap && d <= cap
  {
    if h + d < cap then h + d else h + d - cap
  }

  function Distance(h: nat, b: nat, cap: nat): nat
    requires h < cap && b < cap
  {
    if b >= h then b - h else b + cap - h
  }

  /** The home bucket of every key in a table of `cap` buckets. */
  function HomeOf(cap: u32): (home: u32 -> nat)
    requires IsPow2(cap) && cap >= 2
    ensures forall key :: home(key) < cap
  {
    var shift := Shift(cap);
    assert 0 <= shift && forall key :: 0 <= Hash(key, shift) < cap by {
      HashInTable(0, cap);
      forall key ensures 0 <= Hash(key, shift) < cap {
        HashInTable(key, cap);
      }
    }
    key => Hash(key, shift)
  }

  /** The probe-chain invariant: keys of live buckets are distinct, and no never-used bucket
      lies between a live key's home and the bucket that holds it. */
  ghost predicate Sound(t: Table)
  {
    Shaped(t) && Chained(t, HomeOf(|t.slots|))
  }

  ghost predicate Chained(t: Table, home: u32 -> nat)
    requires Shaped(t)
  {
    && (forall key :: home(key) < |t.slots|)
    && Distinct(t)
    && (forall b :: 0 <= b < |t.slots| && Live(t, b) ==> Reachable(t, b, home(t.keys[b])))
  }

  ghost predicate Distinct(t: Table)
    requires Shaped(t)
  {
    forall b, c :: 0 <= b < |t.slots| && 0 <= c < |t.slots| && Live(t, b) && Live(t, c) && t.keys[b] == t.keys[c] ==> b == c
  }

  ghost predicate Reachable(t: Table, b: nat, h: nat)
    requires b < |t.slots| && h < |t.slots|
  {
    forall d :: 0 <= d < Distance(h, b, |t.slots|) ==> t.slots[At(h, d, |t.slots|)] != 0
  }

  predicate HasKey(t: Table, key: u32)
    requires Shaped(t)
  {
    exists b :: 0 <= b < |t.slots| && Holds(t, b, key)
  }

  predicate HasEmpty(t: Table)
  {
    exists b :: 0 <= b < |t.slots| && t.slots[b] == 0
  }

  /** The finite map the table stands for. */
  ghost function View(t: Table): map<u32, nat>
    requires Shaped(t)
  {
    map key | key in StoredKeys(t) :: t.slots[BucketOf(t, key)] - 1
  }

  ghost function StoredKeys(t: Table): set<u32>
    requires Shaped(t)
  {
    set b | 0 <= b < |t.slots| && t.slots[b] > 0 :: t.keys[b]
  }

  ghost function BucketOf(t: Table, key: u32): (b: nat)
    requires Shaped(t) && key in StoredKeys(t)
    ensures b < |t.slots| && Holds(t, b, key)
  {
    assert exists b :: 0 <= b < |t.slots| && Holds(t, b, key) by {
      var b :| 0 <= b < |t.slots| && t.slots[b] > 0 && t.keys[b] == key;
      assert Holds(t, b, key);
    }
    var b :| 0 <= b < |t.slots| && Holds(t, b, key);
    b
  }

  lemma ViewHas(t: Table, key: u32)
    requires Shaped(t)
    ensures key in View(t) <==> HasKey(t, key)
  {
    if HasKey(t, key) {
      var b :| 0 <= b < |t.slots| && Holds(t, b, key);
      assert t.keys[b] in StoredKeys(t);
    }
  }

  lemma ViewAt(t: Table, b: nat)
    requires Shaped(t) && Distinct(t) && b < |t.slots| && t.slots[b] > 0
    ensures t.keys[b] in View(t) && View(t)[t.keys[b]] == t.slots[b] - 1
  {
    var key := t.keys[b];
    assert key in StoredKeys(t);
    var c := BucketOf(t, key);
    assert Live(t, b) && Live(t, c);
  }

  // ---------------------------------------------------------------- operations

  /** mlxKeyIndexFind. It ends exactly when the key is stored or a never-used bucket is left
      (`FindDiverges` is the other half), and then it agrees with the map. */
  method Find(keys: array<u32>, slots: array<int>, key: u32) returns (slot: int)
    requires var t := Table(keys[..], slots[..]); Sound(t) && (HasKey(t, key) || HasEmpty(t))
    ensures var t := Table(keys[..], slots[..]);
            slot == if key in View(t) then View(t)[key] else -1
  {
    ghost var t := Table(keys[..], slots[..]);
    var cap := slots.Length;
    var h: nat := HomeOf(cap)(key);
    ghost var home := h;
    ghost var stop :| 0 <= stop < cap && (t.slots[stop] == 0 || Holds(t, stop, key));
    ghost var d := 0;
    while slots[h] != 0
      invariant 0 <= h < cap && 0 <= d <= Distance(home, stop, cap) && h == At(home, d, cap)
      invariant forall e :: 0 <= e < d ==> t.slots[At(home, e, cap)] != 0 && !Holds(t, At(home, e, cap), key)
      decreases Distance(home, stop, cap) - d
    {
      if slots[h] > 0 && keys[h] == key {
        ViewAt(t, h);
        return slots[h] - 1;
      }
      assert h != stop;
      h := Next(h, cap);
      d := d + 1;
    }
    NotFoundIsAbsent(t, key, HomeOf(cap), d);
    ViewHas(t, key);
    return -1;
  }

  /** Reaching a never-used bucket proves the key absent. */
  lemma NotFoundIsAbsent(t: Table, key: u32, home: u32 -> nat, d: nat)
    requires Shaped(t) && Chained(t, home) && d < |t.slots|
    requires t.slots[At(home(key), d, |t.slots|)] == 0
    requires forall e :: 0 <= e < d ==> !Holds(t, At(home(key), e, |t.slots|), key)
    ensures !HasKey(t, key)
  {
    forall b | 0 <= b < |t.slots| ensures !Holds(t, b, key) {
      var e := Distance(home(key), b, |t.slots|);
      assert b == At(home(key), e, |t.slots|);
      assert Live(t, b) && t.keys[b] == key ==> Reachable(t, b, home(key));
    }
  }

  /** Without a never-used bucket a search for an absent key never reaches its exit: after any
      number of steps the loop test still holds and the key is still not the one in hand. */
  lemma {:induction false} FindDiverges(t: Table, key: u32, h: nat, steps: nat)
    requires Shaped(t) && h < |t.slots| && !HasKey(t, key) && !HasEmpty(t)
    ensures Walk(h, steps, |t.slots|) < |t.slots|
    ensures t.slots[Walk(h, steps, |t.slots|)] != 0 && !Holds(t, Walk(h, steps, |t.slots|), key)
  {
    if steps > 0 {
      FindDiverges(t, key, h, steps - 1);
    }
  }

  function Walk(h: nat, steps: nat, cap: nat): nat
  {
    if steps == 0 then h else Next(Walk(h, steps - 1, cap), cap)
  }

  /** mlxKeyIndexInsert: first bucket that is not live. */
  method Insert(keys: array<u32>, slots: array<int>, key: u32, slot: nat)
    requires keys != (slots as object)
    requires var t := Table(keys[..], slots[..]);
             Sound(t) && !HasKey(t, key) && exists b :: 0 <= b < slots.Length && !Live(t, b)
    modifies keys, slots
    ensures Sound(Table(keys[..], slots[..]))
    ensures View(Table(keys[..], slots[..])) == old(View(Table(keys[..], slots[..])))[key := slot]
    ensures IsInsertion(old(Table(keys[..], slots[..])), Table(keys[..], slots[..]), key, slot)
  {
    ghost var t := Table(keys[..], slots[..]);
    var cap := slots.Length;
    var h: nat := HomeOf(cap)(key);
    ghost var home := h;
    ghost var stop :| 0 <= stop < cap && !Live(t, stop);
    ghost var d := 0;
    while slots[h] > 0
      invariant 0 <= h < cap && 0 <= d <= Distance(home, stop, cap) && h == At(home, d, cap)
      invariant forall e :: 0 <= e < d ==> t.slots[At(home, e, cap)] > 0
      decreases Distance(home, stop, cap) - d
    {
      assert h != stop;
      h := Next(h, cap);
      d := d + 1;
    }
    keys[h] := key;
    slots[h] := slot + 1;
    ghost var u := Table(keys[..], slots[..]);
    assert u.keys == t.keys[h := key] && u.slots == t.slots[h := slot + 1];
    FilledIsSound(t, u, key, slot, d);
  }

  /** `u` is `t` with the key in the first bucket from its home on that is not live. */
  ghost predicate IsInsertion(t: Table, u: Table, key: u32, slot: nat)
    requires Shaped(t)
  {
    exists d: nat :: d < |t.slots| && FirstFree(t, HomeOf(|t.slots|)(key), d) && u == Filled(t, HomeOf(|t.slots|)(key), d, key, slot)
  }

  predicate FirstFree(t: Table, h: nat, d: nat)
    requires h < |t.slots| && d < |t.slots|
  {
    t.slots[At(h, d, |t.slots|)] <= 0 && forall e :: 0 <= e < d ==> t.slots[At(h, e, |t.slots|)] > 0
  }

  function Filled(t: Table, h: nat, d: nat, key: u32, slot: nat): Table
    requires Shaped(t) && h < |t.slots| && d < |t.slots|
  {
    var b := At(h, d, |t.slots|);
    Table(t.keys[b := key], t.slots[b := slot + 1])
  }

  lemma FilledIsSound(t: Table, u: Table, key: u32, slot: nat, d: nat)
    requires Sound(t) && !HasKey(t, key) && d < |t.slots|
    requires FirstFree(t, HomeOf(|t.slots|)(key), d) && u == Filled(t, HomeOf(|t.slots|)(key), d, key, slot)
    ensures Sound(u) && |u.slots| == |t.slots| && View(u) == View(t)[key := slot] && IsInsertion(t, u, key, slot)
  {
    InsertIsSound(t, u, key, slot, At(HomeOf(|t.slots|)(key), d, |t.slots|), HomeOf(|t.slots|), d);
  }

  lemma InsertIsSound(t: Table, u: Table, key: u32, slot: nat, h: nat, home: u32 -> nat, d: nat)
    requires Shaped(t) && Chained(t, home) && !HasKey(t, key)
    requires d < |t.slots| && h == At(home(key), d, |t.slots|) && !Live(t, h)
    requires forall e :: 0 <= e < d ==> t.slots[At(home(key), e, |t.slots|)] != 0
    requires u == Table(t.keys[h := key], t.slots[h := slot + 1])
    ensures Shaped(u) && Chained(u, home) && View(u) == View(t)[key := slot]
  {
    var cap := |t.slots|;
    assert Distance(home(key), h, cap) == d;
    InsertKeepsDistinct(t, u, key, slot, h);
    forall b | 0 <= b < cap && Live(u, b) ensures Reachable(u, b, home(u.keys[b])) {
      if b != h {
        assert Live(t, b) && Reachable(t, b, home(t.keys[b]));
        StaysReachable(t, u, b, home(t.keys[b]), h);
      } else {
        StaysReachable(t, u, b, home(key), h);
      }
    }
    ViewsDiffer(t, u, h, key);
  }

  lemma InsertKeepsDistinct(t: Table, u: Table, key: u32, slot: nat, h: nat)
    requires Shaped(t) && Distinct(t) && !HasKey(t, key) && h < |t.slots|
    requires u == Table(t.keys[h := key], t.slots[h := slot + 1])
    ensures Shaped(u) && Distinct(u)
  {
    var cap := |t.slots|;
    forall b, c | 0 <= b < cap && 0 <= c < cap && Live(u, b) && Live(u, c) && u.keys[b] == u.keys[c]
      ensures b == c
    {
      assert b != h ==> Live(t, b) && !Holds(t, b, key);
      assert c != h ==> Live(t, c) && !Holds(t, c, key);
    }
  }

  /** Filling a bucket breaks no chain. */
  lemma StaysReachable(t: Table, u: Table, b: nat, home: nat, h: nat)
    requires |t.slots| == |u.slots| && b < |t.slots| && home < |t.slots| && h < |t.slots|
    requires Reachable(t, b, home) && u.slots[h] != 0
    requires forall c :: 0 <= c < |t.slots| && c != h ==> u.slots[c] == t.slots[c]
    ensures Reachable(u, b, home)
  {
    forall d | 0 <= d < Distance(home, b, |t.slots|) ensures u.slots[At(home, d, |t.slots|)] != 0 {
      assert t.slots[At(home, d, |t.slots|)] != 0;
    }
  }

  lemma ViewsDiffer(t: Table, u: Table, h: nat, key: u32)
    requires Shaped(t) && Shaped(u) && Distinct(t) && Distinct(u)
    requires !HasKey(t, key) && h < |t.slots| == |u.slots| && !Live(t, h) && Holds(u, h, key)
    requires forall b :: 0 <= b < |t.slots| && b != h ==> t.keys[b] == u.keys[b] && t.slots[b] == u.slots[b]
    ensures View(u) == View(t)[key := u.slots[h] - 1]
  {
    var m := View(t)[key := u.slots[h] - 1];
    ViewAt(u, h);
    forall k ensures (k in View(u) <==> k in m) && (k in m ==> View(u)[k] == m[k]) {
      if k != key {
        SameAway(t, u, h, k);
      }
    }
  }

  /** Buckets other than `h` decide every key that `h` holds in neither table. */
  lemma SameAway(t: Table, u: Table, h: nat, k: u32)
    requires Shaped(t) && Shaped(u) && Distinct(t) && Distinct(u) && h < |t.slots| == |u.slots|
    requires !Holds(t, h, k) && !Holds(u, h, k)
    requires forall b :: 0 <= b < |t.slots| && b != h ==> t.keys[b] == u.keys[b] && t.slots[b] == u.slots[b]
    ensures (k in View(u) <==> k in View(t)) && (k in View(t) ==> View(u)[k] == View(t)[k])
  {
    if k in View(t) {
      var b := BucketOf(t, k);
      ViewAt(t, b);
      ViewAt(u, b);
    }
    if k in View(u) {
      var b := BucketOf(u, k);
      ViewAt(t, b);
      ViewAt(u, b);
    }
  }

  /** mlxKeyIndexRemove: tombstone, if the key is there. */
  method Remove(keys: array<u32>, slots: array<int>, key: u32)
    requires keys != (slots as object)
    requires var t := Table(keys[..], slots[..]); Sound(t) && (HasKey(t, key) || HasEmpty(t))
    modifies keys, slots
    ensures Sound(Table(keys[..], slots[..]))
    ensures View(Table(keys[..], slots[..])) == old(View(Table(keys[..], slots[..]))) - {key}
    ensures IsRemoval(old(Table(keys[..], slots[..])), Table(keys[..], slots[..]), key)
  {
    ghost var t := Table(keys[..], slots[..]);
    var cap := slots.Length;
    var h: nat := HomeOf(cap)(key);
    ghost var home := h;
    ghost var stop :| 0 <= stop < cap && (t.slots[stop] == 0 || Holds(t, stop, key));
    ghost var d := 0;
    while slots[h] != 0
      invariant 0 <= h < cap && 0 <= d <= Distance(home, stop, cap) && h == At(home, d, cap)
      invariant forall e :: 0 <= e < d ==> t.slots[At(home, e, cap)] != 0 && !Holds(t, At(home, e, cap), key)
      invariant keys[..] == t.keys && slots[..] == t.slots
      decreases Distance(home, stop, cap) - d
    {
      if slots[h] > 0 && keys[h] == key {
        slots[h] := -1;
        ghost var u := Table(keys[..], slots[..]);
        assert u == t.(slots := t.slots[h := -1]) && Live(t, h);
        RemoveIsSound(t, u, key, h, HomeOf(cap));
        TombstoneIsRemoval(t, u, key, h);
        return;
      }
      assert h != stop;
      h := Next(h, cap);
      d := d + 1;
    }
    NotFoundIsAbsent(t, key, HomeOf(cap), d);
    ViewHas(t, key);
    assert View(t) - {key} == View(t);
    assert Table(keys[..], slots[..]) == t && IsRemoval(t, t, key);
  }

  /** `u` is `t` with a tombstone where the key was. */
  ghost predicate IsRemoval(t: Table, u: Table, key: u32)
    requires Shaped(t)
  {
    if HasKey(t, key) then exists h :: 0 <= h < |t.slots| && Holds(t, h, key) && u == t.(slots := t.slots[h := -1]) else u == t
  }

  lemma TombstoneIsRemoval(t: Table, u: Table, key: u32, h: nat)
    requires Shaped(t) && h < |t.slots| && Holds(t, h, key) && u == t.(slots := t.slots[h := -1])
    ensures IsRemoval(t, u, key)
  {
  }

  lemma RemoveIsSound(t: Table, u: Table, key: u32, h: nat, home: u32 -> nat)
    requires Shaped(t) && Chained(t, home) && h < |t.slots| && Holds(t, h, key)
    requires u == Table(t.keys, t.slots[h := -1])
    ensures Shaped(u) && Chained(u, home) && View(u) == View(t) - {key}
  {
    var cap := |t.slots|;
    forall b, c | 0 <= b < cap && 0 <= c < cap && Live(u, b) && Live(u, c) && u.keys[b] == u.keys[c]
      ensures b == c
    {
      assert Live(t, b) && Live(t, c);
    }
    forall b | 0 <= b < cap && Live(u, b) ensures Reachable(u, b, home(u.keys[b])) {
      assert Live(t, b) && Reachable(t, b, home(t.keys[b]));
      StaysReachable(t, u, b, home(t.keys[b]), h);
    }
    RemovalViews(t, u, h, key);
  }

  lemma RemovalViews(t: Table, u: Table, h: nat, key: u32)
    requires Shaped(t) && Shaped(u) && Distinct(t) && Distinct(u) && h < |t.slots| && Holds(t, h, key)
    requires u == Table(t.keys, t.slots[h := -1])
    ensures View(u) == View(t) - {key}
  {
    var m := View(t) - {key};
    forall k ensures (k in View(u) <==> k in m) && (k in m ==> View(u)[k] == m[k]) {
      if k != key {
        SameAway(t, u, h, k);
      } else if key in View(u) {
        var b := BucketOf(u, key);
        assert Live(t, b) && Live(t, h);
      }
    }
  }

  // ---------------------------------------------------------------- room

  ghost function Empties(slots: seq<int>): nat
  {
    if slots == [] then 0 else Empties(slots[..|slots| - 1]) + if slots[|slots| - 1] == 0 then 1 else 0
  }

  lemma {:induction false} EmptiesUpdate(slots: seq<int>, h: nat, v: int)
    requires h < |slots| && v != 0
    ensures Empties(slots[h := v]) == Empties(slots) - if slots[h] == 0 then 1 else 0
  {
    var n := |slots| - 1;
    if h == n {
      assert slots[h := v][..n] == slots[..n];
    } else {
      assert slots[h := v][..n] == slots[..n][h := v];
      EmptiesUpdate(slots[..n], h, v);
    }
  }

  lemma {:induction false} EmptiesWitness(t: Table)
    ensures Empties(t.slots) > 0 <==> HasEmpty(t)
    decreases |t.slots|
  {
    if t.slots != [] {
      var n := |t.slots| - 1;
      var u := Table([], t.slots[..n]);
      EmptiesWitness(u);
      if HasEmpty(u) {
        var b :| 0 <= b < n && u.slots[b] == 0;
        assert t.slots[b] == 0;
      }
      if HasEmpty(t) {
        var b :| 0 <= b < |t.slots| && t.slots[b] == 0;
        if b < n {
          assert u.slots[b] == 0;
        }
      }
    }
  }

  datatype Op = Inserted(key: u32, slot: nat) | Removed(key: u32)

  /** A history of `Insert` and `Remove` calls, newest last. */
  ghost predicate History(tables: seq<Table>, ops: seq<Op>)
    decreases |ops|
  {
    && |tables| == |ops| + 1
    && Sound(tables[|ops|]) && |tables[|ops|].slots| == |tables[0].slots|
    && (ops != [] ==> History(tables[..|ops|], ops[..|ops| - 1]) && Stepped(tables[|ops| - 1], tables[|ops|], ops[|ops| - 1]))
  }

  ghost predicate Stepped(t: Table, u: Table, op: Op)
    requires Shaped(t)
  {
    match op
    case Inserted(key, slot) => !HasKey(t, key) && IsInsertion(t, u, key, slot)
    case Removed(key) => IsRemoval(t, u, key)
  }

  function Inserts(ops: seq<Op>): nat
  {
    if ops == [] then 0 else Inserts(ops[..|ops| - 1]) + if ops[|ops| - 1].Inserted? then 1 else 0
  }

  /** Never-used buckets never come back, and an insertion uses up at most one. */
  lemma EmptiesPerStep(t: Table, u: Table, op: Op)
    requires Shaped(t) && Stepped(t, u, op)
    ensures Empties(u.slots) <= Empties(t.slots) <= Empties(u.slots) + if op.Inserted? then 1 else 0
  {
    match op
    case Inserted(key, slot) =>
      var home := HomeOf(|t.slots|)(key);
      var d: nat :| d < |t.slots| && FirstFree(t, home, d) && u == Filled(t, home, d, key, slot);
      EmptiesUpdate(t.slots, At(home, d, |t.slots|), slot + 1);
    case Removed(key) =>
      if HasKey(t, key) {
        var h :| 0 <= h < |t.slots| && Holds(t, h, key) && u == t.(slots := t.slots[h := -1]);
        EmptiesUpdate(t.slots, h, -1);
      }
  }

  lemma {:induction false} EmptiesAfter(tables: seq<Table>, ops: seq<Op>)
    requires History(tables, ops)
    ensures Empties(tables[|ops|].slots) + Inserts(ops) >= Empties(tables[0].slots)
  {
    if ops != [] {
      var n := |ops| - 1;
      EmptiesAfter(tables[..n + 1], ops[..n]);
      EmptiesPerStep(tables[n], tables[n + 1], ops[n]);
    }
  }

  /** Starting from a zeroed table, every Find and Remove ends as long as fewer than
      `capacity` insertions have been made. */
  lemma SearchesEndBeforeCapacityInserts(tables: seq<Table>, ops: seq<Op>)
    requires History(tables, ops) && Inserts(ops) < |tables[0].slots|
    requires forall b :: 0 <= b < |tables[0].slots| ==> tables[0].slots[b] == 0
    ensures HasEmpty(tables[|ops|])
  {
    AllEmpty(tables[0].slots);
    EmptiesAfter(tables, ops);
    EmptiesWitness(tables[|ops|]);
  }

  lemma {:induction false} AllEmpty(slots: seq<int>)
    requires forall b :: 0 <= b < |slots| ==> slots[b] == 0
    ensures Empties(slots) == |slots|
  {
    if slots != [] {
      AllEmpty(slots[..|slots| - 1]);
    }
  }

  /** 0x144CBC89 inverts the multiplier 0x9E3779B9 modulo 2^32, so every bucket is the home of
      some key. The key is odd: its low byte, the variant of a memory key, is never 0. */
  function KeyFor(cap: u32, b: nat): (key: u32)
    requires IsPow2(cap) && cap >= 2 && b < cap
    ensures HomeOf(cap)(key) == b && key % 2 == 1
  {
    ShiftSplitsWord(cap);
    KeyForIs(cap, b, Pow2(Shift(cap)));
    Unmix(b * Pow2(Shift(cap)) + 1)
  }

  function Unmix(x: nat): u32
  {
    x * 0x144CBC89 % 0x1_0000_0000
  }

  lemma KeyForIs(cap: u32, b: nat, low: int)
    requires IsPow2(cap) && cap >= 2 && b < cap && 0 <= Shift(cap) && low == Pow2(Shift(cap)) && b * low + 1 >= 0
    ensures HomeOf(cap)(Unmix(b * low + 1)) == b && Unmix(b * low + 1) % 2 == 1
  {
    ShiftSplitsWord(cap);
    LowIsEven(cap, Shift(cap));
    JustInside(b, cap, low);
    UnmixInverts(b * low + 1);
  }

  lemma LowIsEven(cap: u32, shift: nat)
    requires cap * Pow2(shift) == U32
    ensures exists half :: Pow2(shift) == 2 * half && half > 0
  {
    if shift > 0 {
      assert Pow2(shift) == 2 * Pow2(shift - 1);
    }
  }

  lemma JustInside(b: nat, cap: nat, low: int)
    requires b < cap && cap * low == U32 && exists half :: low == 2 * half && half > 0
    ensures 0 <= b * low + 1 < U32 && (b * low + 1) / low == b && (b * low + 1) % 2 == 1
  {
    var half :| low == 2 * half && half > 0;
    MulMonotone(b + 1, cap, low);
    assert (b + 1) * low == b * low + low;
    DivModUnique(b * low + 1, low, b, 1);
    assert b * low + 1 == (b * half) * 2 + 1;
    DivModUnique(b * low + 1, 2, b * half, 1);
  }

  lemma UnmixInverts(x: nat)
    requires x < U32
    ensures Product(Unmix(x)) == x && (x % 2 == 1 ==> Unmix(x) % 2 == 1)
  {
    var key: int := Unmix(x);
    var q := x * 0x144CBC89 / 0x1_0000_0000;
    assert x * 0x144CBC89 == q * 0x1_0000_0000 + key;
    DivModUnique(key * 0x9E3779B9, 0x1_0000_0000, x * 210485888 - q * 0x9E3779B9, x);
  }

  predicate Zeroed(t: Table)
  {
    forall b :: 0 <= b < |t.slots| ==> t.slots[b] == 0
  }

  /** Tombstones in the first `n` buckets, nothing in the others. */
  predicate Spent(t: Table, n: nat)
  {
    forall b :: 0 <= b < |t.slots| ==> t.slots[b] == if b < n then -1 else 0
  }

  predicate OddKeys(ops: seq<Op>)
  {
    forall i :: 0 <= i < |ops| ==> ops[i].key % 2 == 1
  }

  predicate OneKeyAtATime(tables: seq<Table>)
  {
    forall i :: 0 <= i < |tables| ==> OneKeyAtMost(tables[i])
  }

  predicate OneKeyAtMost(t: Table)
  {
    forall b, c :: 0 <= b < |t.slots| && 0 <= c < |t.slots| && t.slots[b] > 0 && t.slots[c] > 0 ==> b == c
  }

  /** Inserting the key whose home is bucket `n` and removing it again spends that bucket. */
  lemma SpendBucket(t: Table, n: nat) returns (u: Table, v: Table, key: u32)
    requires Sound(t) && n < |t.slots| && Spent(t, n)
    ensures key % 2 == 1 && Sound(u) && Sound(v) && OneKeyAtMost(u) && OneKeyAtMost(v) && Spent(v, n + 1)
    ensures |u.slots| == |v.slots| == |t.slots|
    ensures Stepped(t, u, Inserted(key, 0)) && Stepped(u, v, Removed(key))
  {
    key := KeyFor(|t.slots|, n);
    u := Filled(t, n, 0, key, 0);
    v := u.(slots := u.slots[n := -1]);
    SpentGrows(t, u, v, n, key);
    FilledIsSound(t, u, key, 0, 0);
    RemoveIsSound(u, v, key, n, HomeOf(|t.slots|));
    TombstoneIsRemoval(u, v, key, n);
  }

  lemma SpentGrows(t: Table, u: Table, v: Table, n: nat, key: u32)
    requires Shaped(t) && n < |t.slots| && Spent(t, n)
    requires u == Filled(t, n, 0, key, 0) && v == u.(slots := u.slots[n := -1])
    ensures FirstFree(t, n, 0) && !HasKey(t, key) && Shaped(u) && Holds(u, n, key)
    ensures OneKeyAtMost(u) && OneKeyAtMost(v) && Spent(v, n + 1)
  {
    assert At(n, 0, |t.slots|) == n;
  }

  /** A history that spends `n` buckets with `n` insertions, one key at a time. */
  lemma {:induction false} SpendBuckets(cap: u32, n: nat) returns (tables: seq<Table>, ops: seq<Op>)
    requires IsPow2(cap) && cap >= 2 && n <= cap
    ensures History(tables, ops) && |tables[0].slots| == cap && Zeroed(tables[0]) && Spent(tables[|ops|], n)
    ensures Inserts(ops) == n
    ensures OddKeys(ops) && OneKeyAtATime(tables)
  {
    if n == 0 {
      tables, ops := [Table(seq(cap, _ => 0), seq(cap, _ => 0))], [];
    } else {
      var before, done := SpendBuckets(cap, n - 1);
      var u, v, key := SpendBucket(before[|done|], n - 1);
      HistoryGrows(before, done, u, Inserted(key, 0));
      HistoryGrows(before + [u], done + [Inserted(key, 0)], v, Removed(key));
      tables, ops := before + [u] + [v], done + [Inserted(key, 0)] + [Removed(key)];
    }
  }

  lemma HistoryGrows(tables: seq<Table>, ops: seq<Op>, u: Table, op: Op)
    requires History(tables, ops) && Sound(u) && |u.slots| == |tables[0].slots| && Stepped(tables[|ops|], u, op)
    ensures History(tables + [u], ops + [op]) && (tables + [u])[0] == tables[0]
    ensures OneKeyAtATime(tables) && OneKeyAtMost(u) ==> OneKeyAtATime(tables + [u])
    ensures OddKeys(ops) && op.key % 2 == 1 ==> OddKeys(ops + [op])
    ensures Inserts(ops + [op]) == Inserts(ops) + if op.Inserted? then 1 else 0
  {
    assert (ops + [op])[..|ops|] == ops && (tables + [u])[..|tables|] == tables;
  }

  /** The bound is exact: in a table of any capacity, `capacity` insertions can leave no
      never-used bucket although at most one key was ever stored at a time; then no search
      ends, whatever the key. */
  lemma CapacityInsertsMaySpendTheTable(cap: u32) returns (tables: seq<Table>, ops: seq<Op>)
    requires IsPow2(cap) && cap >= 2
    ensures History(tables, ops) && |tables[0].slots| == cap && Zeroed(tables[0]) && Inserts(ops) == cap
    ensures OddKeys(ops) && OneKeyAtATime(tables)
    ensures !HasEmpty(tables[|ops|])
    ensures forall key: u32, steps: nat :: SearchGoesOn(tables[|ops|], key, steps)
  {
    tables, ops := SpendBuckets(cap, cap);
    var t := tables[|ops|];
    forall key: u32, steps: nat ensures SearchGoesOn(t, key, steps) {
      FindDiverges(t, key, HomeOf(cap)(key), steps);
    }
  }

  /** After `steps` steps the search for `key` has neither found it nor met a reason to stop. */
  predicate SearchGoesOn(t: Table, key: u32, steps: nat)
  {
    Shaped(t) &&
    var h := Walk(HomeOf(|t.slots|)(key), steps, |t.slots|);
    h < |t.slots| && t.slots[h] != 0 && !Holds(t, h, key)
  }

  /** The twofold sizing: while fewer keys are stored than there are buckets, some bucket is
      not live, so Insert ends. */
  lemma RoomToInsert(t: Table)
    requires Sound(t) && |View(t)| < |t.slots|
    ensures exists b :: 0 <= b < |t.slots| && !Live(t, b)
  {
    if forall b :: 0 <= b < |t.slots| ==> Live(t, b) {
      KeysOfBuckets(t, |t.slots|);
      SubsetSize(KeysBelow(t, |t.slots|), View(t).Keys);
    }
  }

  ghost function KeysBelow(t: Table, n: nat): set<u32>
    requires Shaped(t) && n <= |t.slots|
  {
    set b | 0 <= b < n :: t.keys[b]
  }

  lemma {:induction false} KeysOfBuckets(t: Table, n: nat)
    requires Shaped(t) && Distinct(t) && n <= |t.slots| && forall b :: 0 <= b < n ==> Live(t, b)
    ensures |KeysBelow(t, n)| == n && KeysBelow(t, n) <= View(t).Keys
  {
    if n > 0 {
      KeysOfBuckets(t, n - 1);
      assert Live(t, n - 1);
      NextKeyIsNew(t, n - 1);
      ViewAt(t, n - 1);
    }
  }

  lemma NextKeyIsNew(t: Table, n: nat)
    requires Shaped(t) && Distinct(t) && n < |t.slots| && forall b :: 0 <= b <= n ==> Live(t, b)
    ensures t.keys[n] !in KeysBelow(t, n) && KeysBelow(t, n + 1) == KeysBelow(t, n) + {t.keys[n]}
  {
    assert Live(t, n);
  }

  lemma {:induction false} SubsetSize<T>(a: set<T>, b: set<T>)
    requires a <= b
    ensures |a| <= |b|
  {
    if a != {} {
      var x :| x in a;
      SubsetSize(a - {x}, b - {x});
    }
  }

  // ---------------------------------------------------------------- one index of a table

  /** The two bucket arrays of one index, together with the map they stand for. */
  class Index {
    const keys: array<u32>
    const slots: array<int>
    ghost var view: map<u32, nat>
    ghost var inserts: nat

    ghost predicate Valid()
      reads this, keys, slots
    {
      keys != (slots as object) && Stands(Table(keys[..], slots[..]), view, inserts)
    }

    /** A search for the key ends. */
    predicate Ends(key: u32)
      requires Valid()
      reads this, keys, slots
    {
      HasKey(Table(keys[..], slots[..]), key) || HasEmpty(Table(keys[..], slots[..]))
    }

    /** Some bucket is not live, so an insertion ends. */
    ghost predicate Room()
      reads keys, slots
    {
      exists b :: 0 <= b < slots.Length && !Live(Table(keys[..], slots[..]), b)
    }

    constructor (entries: u32)
      requires entries <= 0x4000_0000
      ensures Valid() && fresh(keys) && fresh(slots) && view == map[] && inserts == 0 && 2 * entries <= slots.Length
    {
      var cap := Cap(entries);
      keys := new u32[cap](_ => 0);
      slots := new int[cap](_ => 0);
      view, inserts := map[], 0;
      new;
      ZeroedStands(Table(keys[..], slots[..]));
    }

    method Get(key: u32) returns (slot: int)
      requires Valid() && Ends(key)
      ensures slot == if key in view then view[key] else -1
    {
      slot := Find(keys, slots, key);
    }

    method Put(key: u32, slot: nat)
      requires Valid() && key !in view && Room()
      modifies this, keys, slots
      ensures Valid() && view == old(view)[key := slot] && inserts == old(inserts) + 1
    {
      ghost var t := Table(keys[..], slots[..]);
      ViewHas(t, key);
      Insert(keys, slots, key, slot);
      EmptiesPerStep(t, Table(keys[..], slots[..]), Inserted(key, slot));
      view, inserts := view[key := slot], inserts + 1;
    }

    method Take(key: u32)
      requires Valid() && key in view
      modifies this, keys, slots
      ensures Valid() && view == old(view) - {key} && inserts == old(inserts) && Room()
    {
      ghost var t := Table(keys[..], slots[..]);
      ViewHas(t, key);
      Remove(keys, slots, key);
      EmptiesPerStep(t, Table(keys[..], slots[..]), Removed(key));
      RemovalMakesRoom(t, Table(keys[..], slots[..]), key);
      view := view - {key};
    }

    /** BindMW's pair of calls: one key goes, another comes in its place. */
    method Replace(was: u32, key: u32, slot: nat)
      requires Valid() && was in view && (key !in view || key == was)
      modifies this, keys, slots
      ensures Valid() && view == (old(view) - {was})[key := slot] && inserts == old(inserts) + 1
    {
      Take(was);
      Put(key, slot);
    }

    lemma RoomLeft()
      requires Valid() && |view| < slots.Length
      ensures Room()
    {
      RoomToInsert(Table(keys[..], slots[..]));
    }

    /** A search for a stored key always ends, and every search does while fewer insertions
        than there are buckets have been made. */
    lemma SearchEnds(key: u32)
      requires Valid()
      ensures key in view || inserts < slots.Length ==> Ends(key)
    {
      ViewHas(Table(keys[..], slots[..]), key);
      EmptiesWitness(Table(keys[..], slots[..]));
    }
  }

  lemma RemovalMakesRoom(t: Table, u: Table, key: u32)
    requires Shaped(t) && HasKey(t, key) && IsRemoval(t, u, key)
    ensures |u.slots| == |t.slots| && exists b :: 0 <= b < |u.slots| && !Live(u, b)
  {
    var h :| 0 <= h < |t.slots| && Holds(t, h, key) && u == t.(slots := t.slots[h := -1]);
    assert !Live(u, h);
  }

  ghost predicate Stands(t: Table, view: map<u32, nat>, inserts: nat)
  {
    Sound(t) && View(t) == view && Empties(t.slots) + inserts >= |t.slots|
  }

  lemma ZeroedStands(t: Table)
    requires Shaped(t) && Zeroed(t)
    ensures Stands(t, map[], 0)
  {
    AllEmpty(t.slots);
    assert StoredKeys(t) == {};
  }
}
