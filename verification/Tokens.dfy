/** MlxUserClient.cpp: the opaque tokens clients hold for firmware handles. All clients of the
    process draw generations from one 32-bit counter; `fetches` is the number of times it has
    been incremented and `born` the increment a token got its generation from. */
module Tokens {
  import opened Words

  const SLOTS: nat := 512
  const KINDS: nat := 6

  /** TokenMake: type, 12 bits of generation, 9 bits of slot. */
  function TokenMake(kind: nat, slot: nat, gen: nat): nat
  {
    kind * 0x20_0000 + gen % 4096 * 512 + slot % 512
  }

  function KindOf(token: nat): nat { token / 0x20_0000 }
  function GenOf(token: nat): nat { token / 512 % 4096 }
  function SlotOf(token: nat): nat { token % 512 }

  /** A token fits the 24 bits of a mapping handle and carries its three parts. */
  lemma TokenDecodes(kind: nat, slot: nat, gen: nat)
    requires kind < KINDS && slot < SLOTS && gen < 4096
    ensures TokenMake(kind, slot, gen) < 0x100_0000
    ensures KindOf(TokenMake(kind, slot, gen)) == kind && SlotOf(TokenMake(kind, slot, gen)) == slot
    ensures GenOf(TokenMake(kind, slot, gen)) == gen
    ensures TokenMake(kind, slot, gen) == 0 <==> kind == slot == gen == 0
  {
    var t := TokenMake(kind, slot, gen);
    DivModUnique(t, 0x20_0000, kind, gen * 512 + slot);
    DivModUnique(t, 512, kind * 4096 + gen, slot);
    DivModUnique(kind * 4096 + gen, 4096, kind, gen);
  }

  /** So two different tokens never look alike. */
  lemma TokensAreUnique(k: nat, s: nat, g: nat, k': nat, s': nat, g': nat)
    requires k < KINDS && s < SLOTS && g < 4096 && k' < KINDS && s' < SLOTS && g' < 4096
    ensures TokenMake(k, s, g) == TokenMake(k', s', g') <==> k == k' && s == s' && g == g'
  {
    TokenDecodes(k, s, g);
    TokenDecodes(k', s', g');
  }

  // ---------------------------------------------------------------- generations

  /** The increment the n-th token of an undisturbed sequence gets its generation from: every
      4096th value, which would give generation zero, is skipped. */
  function Increment(n: nat): nat { n + n / 4095 + 1 }

  /** Generations of undisturbed mints run through 1..4095 in turn: two are equal exactly when
      a multiple of 4095 mints apart. */
  lemma GenerationsCycle(n: nat, m: nat)
    ensures Increment(n) % 4096 == n % 4095 + 1
    ensures Increment(n) % 4096 == Increment(m) % 4096 <==> n % 4095 == m % 4095
    ensures n < m < n + 4095 ==> Increment(n) % 4096 != Increment(m) % 4096
  {
    CycleOf(n);
    CycleOf(m);
  }

  lemma CycleOf(n: nat)
    ensures Increment(n) % 4096 == n % 4095 + 1
  {
    assert Increment(n) == n / 4095 * 4096 + (n % 4095 + 1);
    DivModUnique(Increment(n), 4096, n / 4095, n % 4095 + 1);
  }

  /** Increments less than 4096 apart give different generations. */
  lemma GenerationsDiffer(b: nat, c: nat)
    requires b < c && b % 4096 == c % 4096
    ensures c >= b + 4096
  {
  }

  /** The 32-bit counter keeps the low 12 bits of the count. */
  lemma CounterWraps(n: nat)
    ensures n % 0x1_0000_0000 % 4096 == n % 4096
    ensures (n % 0x1_0000_0000 + 1) % 0x1_0000_0000 == (n + 1) % 0x1_0000_0000
  {
    var q, r := n / 0x1_0000_0000, n % 0x1_0000_0000;
    assert n == r + q * 0x1_0000_0000;
    DivModShift(r, q * 0x10_0000, 4096);
    DivModShift(r + 1, q, 0x1_0000_0000);
  }

  // ---------------------------------------------------------------- the registry

  datatype Place = Place(client: nat, kind: nat, slot: nat)

  datatype Held = Held(raw: nat, generation: nat)

  function ResolveIn(table: map<Place, Held>, client: nat, token: nat, kind: nat): nat
  {
    var p := Place(client, kind, SlotOf(token));
    if kind < KINDS && KindOf(token) == kind && p in table && table[p].generation == GenOf(token) then table[p].raw else 0
  }

  lemma HeldResolves(table: map<Place, Held>, p: Place)
    requires p in table && p.kind < KINDS && p.slot < SLOTS && table[p].generation < 4096
    ensures ResolveIn(table, p.client, TokenMake(p.kind, p.slot, table[p].generation), p.kind) == table[p].raw
    ensures TokenMake(p.kind, p.slot, table[p].generation) == 0 <==> p.kind == p.slot == table[p].generation == 0
    ensures SlotOf(TokenMake(p.kind, p.slot, table[p].generation)) == p.slot
  {
    TokenDecodes(p.kind, p.slot, table[p].generation);
  }

  class Registry {
    /** sTokenGen */
    var counter: u32
    /** The used token slots of all clients. */
    var table: map<Place, Held>

    ghost var fetches: nat
    ghost var births: map<Place, nat>
    /** Every token ever made. */
    ghost var minted: map<nat, Place>

    ghost predicate Valid()
      reads this
    {
      && counter == fetches % 0x1_0000_0000
      && births.Keys == table.Keys
      && (forall p :: p in table ==> p.kind < KINDS && p.slot < SLOTS && table[p].raw > 0)
      && (forall p :: p in table ==> births[p] in minted && minted[births[p]] == p && table[p].generation == births[p] % 4096)
      && (forall b :: b in minted ==> b < fetches && minted[b].kind < KINDS && minted[b].slot < SLOTS)
      && (forall b :: b in minted && minted[b] in births ==> b <= births[minted[b]])
    }

    constructor ()
      ensures Valid() && table == map[] && fetches == 0 && minted == map[]
    {
      counter, table, fetches, births, minted := 0, map[], 0, map[], map[];
    }

    /** `__atomic_fetch_add(&sTokenGen, 1) & 0xfff`. */
    method Fetch() returns (gen: nat)
      requires Valid()
      modifies `counter, `fetches
      ensures Valid() && fetches == old(fetches) + 1 && gen == old(fetches) % 4096
    {
      CounterWraps(fetches);
      gen := counter % 4096;
      counter := (counter + 1) % 0x1_0000_0000;
      fetches := fetches + 1;
    }

    /** Environment: other threads increment the counter. */
    method Others(n: nat)
      requires Valid()
      modifies `counter, `fetches
      ensures Valid() && fetches == old(fetches) + n
    {
      for i := 0 to n
        invariant Valid() && fetches == old(fetches) + i
      {
        var gen := Fetch();
      }
    }

    /** TokenCreate. When the first generation is zero it takes another, between which other
        threads may take `others`. The token then names the first free slot of its kind, or
        there is none and the result is 0. */
    method Create(client: nat, kind: nat, raw: nat, others: nat) returns (token: nat, ghost place: Place)
      requires Valid()
      modifies this
      ensures Valid()
      ensures kind >= KINDS || raw == 0 ==> token == 0 && fetches == old(fetches)
      ensures kind < KINDS && raw != 0 ==>
                fetches == old(fetches) + if old(fetches) % 4096 == 0 then others + 2 else 1
      ensures place.slot < SLOTS ==>
                && place.client == client && place.kind == kind < KINDS && raw != 0 && place !in old(table)
                && (forall i :: 0 <= i < place.slot ==> Place(client, kind, i) in old(table))
                && token == TokenMake(kind, place.slot, (fetches - 1) % 4096)
                && table == old(table)[place := Held(raw, (fetches - 1) % 4096)]
                && births == old(births)[place := fetches - 1] && minted == old(minted)[fetches - 1 := place]
      ensures place.slot >= SLOTS ==> token == 0 && table == old(table) && births == old(births) && minted == old(minted)
      ensures place.slot >= SLOTS && kind < KINDS && raw != 0 ==> forall i :: 0 <= i < SLOTS ==> Place(client, kind, i) in old(table)
    {
      token, place := 0, Place(client, kind, SLOTS);
      if kind >= KINDS || raw == 0 {
        return;
      }
      var gen := Fetch();
      if gen == 0 {
        Others(others);
        gen := Fetch();
      }
      for i := 0 to SLOTS
        invariant forall j :: 0 <= j < i ==> Place(client, kind, j) in table
      {
        if Place(client, kind, i) !in table {
          place := Place(client, kind, i);
          Install(Place(client, kind, i), raw, gen);
          return TokenMake(kind, i, gen), place;
        }
      }
    }

    method Install(place: Place, raw: nat, gen: nat)
      requires Valid() && fetches > 0 && gen == (fetches - 1) % 4096 && fetches - 1 !in minted
      requires place !in table && place.kind < KINDS && place.slot < SLOTS && raw > 0
      modifies `table, `births, `minted
      ensures Valid() && table == old(table)[place := Held(raw, gen)]
      ensures births == old(births)[place := fetches - 1] && minted == old(minted)[fetches - 1 := place]
    {
      table := table[place := Held(raw, gen)];
      births := births[place := fetches - 1];
      minted := minted[fetches - 1 := place];
    }

    /** TokenResolve: 0 stands for "not one of yours". */
    function Resolve(client: nat, token: nat, kind: nat): (raw: nat)
      reads this
      ensures raw != 0 ==> Place(client, kind, SlotOf(token)) in table && KindOf(token) == kind < KINDS
    {
      ResolveIn(table, client, token, kind)
    }

    /** TokenDrop. */
    method Drop(client: nat, token: nat, kind: nat) returns (ok: bool, raw: nat)
      requires Valid()
      modifies `table, `births
      ensures Valid() && ok == (old(Resolve(client, token, kind)) != 0) && (ok ==> raw == old(Resolve(client, token, kind)))
      ensures ok ==> table == old(table) - {Place(client, kind, SlotOf(token))} && Resolve(client, token, kind) == 0
      ensures !ok ==> table == old(table) && births == old(births)
      ensures births.Keys == table.Keys && forall p :: p in births ==> p in old(births) && births[p] == old(births)[p]
    {
      var p := Place(client, kind, SlotOf(token));
      raw := Resolve(client, token, kind);
      ok := raw != 0;
      if ok {
        table := table - {p};
        births := births - {p};
      }
    }

    /** TokenForRaw: the first token of the client for a handle, which resolves back to it. */
    method ForRaw(client: nat, kind: nat, raw: nat) returns (token: nat)
      requires Valid()
      ensures token != 0 ==> raw != 0 && Resolve(client, token, kind) == raw
      ensures raw != 0 && token == 0 && kind < KINDS && !(Place(client, 0, 0) in table && table[Place(client, 0, 0)].generation == 0) ==>
                forall i :: 0 <= i < SLOTS && Place(client, kind, i) in table ==> table[Place(client, kind, i)].raw != raw
    {
      if kind >= KINDS || raw == 0 {
        return 0;
      }
      for i := 0 to SLOTS
        invariant forall j :: 0 <= j < i && Place(client, kind, j) in table ==> table[Place(client, kind, j)].raw != raw
      {
        var p := Place(client, kind, i);
        if p in table && table[p].raw == raw {
          HeldResolves(table, p);
          return TokenMake(kind, i, table[p].generation);
        }
      }
      return 0;
    }

    // -------------------------------------------------------------- what tokens are for

    /** A live token resolves to its handle. */
    lemma LiveResolves(b: nat)
      requires Valid() && b in minted && minted[b] in births && births[minted[b]] == b
      ensures var p := minted[b]; Resolve(p.client, TokenMake(p.kind, p.slot, b % 4096), p.kind) == table[p].raw != 0
    {
      var p := minted[b];
      TokenDecodes(p.kind, p.slot, b % 4096);
    }

    /** What a token resolves to, live or not, in its own client or another: the token in the
        same slot of that client, if that one was born a multiple of 4096 increments away. */
    lemma ResolvesExactly(b: nat, client: nat)
      requires Valid() && b in minted
      ensures var p := minted[b];
              var q := Place(client, p.kind, p.slot);
              Resolve(client, TokenMake(p.kind, p.slot, b % 4096), p.kind) != 0 <==> q in births && births[q] % 4096 == b % 4096
    {
      var p := minted[b];
      TokenDecodes(p.kind, p.slot, b % 4096);
    }

    /** A dropped token resolves to nothing until the counter has moved 4096 beyond its birth,
        whatever became of its slot. */
    lemma DroppedIsDead(b: nat)
      requires Valid() && b in minted && !(minted[b] in births && births[minted[b]] == b)
      requires fetches <= b + 4096
      ensures var p := minted[b]; Resolve(p.client, TokenMake(p.kind, p.slot, b % 4096), p.kind) == 0
    {
      var p := minted[b];
      ResolvesExactly(b, p.client);
      if p in births && births[p] % 4096 == b % 4096 {
        GenerationsDiffer(b, births[p]);
        assert false;
      }
    }

    /** A token never works in the hands of another client, unless that client holds one born
        at least 4096 increments earlier or later. */
    lemma ForeignTokenFails(b: nat, client: nat)
      requires Valid() && b in minted && minted[b].client != client
      requires forall q :: q in births && q.client == client ==> b - 4096 < births[q] < b + 4096
      ensures var p := minted[b]; Resolve(client, TokenMake(p.kind, p.slot, b % 4096), p.kind) == 0
    {
      var p := minted[b];
      var q := Place(client, p.kind, p.slot);
      ResolvesExactly(b, client);
      if q in births && births[q] % 4096 == b % 4096 {
        assert births[q] != b;
        if births[q] < b {
          GenerationsDiffer(births[q], b);
        } else {
          GenerationsDiffer(b, births[q]);
        }
        assert false;
      }
    }
  }

  /** The 4096 increments count from the birth of a token, not from its drop: a run in which the
      first mint after the drop makes the same token again, for another handle. */
  method DroppedTokenComesBack() returns (stale: nat, r: Registry)
    ensures fresh(r) && r.Valid() && r.Resolve(0, stale, 0) == 2
  {
    r := new Registry();
    Laps();
    stale := MintFirst(r, 0, 0, 1);
    MintAndDropMany(r, stale);
    var ok, raw := r.Drop(0, stale, 0);
    var again := MintFirst(r, 0, 0, 2);
    SameGeneration(2, r.fetches);
    assert again == stale;
  }

  /** An undisturbed mint in an empty first slot. */
  method MintFirst(r: Registry, client: nat, kind: nat, raw: nat) returns (token: nat)
    requires r.Valid() && kind < KINDS && raw > 0 && Place(client, kind, 0) !in r.table
    modifies r
    ensures r.Valid() && r.fetches == old(r.fetches) + if AtLap(old(r.fetches)) then 2 else 1
    ensures token == TokenMake(kind, 0, (r.fetches - 1) % 4096)
    ensures r.table == old(r.table)[Place(client, kind, 0) := Held(raw, (r.fetches - 1) % 4096)]
    ensures r.Resolve(client, token, kind) == raw && SlotOf(token) == 0
  {
    ghost var place;
    token, place := r.Create(client, kind, raw, 0);
    assert place == Place(client, kind, 0);
    HeldResolves(r.table, place);
  }

  predicate AtLap(fetches: nat)
  {
    fetches % 4096 == 0
  }

  lemma Laps()
    ensures AtLap(0) && AtLap(4096)
  {
  }

  lemma SameGeneration(f: nat, g: nat)
    requires 0 < f && g == f + 4096
    ensures (f - 1) % 4096 == (g - 1) % 4096
  {
  }

  method MintAndDropMany(r: Registry, token: nat)
    requires r.Valid() && r.fetches == 2 && Place(1, 2, 0) !in r.table
    modifies r
    ensures r.Valid() && r.fetches == 4096 && r.table == old(r.table) && r.Resolve(0, token, 0) == old(r.Resolve(0, token, 0))
  {
    for i := 0 to 4094
      invariant r.Valid() && r.fetches == i + 2 && r.table == old(r.table)
    {
      MintAndDrop(r);
    }
  }

  /** Another client makes a token and drops it. */
  method MintAndDrop(r: Registry)
    requires r.Valid() && r.fetches % 4096 != 0 && Place(1, 2, 0) !in r.table
    modifies r
    ensures r.Valid() && r.fetches == old(r.fetches) + 1 && r.table == old(r.table)
  {
    var other := MintFirst(r, 1, 2, 7);
    var ok, raw := r.Drop(1, other, 2);
  }
}
