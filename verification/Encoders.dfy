/** MlxP0Encoding.hpp and MlxP1Encoding.hpp: the command buffers of CREATE_MKEY and
    MANAGE_PAGES, field by field. Offsets are in bits from the start of the buffer. */
module Encoders {
  import opened Words
  import opened IfcBits
  import MttPages

  const ACCESS_SUPPORTED: bv32 := 31

  // ---------------------------------------------------------------- writing a layout

  function PasField(base: nat, pages: seq<u64>, i: nat): Field
    requires i < |pages|
  {
    Field(base + 64 * i, 64, pages[i])
  }

  ghost function PasFields(base: nat, pages: seq<u64>, n: nat): set<Field>
    requires n <= |pages|
  {
    set i: nat | i < n :: PasField(base, pages, i)
  }

  /** Every field so far ends at `off` or before. */
  ghost predicate Below(fields: set<Field>, off: nat)
  {
    forall f :: f in fields ==> f.off + f.width <= off
  }

  /** One field more, clear of those already set. */
  method Put(buffer: array<bv8>, off: nat, width: nat, value: u64, ghost s0: seq<bv8>, ghost done: set<Field>)
    returns (ghost now: set<Field>)
    requires width <= 64 && off + width <= 8 * buffer.Length
    requires Holds(s0, buffer[..], done) && AllApart(done, Field(off, width, value))
    modifies buffer
    ensures now == done + {Field(off, width, value)} && Holds(s0, buffer[..], now)
  {
    ghost var before := buffer[..];
    SetBits(buffer, off, width, value);
    now := done + {Field(off, width, value)};
    HoldsMore(s0, before, buffer[..], done, Field(off, width, value));
  }

  method PutAbove(buffer: array<bv8>, off: nat, width: nat, value: u64, ghost s0: seq<bv8>, ghost done: set<Field>)
    returns (ghost now: set<Field>)
    requires width <= 64 && off + width <= 8 * buffer.Length
    requires Holds(s0, buffer[..], done) && Below(done, off)
    modifies buffer
    ensures now == done + {Field(off, width, value)} && Holds(s0, buffer[..], now) && Below(now, off + width)
  {
    now := Put(buffer, off, width, value, s0, done);
  }

  /** The PAS loop of both encoders. */
  method PutPas(buffer: array<bv8>, base: nat, pages: seq<u64>, ghost s0: seq<bv8>, ghost done: set<Field>)
    requires base + 64 * |pages| <= 8 * buffer.Length
    requires Holds(s0, buffer[..], done) && Below(done, base)
    modifies buffer
    ensures Holds(s0, buffer[..], done + PasFields(base, pages, |pages|))
  {
    assert done + PasFields(base, pages, 0) == done;
    for i := 0 to |pages|
      invariant Holds(s0, buffer[..], done + PasFields(base, pages, i))
      invariant Below(done + PasFields(base, pages, i), base + 64 * i)
    {
      NextPas(base, pages, i);
      ghost var now := PutAbove(buffer, base + 64 * i, 64, pages[i], s0, done + PasFields(base, pages, i));
      assert now == done + PasFields(base, pages, i + 1);
    }
  }

  lemma NextPas(base: nat, pages: seq<u64>, i: nat)
    requires i < |pages|
    ensures PasFields(base, pages, i + 1) == PasFields(base, pages, i) + {PasField(base, pages, i)}
  {
  }

  // ---------------------------------------------------------------- CREATE_MKEY

  /** mlxMttOctwordCount: two page addresses to an octword. */
  function OctwordCount(pageCount: nat): nat { (pageCount + 1) / 2 }

  /** mlxCreateMkeyInputSize; up to 2^20 pages nothing wraps. */
  function MkeyInputSize(pageCount: nat): (size: nat)
    requires pageCount <= 0x10_0000
    ensures size == 272 + OctwordCount(pageCount) * 16
  {
    MttPages.CreateMkeyInputSize(pageCount)
  }

  datatype Mkey = Mkey(pages: seq<u64>, start: u64, length: u64, access: bv32, pd: u32, variant: u8, shift: u32)

  function Flag(access: bv32, bit: bv32): u64
  {
    if access & bit != 0 then 1 else 0
  }

  /** What the encoder accepts. */
  predicate Encodable(m: Mkey, capacity: nat)
  {
    && 0 < |m.pages| <= 0x10_0000 && 12 <= m.shift <= 63 && m.length > 0 && m.variant != 0
    && Supported(m.access) && m.pd <= 0xffffff
    && MttPages.PageCountShift(m.start, m.length, m.shift) == |m.pages|
    && MkeyInputSize(|m.pages|) <= capacity
    && Aligned(m.pages, m.shift)
  }

  predicate Supported(access: bv32)
  {
    access & !ACCESS_SUPPORTED == 0
  }

  predicate Aligned(pages: seq<u64>, shift: nat)
  {
    forall i :: 0 <= i < |pages| ==> pages[i] % Pow2(shift) == 0
  }

  /** The flags of the mkey context, which starts at 0x80. */
  ghost function MkeyFlags(m: Mkey): set<Field>
  {
    {Field(0x91, 1, Flag(m.access, 8)), Field(0x92, 1, Flag(m.access, 2)), Field(0x93, 1, Flag(m.access, 4)),
     Field(0x94, 1, Flag(m.access, 1)), Field(0x95, 1, 1), Field(0x96, 2, 1), Field(0x90, 1, 1)}
  }

  /** The rest of the fixed part. */
  ghost function MkeyContext(m: Mkey): set<Field>
    requires |m.pages| <= 0x10_0000
  {
    {Field(0xa0, 24, 0xffffff), Field(0xb8, 8, m.variant), Field(0xe0, 1, 0), Field(0xe8, 24, m.pd),
     Field(0x100, 64, m.start), Field(0x140, 64, m.length), Field(0x220, 32, OctwordCount(|m.pages|)),
     Field(0x25a, 6, m.shift), Field(0x300, 32, OctwordCount(|m.pages|))}
  }

  ghost function MkeyFields(m: Mkey): set<Field>
    requires |m.pages| <= 0x10_0000
  {
    MkeyFlags(m) + MkeyContext(m) + PasFields(0x880, m.pages, |m.pages|)
  }

  /** The flags of mlxEncodeCreateMkey. */
  method EncodeAccess(input: array<bv8>, m: Mkey)
    requires input.Length >= 272
    modifies input
    ensures Holds(old(input[..]), input[..], MkeyFlags(m)) && Below(MkeyFlags(m), 0x98)
  {
    ghost var s0 := input[..];
    ghost var done := PutAbove(input, 0x80 + 0x11, 1, Flag(m.access, 8), s0, {});
    done := PutAbove(input, 0x80 + 0x12, 1, Flag(m.access, 2), s0, done);
    done := PutAbove(input, 0x80 + 0x13, 1, Flag(m.access, 4), s0, done);
    done := PutAbove(input, 0x80 + 0x14, 1, Flag(m.access, 1), s0, done);
    done := PutAbove(input, 0x80 + 0x15, 1, 1, s0, done);
    done := PutAbove(input, 0x80 + 0x16, 2, 1, s0, done);
    done := Put(input, 0x80 + 0x10, 1, 1, s0, done);
    assert done == MkeyFlags(m);
  }

  /** Its queue pair, variant, length mode and protection domain. */
  method EncodeKey(input: array<bv8>, m: Mkey, ghost s0: seq<bv8>) returns (ghost done: set<Field>)
    requires input.Length >= 272 && Holds(s0, input[..], MkeyFlags(m)) && Below(MkeyFlags(m), 0x98)
    modifies input
    ensures done == MkeyFlags(m) + {Field(0xa0, 24, 0xffffff)} + {Field(0xb8, 8, m.variant)} + {Field(0xe0, 1, 0)} + {Field(0xe8, 24, m.pd)}
    ensures Holds(s0, input[..], done) && Below(done, 0x100)
  {
    done := PutAbove(input, 0x80 + 0x20, 24, 0xffffff, s0, MkeyFlags(m));
    done := PutAbove(input, 0x80 + 0x38, 8, m.variant, s0, done);
    done := PutAbove(input, 0x80 + 0x60, 1, 0, s0, done);
    done := PutAbove(input, 0x80 + 0x68, 24, m.pd, s0, done);
  }

  /** The rest of its fixed part. */
  method EncodeContext(input: array<bv8>, m: Mkey, ghost s0: seq<bv8>)
    requires input.Length >= 272 && |m.pages| <= 0x10_0000
    requires Holds(s0, input[..], MkeyFlags(m)) && Below(MkeyFlags(m), 0x98)
    modifies input
    ensures Holds(s0, input[..], MkeyFlags(m) + MkeyContext(m)) && Below(MkeyFlags(m) + MkeyContext(m), 0x880)
  {
    ghost var done := EncodeKey(input, m, s0);
    done := PutAbove(input, 0x80 + 0x80, 64, m.start, s0, done);
    done := PutAbove(input, 0x80 + 0xc0, 64, m.length, s0, done);
    done := PutAbove(input, 0x80 + 0x1a0, 32, OctwordCount(|m.pages|), s0, done);
    done := PutAbove(input, 0x80 + 0x1da, 6, m.shift, s0, done);
    done := PutAbove(input, 0x300, 32, OctwordCount(|m.pages|), s0, done);
    assert done == MkeyFlags(m) + MkeyContext(m);
  }

  /** The tests of mlxEncodeCreateMkey. */
  method Check(m: Mkey, capacity: nat) returns (ok: bool)
    ensures ok <==> Encodable(m, capacity)
  {
    if |m.pages| > 0x10_0000 || m.shift < 12 || m.shift > 63 {
      return false;
    }
    var expected := MttPages.PageCountShift(m.start, m.length, m.shift);
    var size := MkeyInputSize(|m.pages|);
    if m.pages == [] || m.length == 0 || m.variant == 0 || !Supported(m.access) || m.pd > 0xffffff ||
       expected != |m.pages| || size > capacity
    {
      return false;
    }
    ok := AllAligned(m.pages, m.shift);
  }

  method AllAligned(pages: seq<u64>, shift: nat) returns (ok: bool)
    ensures ok <==> Aligned(pages, shift)
  {
    var size := Pow2(shift);
    for i := 0 to |pages|
      invariant forall j :: 0 <= j < i ==> pages[j] % size == 0
    {
      if pages[i] % size != 0 {
        return false;
      }
    }
    return true;
  }

  /** mlxEncodeCreateMkey: it succeeds exactly on what is encodable, and otherwise leaves the
      buffer alone. */
  method EncodeCreateMkey(input: array<bv8>, capacity: nat, m: Mkey) returns (ok: bool, inputSize: nat)
    requires capacity <= input.Length
    modifies input
    ensures ok <==> Encodable(m, capacity)
    ensures !ok ==> input[..] == old(input[..])
    ensures ok ==> inputSize == MkeyInputSize(|m.pages|) && Holds(old(input[..]), input[..], MkeyFields(m))
  {
    inputSize := 0;
    ok := Check(m, capacity);
    if ok {
      inputSize := MkeyInputSize(|m.pages|);
      WriteFields(input, m);
    }
  }

  method WriteFields(input: array<bv8>, m: Mkey)
    requires 0 < |m.pages| <= 0x10_0000 && MkeyInputSize(|m.pages|) <= input.Length
    modifies input
    ensures Holds(old(input[..]), input[..], MkeyFields(m))
  {
    ghost var s0 := input[..];
    EncodeAccess(input, m);
    EncodeContext(input, m, s0);
    PutPas(input, 0x880, m.pages, s0, MkeyFlags(m) + MkeyContext(m));
  }

  /** RegMR puts the opcode in afterwards. */
  method BuildCreateMkey(input: array<bv8>, capacity: nat, m: Mkey) returns (ok: bool, inputSize: nat)
    requires capacity <= input.Length
    modifies input
    ensures ok <==> Encodable(m, capacity)
    ensures ok ==> inputSize == MkeyInputSize(|m.pages|) <= capacity && Describes(input[..], m) && Read(input[..], 0, 16) == 0x200
    ensures ok ==> forall k: nat :: k < 8 * input.Length && !InAny(MkeyFields(m) + {Field(0, 16, 0x200)}, k) ==> Bit(input[..], k) == Bit(old(input[..]), k)
  {
    ok, inputSize := EncodeCreateMkey(input, capacity, m);
    if ok {
      ghost var done := Put(input, 0, 16, 0x200, old(input[..]), MkeyFields(m));
      OpcodeReads(old(input[..]), input[..], done);
      FieldsDescribe(old(input[..]), input[..], m, done);
    }
  }

  lemma OpcodeReads(s0: seq<bv8>, s: seq<bv8>, fields: set<Field>)
    requires Holds(s0, s, fields) && Field(0, 16, 0x200) in fields
    ensures 16 <= 8 * |s| && Read(s, 0, 16) == 0x200
  {
    Pow2Values();
    FieldReads(s0, s, fields, Field(0, 16, 0x200));
  }

  /** No field of the command reaches past the size announced to firmware. */
  lemma FieldsFitInput(m: Mkey)
    requires |m.pages| <= 0x10_0000
    ensures Fits(MkeyFields(m) + {Field(0, 16, 0x200)}, MkeyInputSize(|m.pages|))
  {
  }

  /** What the adapter reads out of the finished command: the key it is asked for. */
  ghost predicate Describes(s: seq<bv8>, m: Mkey)
    requires 8 * |s| >= 0x880 + 64 * |m.pages|
  {
    && (forall i :: 0 <= i < |m.pages| ==> Read(s, 0x880 + 64 * i, 64) == m.pages[i])
    && Read(s, 0x100, 64) == m.start && Read(s, 0x140, 64) == m.length && Read(s, 0xe0, 1) == 0
    && Read(s, 0xe8, 24) == m.pd && Read(s, 0x25a, 6) == m.shift && Read(s, 0xb8, 8) == m.variant
    && Read(s, 0x220, 32) == Read(s, 0x300, 32) == OctwordCount(|m.pages|)
    && Read(s, 0x94, 1) == Flag(m.access, 1) && Read(s, 0x92, 1) == Flag(m.access, 2)
    && Read(s, 0x93, 1) == Flag(m.access, 4) && Read(s, 0x91, 1) == Flag(m.access, 8)
    && Read(s, 0x95, 1) == 1 && Read(s, 0x96, 2) == 1 && Read(s, 0x90, 1) == 1 && Read(s, 0xa0, 24) == 0xffffff
  }

  lemma FieldsDescribe(s0: seq<bv8>, s: seq<bv8>, m: Mkey, fields: set<Field>)
    requires Encodable(m, |s|) && MkeyFields(m) <= fields && Holds(s0, s, fields)
    ensures Describes(s, m)
  {
    Pow2Values();
    forall i | 0 <= i < |m.pages| ensures Read(s, 0x880 + 64 * i, 64) == m.pages[i] {
      assert PasField(0x880, m.pages, i) in MkeyFields(m);
      FieldReads(s0, s, fields, PasField(0x880, m.pages, i));
    }
    FlagsDescribe(s0, s, m, fields);
    ContextDescribes(s0, s, m, fields);
  }

  lemma FlagsDescribe(s0: seq<bv8>, s: seq<bv8>, m: Mkey, fields: set<Field>)
    requires MkeyFlags(m) <= fields && Holds(s0, s, fields) && 8 * |s| >= 0x880
    ensures Read(s, 0x94, 1) == Flag(m.access, 1) && Read(s, 0x92, 1) == Flag(m.access, 2)
    ensures Read(s, 0x93, 1) == Flag(m.access, 4) && Read(s, 0x91, 1) == Flag(m.access, 8)
    ensures Read(s, 0x95, 1) == 1 && Read(s, 0x96, 2) == 1 && Read(s, 0x90, 1) == 1
  {
    FieldReads(s0, s, fields, Field(0x94, 1, Flag(m.access, 1)));
    FieldReads(s0, s, fields, Field(0x92, 1, Flag(m.access, 2)));
    FieldReads(s0, s, fields, Field(0x93, 1, Flag(m.access, 4)));
    FieldReads(s0, s, fields, Field(0x91, 1, Flag(m.access, 8)));
    FieldReads(s0, s, fields, Field(0x95, 1, 1));
    FieldReads(s0, s, fields, Field(0x96, 2, 1));
    FieldReads(s0, s, fields, Field(0x90, 1, 1));
  }

  lemma ContextDescribes(s0: seq<bv8>, s: seq<bv8>, m: Mkey, fields: set<Field>)
    requires Encodable(m, |s|) && MkeyContext(m) <= fields && Holds(s0, s, fields)
    ensures Read(s, 0x100, 64) == m.start && Read(s, 0x140, 64) == m.length && Read(s, 0xe0, 1) == 0
    ensures Read(s, 0xe8, 24) == m.pd && Read(s, 0x25a, 6) == m.shift && Read(s, 0xb8, 8) == m.variant
    ensures Read(s, 0x220, 32) == Read(s, 0x300, 32) == OctwordCount(|m.pages|) && Read(s, 0xa0, 24) == 0xffffff
  {
    Pow2Values();
    var n := OctwordCount(|m.pages|);
    FieldReads(s0, s, fields, Field(0x100, 64, m.start));
    FieldReads(s0, s, fields, Field(0x140, 64, m.length));
    FieldReads(s0, s, fields, Field(0xe0, 1, 0));
    FieldReads(s0, s, fields, Field(0xe8, 24, m.pd));
    FieldReads(s0, s, fields, Field(0x25a, 6, m.shift));
    FieldReads(s0, s, fields, Field(0xb8, 8, m.variant));
    FieldReads(s0, s, fields, Field(0x220, 32, n));
    FieldReads(s0, s, fields, Field(0x300, 32, n));
    FieldReads(s0, s, fields, Field(0xa0, 24, 0xffffff));
  }

  // ---------------------------------------------------------------- MANAGE_PAGES

  const PAGES_GIVE: u16 := 1
  const PAGES_TAKE: u16 := 2

  /** mlxP1ManagePagesSize: 0 for more pages than one command carries. */
  function ManagePagesSize(count: nat): nat
  {
    if count <= 512 then 16 + count * 8 else 0
  }

  datatype PageOp = PageOp(opMod: u16, functionId: u16, embedded: bool, pages: Option<seq<u64>>, count: u32)

  function Needed(op: PageOp): nat
  {
    if op.opMod == PAGES_GIVE then ManagePagesSize(op.count) else 16
  }

  predicate Manageable(op: PageOp, length: nat)
  {
    && op.count <= 512 && op.opMod <= PAGES_TAKE && Needed(op) <= length
    && (op.opMod == PAGES_GIVE ==> op.pages.Some? && op.count > 0)
  }

  function Given(op: PageOp): seq<u64>
    requires op.pages.Some? ==> op.count <= |op.pages.value|
  {
    if op.opMod == PAGES_GIVE && op.pages.Some? then op.pages.value[..op.count] else []
  }

  ghost function PageOpFields(op: PageOp): set<Field>
    requires op.pages.Some? ==> op.count <= |op.pages.value|
  {
    {Field(0, 16, 0x108)} + {Field(0x30, 16, op.opMod)} + {Field(0x40, 1, if op.embedded then 1 else 0)} +
    {Field(0x50, 16, op.functionId)} + {Field(0x60, 32, op.count)} + PasFields(0x80, Given(op), |Given(op)|)
  }

  function Zeroed(s: seq<bv8>, n: nat): (t: seq<bv8>)
    requires n <= |s|
    ensures |t| == |s| && (forall i :: 0 <= i < n ==> t[i] == 0) && forall i :: n <= i < |s| ==> t[i] == s[i]
  {
    seq(n, _ => 0) + s[n..]
  }

  /** memset(in, 0, needed). */
  method Clear(input: array<bv8>, n: nat)
    requires n <= input.Length
    modifies input
    ensures input[..] == Zeroed(old(input[..]), n)
  {
    for i := 0 to n
      invariant input[..i] == seq(i, _ => 0 as bv8) && input[i..] == old(input[i..])
    {
      input[i] := 0;
      assert input[..i + 1] == input[..i] + [0];
    }
    assert input[..] == input[..n] + input[n..];
  }

  /** mlxP1EncodeManagePages. Everything in the command but its fields is zero; beyond it the
      buffer is untouched. */
  method EncodeManagePages(input: array<bv8>, length: nat, op: PageOp) returns (ok: bool)
    requires length <= input.Length && (op.pages.Some? ==> op.count <= |op.pages.value|)
    modifies input
    ensures ok <==> Manageable(op, length)
    ensures !ok ==> input[..] == old(input[..])
    ensures ok ==> Needed(op) <= input.Length && Holds(Zeroed(old(input[..]), Needed(op)), input[..], PageOpFields(op))
    ensures ok ==> Asks(input[..], op)
  {
    var needed := Needed(op);
    if needed == 0 || length < needed || op.count > 512 || op.opMod > PAGES_TAKE ||
       (op.opMod == PAGES_GIVE && (op.pages.None? || op.count == 0))
    {
      return false;
    }
    ghost var s0 := Zeroed(input[..], needed);
    Clear(input, needed);
    ghost var done := EncodeHeader(input, op);
    if op.opMod == PAGES_GIVE {
      PutPas(input, 0x80, op.pages.value[..op.count], s0, done);
    } else {
      assert PageOpFields(op) == done;
    }
    PageOpReads(s0, input[..], op);
    return true;
  }

  method EncodeHeader(input: array<bv8>, op: PageOp) returns (ghost done: set<Field>)
    requires input.Length >= 16
    modifies input
    ensures done == {Field(0, 16, 0x108)} + {Field(0x30, 16, op.opMod)} + {Field(0x40, 1, if op.embedded then 1 else 0)} +
                    {Field(0x50, 16, op.functionId)} + {Field(0x60, 32, op.count)}
    ensures Holds(old(input[..]), input[..], done) && Below(done, 0x80)
  {
    ghost var s0 := input[..];
    done := PutAbove(input, 0x00, 16, 0x108, s0, {});
    done := PutAbove(input, 0x30, 16, op.opMod, s0, done);
    done := PutAbove(input, 0x40, 1, if op.embedded then 1 else 0, s0, done);
    done := PutAbove(input, 0x50, 16, op.functionId, s0, done);
    done := PutAbove(input, 0x60, 32, op.count, s0, done);
  }

  /** What firmware reads out of the command. */
  ghost predicate Asks(s: seq<bv8>, op: PageOp)
  {
    && 8 * |s| >= 0x80 && Read(s, 0, 16) == 0x108 && Read(s, 0x30, 16) == op.opMod
    && Read(s, 0x40, 1) == (if op.embedded then 1 else 0) && Read(s, 0x50, 16) == op.functionId && Read(s, 0x60, 32) == op.count
    && (op.opMod == PAGES_GIVE && op.pages.Some? && op.count <= |op.pages.value| ==>
          8 * |s| >= 0x80 + 64 * op.count && forall i :: 0 <= i < op.count ==> Read(s, 0x80 + 64 * i, 64) == op.pages.value[i])
  }

  lemma PageOpReads(s0: seq<bv8>, s: seq<bv8>, op: PageOp)
    requires (op.pages.Some? ==> op.count <= |op.pages.value|) && Holds(s0, s, PageOpFields(op))
    requires |s| >= Needed(op) && op.count <= 512
    ensures Asks(s, op)
  {
    PageHeaderReads(s0, s, op);
    if op.opMod == PAGES_GIVE && op.pages.Some? {
      AllPasRead(s0, s, PageOpFields(op), 0x80, op.pages.value[..op.count]);
    }
  }

  lemma AllPasRead(s0: seq<bv8>, s: seq<bv8>, fields: set<Field>, base: nat, pages: seq<u64>)
    requires Holds(s0, s, fields) && PasFields(base, pages, |pages|) <= fields && 8 * |s| >= base + 64 * |pages|
    ensures forall i :: 0 <= i < |pages| ==> Read(s, base + 64 * i, 64) == pages[i]
  {
    forall i | 0 <= i < |pages| ensures Read(s, base + 64 * i, 64) == pages[i] {
      PasReads(s0, s, fields, base, pages, i);
    }
  }

  lemma PasReads(s0: seq<bv8>, s: seq<bv8>, fields: set<Field>, base: nat, pages: seq<u64>, i: nat)
    requires Holds(s0, s, fields) && PasFields(base, pages, |pages|) <= fields && i < |pages|
    ensures base + 64 * i + 64 <= 8 * |s| && Read(s, base + 64 * i, 64) == pages[i]
  {
    Pow2Values();
    assert PasField(base, pages, i) in fields;
    FieldReads(s0, s, fields, PasField(base, pages, i));
  }

  lemma PageHeaderReads(s0: seq<bv8>, s: seq<bv8>, op: PageOp)
    requires (op.pages.Some? ==> op.count <= |op.pages.value|) && Holds(s0, s, PageOpFields(op))
    ensures 8 * |s| >= 0x80 && Read(s, 0, 16) == 0x108 && Read(s, 0x30, 16) == op.opMod
    ensures Read(s, 0x40, 1) == (if op.embedded then 1 else 0) && Read(s, 0x50, 16) == op.functionId && Read(s, 0x60, 32) == op.count
  {
    Pow2Values();
    var fields := PageOpFields(op);
    FieldReads(s0, s, fields, Field(0, 16, 0x108));
    FieldReads(s0, s, fields, Field(0x30, 16, op.opMod));
    FieldReads(s0, s, fields, Field(0x40, 1, if op.embedded then 1 else 0));
    FieldReads(s0, s, fields, Field(0x50, 16, op.functionId));
    FieldReads(s0, s, fields, Field(0x60, 32, op.count));
  }

  // ---------------------------------------------------------------- the reply to TAKE

  /** The pages a reply names, if it is well formed: no more than were asked for, nor than fit
      in the caller's list or in the reply. */
  ghost function TakeReply(s: seq<bv8>, length: nat, requested: nat, maxPas: nat): Option<seq<u64>>
    requires length <= |s|
  {
    if length < 16 || requested > 512 then None
    else
      var n := Read(s, 0x40, 32);
      if n > requested || n > maxPas || length < 16 + n * 8 then None
      else Some(seq(n, i requires 0 <= i < n => PasAt(s, i)))
  }

  ghost function PasAt(s: seq<bv8>, i: nat): u64
    requires 0x80 + 64 * i + 64 <= 8 * |s|
  {
    Read(s, 0x80 + 64 * i, 64) % U64
  }

  /** mlxP1DecodeManagePagesTake. */
  method DecodeManagePagesTake(out: array<bv8>, length: nat, requested: u32, maxPas: u32) returns (pas: Option<seq<u64>>)
    requires length <= out.Length
    ensures pas == TakeReply(out[..], length, requested, maxPas)
  {
    if length < 16 || requested > 512 {
      return None;
    }
    var n := GetBits(out, 0x40, 32);
    if n > requested || n > maxPas || length < 16 + n * 8 {
      return None;
    }
    var list: seq<u64> := [];
    for i := 0 to n
      invariant |list| == i && forall j :: 0 <= j < i ==> list[j] == PasAt(out[..], j)
    {
      var page := GetBits(out, 0x80 + i * 64, 64);
      list := list + [page];
    }
    ghost var s := out[..];
    assert list == seq(n, i requires 0 <= i < n => PasAt(s, i));
    return Some(list);
  }

  /** A reply laid out as firmware lays it out is decoded to the pages it was made of. */
  lemma TakeRoundTrip(s0: seq<bv8>, s: seq<bv8>, pages: seq<u64>, length: nat, requested: nat, maxPas: nat)
    requires |pages| <= requested <= 512 && |pages| <= maxPas && 16 + 8 * |pages| <= length <= |s|
    requires Holds(s0, s, {Field(0x40, 32, |pages|)} + PasFields(0x80, pages, |pages|))
    ensures TakeReply(s, length, requested, maxPas) == Some(pages)
  {
    var fields := {Field(0x40, 32, |pages|)} + PasFields(0x80, pages, |pages|);
    Pow2Values();
    FieldReads(s0, s, fields, Field(0x40, 32, |pages|));
    forall i | 0 <= i < |pages| ensures PasAt(s, i) == pages[i] {
      PasReads(s0, s, fields, 0x80, pages, i);
    }
    assert seq(|pages|, i requires 0 <= i < |pages| => PasAt(s, i)) == pages;
  }

  /** A count beyond the request is refused whatever else the reply says. */
  lemma TakeRefusesExcess(s0: seq<bv8>, s: seq<bv8>, claimed: u32, fields: set<Field>, length: nat, requested: nat, maxPas: nat)
    requires length <= |s| && Holds(s0, s, fields) && Field(0x40, 32, claimed) in fields
    requires claimed > requested || claimed > maxPas || 16 + 8 * claimed > length
    ensures TakeReply(s, length, requested, maxPas) == None
  {
    Pow2Values();
    FieldReads(s0, s, fields, Field(0x40, 32, claimed));
  }
}
