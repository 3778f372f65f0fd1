/** MlxIfcHelpers.hpp: bit fields of command buffers. Offsets count bits from the most
    significant bit of byte zero. */
module IfcBits {
  import opened Words

  /** `1u << (7 - d)`. */
  function Mask(d: nat): (m: bv8)
    requires d < 8
  {
    if d == 0 then 0x80 else if d == 1 then 0x40 else if d == 2 then 0x20 else if d == 3 then 0x10
    else if d == 4 then 0x08 else if d == 5 then 0x04 else if d == 6 then 0x02 else 0x01
  }

  function BitOf(b: bv8, d: nat): (r: nat)
    requires d < 8
    ensures r < 2
  {
    if b & Mask(d) != 0 then 1 else 0
  }

  lemma OrSets(b: bv8, d: nat, e: nat)
    requires d < 8 && e < 8
    ensures BitOf(b | Mask(d), e) == if e == d then 1 else BitOf(b, e)
  {
  }

  lemma AndClears(b: bv8, d: nat, e: nat)
    requires d < 8 && e < 8
    ensures BitOf(b & !Mask(d), e) == if e == d then 0 else BitOf(b, e)
  {
  }

  // ---------------------------------------------------------------- buffers

  function Bit(s: seq<bv8>, k: nat): (r: nat)
    requires k < 8 * |s|
    ensures r < 2
  {
    BitOf(s[k / 8], k % 8)
  }

  /** The field of `width` bits at `off`, most significant bit first. */
  function Read(s: seq<bv8>, off: nat, width: nat): (v: nat)
    requires off + width <= 8 * |s|
    ensures v < Pow2(width)
  {
    if width == 0 then 0 else 2 * Read(s, off, width - 1) + Bit(s, off + width - 1)
  }

  /** Bit `i` from the top of a `width`-bit field holding `value`. */
  function FieldBit(value: nat, width: nat, i: nat): (r: nat)
    requires i < width
    ensures r < 2
  {
    value / Pow2(width - 1 - i) % 2
  }

  /** `t` is `s` with the field overwritten and every other bit as it was. */
  ghost predicate Written(s: seq<bv8>, t: seq<bv8>, off: nat, width: nat, value: nat)
  {
    && |t| == |s| && off + width <= 8 * |s|
    && forall k: nat :: k < 8 * |s| ==> Bit(t, k) == if off <= k < off + width then FieldBit(value, width, k - off) else Bit(s, k)
  }

  /** What is written is read back, modulo 2^width. */
  lemma {:induction false} ReadWritten(s: seq<bv8>, off: nat, width: nat, value: nat)
    requires off + width <= 8 * |s|
    requires forall i: nat :: i < width ==> Bit(s, off + i) == FieldBit(value, width, i)
    ensures Read(s, off, width) == value % Pow2(width)
  {
    if width > 0 {
      var half, rest := value / 2, width - 1;
      forall i: nat | i < rest ensures Bit(s, off + i) == FieldBit(half, rest, i) {
        assert Bit(s, off + i) == FieldBit(value, width, i);
        HalfShift(value, width - 2 - i);
      }
      ReadWritten(s, off, rest, half);
      assert Bit(s, off + (width - 1)) == FieldBit(value, width, width - 1) == value % 2;
      Doubling(value, Pow2(width - 1));
    }
  }

  lemma HalfShift(value: nat, n: nat)
    ensures value / 2 / Pow2(n) == value / Pow2(n + 1)
  {
    var p := Pow2(n);
    RemainderBound(value / 2, p);
    var q := value / 2 / p;
    var r := value / 2 % p;
    assert Pow2(n + 1) == 2 * p;
    assert value == q * (2 * p) + (2 * r + value % 2) by {
      assert value == 2 * (value / 2) + value % 2;
      assert 2 * (q * p) == q * (2 * p);
    }
    DivModUnique(value, 2 * p, q, 2 * r + value % 2);
  }

  lemma Doubling(value: nat, p: int)
    requires p > 0
    ensures 2 * (value / 2 % p) + value % 2 == value % (2 * p)
  {
    RemainderBound(value / 2, p);
    var q, r := value / 2 / p, value / 2 % p;
    assert value == q * (2 * p) + (2 * r + value % 2) by {
      assert value == 2 * (value / 2) + value % 2;
      assert 2 * (q * p) == q * (2 * p);
    }
    DivModUnique(value, 2 * p, q, 2 * r + value % 2);
  }

  lemma {:induction false} ReadUnchanged(s: seq<bv8>, t: seq<bv8>, off: nat, width: nat)
    requires |s| == |t| && off + width <= 8 * |s|
    requires forall k: nat :: off <= k < off + width ==> Bit(t, k) == Bit(s, k)
    ensures Read(t, off, width) == Read(s, off, width)
  {
    if width > 0 {
      ReadUnchanged(s, t, off, width - 1);
      assert Bit(t, off + width - 1) == Bit(s, off + width - 1);
    }
  }

  // ---------------------------------------------------------------- the helpers

  /** mlxSetBits. Wider than 64 bits the shift it makes is undefined. */
  method SetBits(buffer: array<bv8>, bitOffset: nat, bitWidth: nat, value: u64)
    requires bitWidth <= 64 && bitOffset + bitWidth <= 8 * buffer.Length
    modifies buffer
    ensures Written(old(buffer[..]), buffer[..], bitOffset, bitWidth, value)
    ensures Read(buffer[..], bitOffset, bitWidth) == value % Pow2(bitWidth)
  {
    for i := 0 to bitWidth
      invariant forall k: nat :: k < 8 * buffer.Length ==>
                  Bit(buffer[..], k) == (if bitOffset <= k < bitOffset + i then FieldBit(value, bitWidth, k - bitOffset) else Bit(old(buffer[..]), k))
    {
      var dstBit := bitOffset + i;
      PutBit(buffer, dstBit, value / Pow2(bitWidth - 1 - i) % 2 == 1);
    }
    ReadWritten(buffer[..], bitOffset, bitWidth, value);
  }

  /** One turn: `|= mask` or `&= ~mask`. */
  method PutBit(buffer: array<bv8>, dstBit: nat, on: bool)
    requires dstBit < 8 * buffer.Length
    modifies buffer
    ensures forall k: nat :: k < 8 * buffer.Length ==>
              Bit(buffer[..], k) == if k == dstBit then (if on then 1 else 0) else Bit(old(buffer[..]), k)
  {
    var at, d := dstBit / 8, dstBit % 8;
    ghost var before := buffer[..];
    if on {
      buffer[at] := buffer[at] | Mask(d);
    } else {
      buffer[at] := buffer[at] & !Mask(d);
    }
    assert buffer[..] == before[at := buffer[at]];
    OneByte(before, at, d, buffer[at], on);
  }

  lemma OneByte(s: seq<bv8>, at: nat, d: nat, b: bv8, on: bool)
    requires at < |s| && d < 8 && b == if on then s[at] | Mask(d) else s[at] & !Mask(d)
    ensures forall k: nat :: k < 8 * |s| ==> Bit(s[at := b], k) == if k == 8 * at + d then (if on then 1 else 0) else Bit(s, k)
  {
    forall k: nat | k < 8 * |s|
      ensures Bit(s[at := b], k) == if k == 8 * at + d then (if on then 1 else 0) else Bit(s, k)
    {
      if k / 8 == at {
        OrSets(s[at], d, k % 8);
        AndClears(s[at], d, k % 8);
      }
    }
  }

  /** mlxGetBits: the field, modulo 2^64. */
  method GetBits(buffer: array<bv8>, bitOffset: nat, bitWidth: nat) returns (value: u64)
    requires bitOffset + bitWidth <= 8 * buffer.Length
    ensures value == Read(buffer[..], bitOffset, bitWidth) % U64
    ensures bitWidth <= 64 ==> value == Read(buffer[..], bitOffset, bitWidth)
  {
    value := 0;
    for i := 0 to bitWidth
      invariant value == Read(buffer[..], bitOffset, i) % 0x1_0000_0000_0000_0000
    {
      var srcBit := bitOffset + i;
      ShiftIn(Read(buffer[..], bitOffset, i), BitOf(buffer[srcBit / 8], srcBit % 8));
      value := value * 2 % 0x1_0000_0000_0000_0000 + BitOf(buffer[srcBit / 8], srcBit % 8);
    }
    if bitWidth <= 64 {
      Pow2Monotone(bitWidth, 64);
      Pow2Values();
    }
  }

  lemma ShiftIn(v: nat, bit: nat)
    requires bit < 2
    ensures v % 0x1_0000_0000_0000_0000 * 2 % 0x1_0000_0000_0000_0000 + bit == (2 * v + bit) % 0x1_0000_0000_0000_0000
  {
    var m := 0x1_0000_0000_0000_0000;
    var q, r := v / m, v % m;
    assert v == q * m + r;
    DivModShift(2 * r, 2 * q, m);
    var s := 2 * r;
    var h, e := s / m, s % m;
    assert s == h * m + e && e % 2 == 0;
    DivModUnique(2 * v + bit, m, 2 * q + h, e + bit);
  }

  // ---------------------------------------------------------------- layouts

  /** A field of a command and the value it is given. */
  datatype Field = Field(off: nat, width: nat, value: u64)

  predicate Apart(f: Field, g: Field)
  {
    f.off + f.width <= g.off || g.off + g.width <= f.off
  }

  ghost predicate AllApart(fields: set<Field>, g: Field)
  {
    forall f {:trigger Apart(f, g)} :: f in fields ==> Apart(f, g)
  }

  predicate Inside(f: Field, bytes: nat)
  {
    f.width <= 64 && f.off + f.width <= 8 * bytes
  }

  ghost predicate Fits(fields: set<Field>, bytes: nat)
  {
    forall f {:trigger Inside(f, bytes)} :: f in fields ==> Inside(f, bytes)
  }

  ghost predicate ReadsAs(t: seq<bv8>, f: Field)
  {
    f.off + f.width <= 8 * |t| && Read(t, f.off, f.width) == f.value % Pow2(f.width)
  }

  ghost predicate InAny(fields: set<Field>, k: nat)
  {
    exists f :: f in fields && f.off <= k < f.off + f.width
  }

  /** `t` is `s` with exactly the given fields set: each reads as its value, and a bit outside
      all of them is as it was. */
  ghost predicate Holds(s: seq<bv8>, t: seq<bv8>, fields: set<Field>)
  {
    && |t| == |s| && Fits(fields, |s|)
    && (forall f {:trigger ReadsAs(t, f)} :: f in fields ==> ReadsAs(t, f))
    && (forall k: nat {:trigger InAny(fields, k)} :: k < 8 * |s| && !InAny(fields, k) ==> Bit(t, k) == Bit(s, k))
  }

  /** A write outside all earlier fields keeps them readable. */
  lemma HoldsMore(s: seq<bv8>, t: seq<bv8>, u: seq<bv8>, fields: set<Field>, f: Field)
    requires Holds(s, t, fields) && Written(t, u, f.off, f.width, f.value) && f.width <= 64 && AllApart(fields, f)
    ensures Holds(s, u, fields + {f})
  {
    forall g | g in fields ensures ReadsAs(u, g) {
      StillReads(s, t, u, fields, f, g);
    }
    NowReads(t, u, f);
    forall k: nat | k < 8 * |s| && !InAny(fields + {f}, k) ensures Bit(u, k) == Bit(s, k) {
      assert f in fields + {f};
      assert !InAny(fields, k) by {
        forall g | g in fields ensures !(g.off <= k < g.off + g.width) {
          assert g in fields + {f};
        }
      }
    }
    forall g | g in fields + {f} ensures Inside(g, |s|) {}
  }

  lemma StillReads(s: seq<bv8>, t: seq<bv8>, u: seq<bv8>, fields: set<Field>, f: Field, g: Field)
    requires Holds(s, t, fields) && Written(t, u, f.off, f.width, f.value) && AllApart(fields, f) && g in fields
    ensures ReadsAs(u, g)
  {
    assert Apart(g, f) && ReadsAs(t, g) && Inside(g, |s|);
    ReadUnchanged(t, u, g.off, g.width);
  }

  lemma NowReads(t: seq<bv8>, u: seq<bv8>, f: Field)
    requires Written(t, u, f.off, f.width, f.value)
    ensures ReadsAs(u, f)
  {
    forall j: nat | j < f.width ensures Bit(u, f.off + j) == FieldBit(f.value, f.width, j) {}
    ReadWritten(u, f.off, f.width, f.value);
  }

  /** A field whose value fits its width is read back as it was given. */
  lemma FieldReads(s: seq<bv8>, t: seq<bv8>, fields: set<Field>, f: Field)
    requires Holds(s, t, fields) && f in fields && f.value < Pow2(f.width)
    ensures f.off + f.width <= 8 * |t| && Read(t, f.off, f.width) == f.value
  {
    assert ReadsAs(t, f);
    DivModUnique(f.value, Pow2(f.width), 0, f.value);
  }
}
