/** MlxP0Encoding.hpp, MlxDMA.cpp and MlxMR.cpp: how a registration chooses the page size
    and the page list of its memory key. */
module MttPages {
  import opened Words
  import opened DmaSegments

  const MIN_SHIFT: nat := 12
  const MAX_SHIFT: nat := 21
  const MAX_DMA_PAGES: nat := 480
  const MKEY_FIXED_BYTES: nat := 272
  const MAX_INPUT: nat := 16 + 1024 * 512

  // ---------------------------------------------------------------- page counts

  /** mlxMttPageCountShift; 0 stands for "no valid count". */
  function PageCountShift(start: u64, length: u64, shift: nat): (count: int)
  {
    if shift < MIN_SHIFT || shift > 63 then 0
    else
      var size := Pow2(shift);
      if length == 0 || length > U64 - 1 - start || length > U64 - 1 - start % size then 0
      else
        var span := start % size + length;
        span / size + if span % size != 0 then 1 else 0
  }

  /** A non-zero count is the least number of pages that hold the region, and it is zero only
      for a bad shift, an empty region, or one that runs past 2^64. */
  lemma PageCountIsLeast(start: u64, length: u64, shift: nat)
    ensures PageCountShift(start, length, shift) == 0 <==>
            shift < 12 || shift > 63 || length == 0 || start + length >= U64
    ensures var count, size := PageCountShift(start, length, shift), Pow2(shift);
            count != 0 ==> count > 0 && (count - 1) * size < start % size + length <= count * size
  {
    if 12 <= shift <= 63 && length > 0 {
      var size := Pow2(shift);
      RemainderBound(start, size);
      var span := start % size + length;
      assert span == span / size * size + span % size;
      assert span / size <= 0 ==> span / size * size <= 0;
      assert (span / size + 1) * size == span / size * size + size;
      assert (span / size - 1) * size == span / size * size - size;
    }
  }

  // ---------------------------------------------------------------- contiguous regions

  /** Where the adapter sends byte `j` of a region that starts `off` bytes into its first
      `size`-byte page; -1 past the end of the list. */
  function Target(pages: seq<u64>, size: int, off: nat, j: nat): int
    requires size > 0
  {
    if 0 <= (off + j) / size < |pages| then pages[(off + j) / size] + (off + j) % size else -1
  }

  /** mlxPickMttPageShift. */
  method PickShift(start: u64, iova: u64, maxShift: nat) returns (shift: nat)
    ensures var top := if maxShift < 12 then 12 else if maxShift > 21 then 21 else maxShift;
            && (shift == 0 <==> start % Pow2(12) != iova % Pow2(12))
            && (shift != 0 ==> 12 <= shift <= top && start % Pow2(shift) == iova % Pow2(shift))
            && forall s :: shift < s <= top && 12 <= s ==> start % Pow2(s) != iova % Pow2(s)
  {
    var top := maxShift;
    if top < MIN_SHIFT {
      top := MIN_SHIFT;
    }
    if top > MAX_SHIFT {
      top := MAX_SHIFT;
    }
    var s := top;
    while s >= MIN_SHIFT
      invariant 11 <= s <= top
      invariant forall t :: s < t <= top && 12 <= t ==> start % Pow2(t) != iova % Pow2(t)
    {
      if iova % Pow2(s) == start % Pow2(s) {
        CongruenceDescends(start, iova, s, 12);
        return s;
      }
      s := s - 1;
    }
    return 0;
  }

  /** Congruence at a coarse page size implies it at every finer one, so "the largest
      congruent shift" makes every smaller shift usable too. */
  lemma CongruenceDescends(x: nat, y: nat, coarse: nat, fine: nat)
    requires fine <= coarse && x % Pow2(coarse) == y % Pow2(coarse)
    ensures x % Pow2(fine) == y % Pow2(fine)
  {
    Pow2Adds(coarse - fine, fine);
    var k, big, small := Pow2(coarse - fine), Pow2(coarse), Pow2(fine);
    ModOfMultiple(x, k, small);
    ModOfMultiple(y, k, small);
  }

  lemma ModOfMultiple(x: nat, k: int, small: int)
    requires k > 0 && small > 0 && k * small > 0
    ensures x % (k * small) % small == x % small
  {
    var q := x / (k * small);
    assert x == q * (k * small) + x % (k * small);
    assert q * (k * small) == (q * k) * small;
    DivModShift(x % (k * small), q * k, small);
  }

  /** mlxBuildContiguousPas. Address arithmetic is modulo 2^64, as in the source. */
  method BuildContiguousPas(iova: u64, start: u64, length: u64, shift: nat, pages: array<u64>, capacity: nat)
    returns (ok: bool, count: nat)
    requires capacity <= pages.Length
    modifies pages
    ensures ok <==> 0 < PageCountShift(start, length, shift) <= capacity
    ensures ok ==> count == PageCountShift(start, length, shift) && 12 <= shift <= 63
    ensures ok ==> forall i :: 0 <= i < count ==> pages[i] == ContiguousPage(iova, shift, i)
  {
    count := 0;
    if shift < MIN_SHIFT || shift > 63 {
      return false, 0;
    }
    var npages := PageCountShift(start, length, shift);
    PageCountIsLeast(start, length, shift);
    if npages == 0 || npages > capacity {
      return false, 0;
    }
    var size := Pow2(shift);
    RemainderBound(iova, size);
    var pageStart := iova - iova % size;
    var i := 0;
    while i < npages
      invariant 0 <= i <= npages
      invariant forall n :: 0 <= n < i ==> pages[n] == ContiguousPage(iova, shift, n)
    {
      pages[i] := (pageStart + i * size % U64) % U64;
      WrapOnce(pageStart, i * size);
      i := i + 1;
    }
    return true, npages;
  }

  lemma WrapOnce(a: int, b: int)
    ensures (a + b % U64) % U64 == (a + b) % U64
  {
  }

  /** Entry `i` of the coarse list, wrapped to 64 bits. */
  function ContiguousPage(iova: u64, shift: nat, i: nat): u64
  {
    (iova - iova % Pow2(shift) + i * Pow2(shift)) % U64
  }

  /** When start and IOVA agree modulo the page size and the range ends below 2^64, no entry
      wraps and every byte `j` goes to `iova + j`, whatever the page size. */
  lemma ContiguousIsRight(iova: u64, start: u64, length: u64, shift: nat, pages: seq<u64>)
    requires 12 <= shift <= 63 && length > 0 && start + length < U64 && iova + length < U64
    requires start % Pow2(shift) == iova % Pow2(shift)
    requires |pages| == PageCountShift(start, length, shift)
    requires forall i :: 0 <= i < |pages| ==> pages[i] == ContiguousPage(iova, shift, i)
    ensures forall i :: 0 <= i < |pages| ==> pages[i] == iova - iova % Pow2(shift) + i * Pow2(shift)
    ensures forall i :: 0 <= i < |pages| ==> pages[i] % Pow2(shift) == 0
    ensures forall j :: 0 <= j < length ==> Target(pages, Pow2(shift), start % Pow2(shift), j) == iova + j
  {
    var size := Pow2(shift);
    PageCountIsLeast(start, length, shift);
    forall i | 0 <= i < |pages|
      ensures pages[i] == iova - iova % size + i * size && pages[i] % size == 0
    {
      NoWrap(iova, start, length, size, |pages|, i);
    }
    forall j | 0 <= j < length ensures Target(pages, size, start % size, j) == iova + j {
      InRange(start % size + j, size, |pages|);
    }
  }

  lemma NoWrap(iova: u64, start: u64, length: u64, size: int, count: nat, i: nat)
    requires size > 0 && iova + length < U64 && start % size == iova % size
    requires i < count && (count - 1) * size < start % size + length
    ensures 0 <= iova - iova % size + i * size < iova + length
    ensures (iova - iova % size + i * size) % U64 == iova - iova % size + i * size
    ensures (iova - iova % size + i * size) % size == 0
  {
    RemainderBound(iova, size);
    MulMonotone(i, count - 1, size);
    MulMonotone(0, i, size);
    DivModShift(0, iova / size + i, size);
    assert (iova / size + i) * size == iova / size * size + i * size;
  }

  lemma InRange(at: nat, size: int, count: nat)
    requires size > 0 && at < count * size
    ensures 0 <= at / size < count && at == at / size * size + at % size
  {
    RemainderBound(at, size);
    DivMonotone(at, count * size - 1, size);
    DivModUnique(count * size - 1, size, count - 1, size - 1);
  }

  // ---------------------------------------------------------------- registration

  datatype Refusal = NoSpace | BadArgument
  datatype Mapping = Mapped(shift: nat, pages: seq<u64>) | Refused(why: Refusal)

  /** Pin's test: every segment begins where the one before it ends. */
  ghost predicate Contiguous(segs: seq<Segment>)
  {
    forall i :: 1 <= i < |segs| ==> segs[i].address == segs[i - 1].address + segs[i - 1].length
  }

  lemma {:induction false} ContiguousAddresses(segs: seq<Segment>, j: nat)
    requires segs != [] && Contiguous(segs) && j < Total(segs)
    ensures ByteAddress(segs, j) == segs[0].address + j
    ensures segs[0].address + Total(segs) == segs[|segs| - 1].address + segs[|segs| - 1].length
  {
    var init := segs[..|segs| - 1];
    if init != [] {
      if Total(init) > 0 {
        ContiguousAddresses(init, if j < Total(init) then j else 0);
      } else {
        EmptyTotal(init);
      }
    }
  }

  lemma {:induction false} EmptyTotal(segs: seq<Segment>)
    requires segs != [] && Contiguous(segs) && Total(segs) == 0
    ensures segs[0].address == segs[|segs| - 1].address + segs[|segs| - 1].length
  {
    if |segs| > 1 {
      EmptyTotal(segs[..|segs| - 1]);
    }
  }

  function CreateMkeyInputSize(pageCount: u32): u32
  {
    (MKEY_FIXED_BYTES + (pageCount + 1) % U32 / 2 * 16) % U32
  }

  /** What a registered key means: each byte of the client's range reaches the byte of the
      pinned memory with the same index, through a list that fills one command. */
  ghost predicate MapsRegion(m: Mapping, segs: seq<Segment>, start: u64, length: u64)
    requires length <= Total(segs)
  {
    && m.Mapped?
    && 12 <= m.shift <= 63
    && |m.pages| == PageCountShift(start, length, m.shift)
    && (forall i :: 0 <= i < |m.pages| ==> m.pages[i] % Pow2(m.shift) == 0)
    && (forall j :: 0 <= j < length ==>
          Target(m.pages, Pow2(m.shift), start % Pow2(m.shift), j) == ByteAddress(segs, j))
  }

  lemma RepresentsMaps(pages: seq<u64>, segs: seq<Segment>, start: u64, length: u64)
    requires 0 < length <= Total(segs) && start + length < U64
    requires Represents(pages, segs, start % 4096, length)
    ensures MapsRegion(Mapped(12, pages), segs, start, length)
  {
    Pow2Values();
    var off := start % 4096;
    PageCountIsLeast(start, length, 12);
    assert PageCountShift(start, length, 12) == PagesTouched(off, length) by {
      var span := off + length;
      assert Entry(off, length - 1) == (span - 1) / 4096;
    }
    forall j | 0 <= j < length ensures Target(pages, Pow2(12), start % Pow2(12), j) == ByteAddress(segs, j) {
      assert ByteIsRight(pages, segs, off, j);
    }
  }

  method IsContiguous(segs: seq<Segment>) returns (yes: bool)
    ensures yes <==> Contiguous(segs)
  {
    var i := 1;
    while i < |segs|
      invariant 1 <= i
      invariant forall n :: 1 <= n < i && n < |segs| ==> segs[n].address == segs[n - 1].address + segs[n - 1].length
    {
      if segs[i].address != segs[i - 1].address + segs[i - 1].length {
        return false;
      }
      i := i + 1;
    }
    return true;
  }

  /** Pin followed by RegMR's choice of page list, up to the size and alignment tests of
      mlxEncodeCreateMkey. `hcaMax` is the adapter's limit, 0 when it was never read. The
      pinned memory has the length the client asked for. */
  method MapForRegistration(segs: seq<Segment>, start: u64, length: u64, hcaMax: nat) returns (m: Mapping)
    requires start > 0 && length > 0 && start + length < U64
    ensures m.Mapped? ==> Covers(segs, length) && segs[0].address % 4096 == start % 4096
    ensures m.Mapped? ==> MapsRegion(m, segs, start, length)
    ensures m.Mapped? ==> |m.pages| <= 0x10_0000 && CreateMkeyInputSize(|m.pages|) <= MAX_INPUT
    ensures m.Mapped? ==> CreateMkeyInputSize(|m.pages|) >= MKEY_FIXED_BYTES + 8 * |m.pages|
  {
    var covers := SegmentsCover(segs, length);
    if !covers {
      return Refused(NoSpace);
    }
    var iova := segs[0].address;
    var contiguous := IsContiguous(segs);
    if length <= MAX_DMA_PAGES * 4096 {
      m := MapSmall(segs, start, length);
    } else if iova % 4096 != start % 4096 {
      m := Refused(BadArgument);
    } else {
      m := MapLarge(segs, start, length, hcaMax, contiguous);
    }
  }

  /** A region of at most 480 pages: the list Pin has built from the IOVA is used as it is, if
      the client's address turns out to be congruent. */
  method MapSmall(segs: seq<Segment>, start: u64, length: u64) returns (m: Mapping)
    requires start > 0 && 0 < length <= MAX_DMA_PAGES * 4096 && start + length < U64 && Covers(segs, length)
    ensures m.Mapped? ==> segs[0].address % 4096 == start % 4096
    ensures m.Mapped? ==> MapsRegion(m, segs, start, length)
    ensures m.Mapped? ==> |m.pages| <= 0x10_0000 && CreateMkeyInputSize(|m.pages|) <= MAX_INPUT
    ensures m.Mapped? ==> CreateMkeyInputSize(|m.pages|) >= MKEY_FIXED_BYTES + 8 * |m.pages|
  {
    var iova := segs[0].address;
    var small := new u64[MAX_DMA_PAGES];
    var ok, smallCount := BuildSegmentPas(segs, iova, length, small, MAX_DMA_PAGES);
    if !ok {
      return Refused(NoSpace);
    }
    if iova % 4096 != start % 4096 {
      return Refused(BadArgument);
    }
    RepresentsMaps(small[..smallCount], segs, start, length);
    return Mapped(MIN_SHIFT, small[..smallCount]);
  }

  /** RegMR's branch for regions above 480 pages. */
  method MapLarge(segs: seq<Segment>, start: u64, length: u64, hcaMax: nat, contiguous: bool) returns (m: Mapping)
    requires length > 0 && start + length < U64 && Covers(segs, length)
    requires contiguous <==> Contiguous(segs)
    requires segs[0].address % 4096 == start % 4096
    ensures m.Mapped? ==> MapsRegion(m, segs, start, length)
    ensures m.Mapped? ==> |m.pages| <= 0x10_0000 && CreateMkeyInputSize(|m.pages|) <= MAX_INPUT
    ensures m.Mapped? ==> CreateMkeyInputSize(|m.pages|) >= MKEY_FIXED_BYTES + 8 * |m.pages|
  {
    var iova := segs[0].address;
    var shift := MIN_SHIFT;
    if contiguous {
      shift := PickShift(start, iova, if hcaMax != 0 then hcaMax else MAX_SHIFT);
    }
    var pageCount: u32 := PageCountShift(start, length, shift) % U32;
    var capacity := CreateMkeyInputSize(pageCount);
    if shift == 0 || pageCount == 0 || capacity > MAX_INPUT {
      return Refused(NoSpace);
    }
    var pages := new u64[pageCount];
    var built, produced;
    if contiguous {
      built, produced := BuildContiguousPas(iova, start, length, shift, pages, pageCount);
    } else {
      built, produced := BuildSegmentPas(segs, start, length, pages, pageCount);
      built := built && produced == pageCount;
    }
    if !built {
      return Refused(NoSpace);
    }
    if pageCount > 0x10_0000 || PageCountShift(start, length, shift) != pageCount {
      return Refused(BadArgument);
    }
    m := Mapped(shift, pages[..pageCount]);
    InputSizeHoldsPages(pageCount);
    if contiguous {
      ContiguousMaps(m, segs, start, length);
    } else {
      RepresentsMaps(m.pages, segs, start, length);
    }
  }

  lemma InputSizeHoldsPages(pageCount: u32)
    requires pageCount <= 0x10_0000
    ensures CreateMkeyInputSize(pageCount) >= MKEY_FIXED_BYTES + 8 * pageCount
  {
  }

  lemma ContiguousMaps(m: Mapping, segs: seq<Segment>, start: u64, length: u64)
    requires length > 0 && start + length < U64 && Covers(segs, length) && Contiguous(segs)
    requires m.Mapped? && 12 <= m.shift <= 63 && start % Pow2(m.shift) == segs[0].address % Pow2(m.shift)
    requires |m.pages| == PageCountShift(start, length, m.shift)
    requires forall i :: 0 <= i < |m.pages| ==> m.pages[i] == ContiguousPage(segs[0].address, m.shift, i)
    ensures MapsRegion(m, segs, start, length)
  {
    ContiguousAddresses(segs, 0);
    ContiguousIsRight(segs[0].address, start, length, m.shift, m.pages);
    forall j | 0 <= j < length
      ensures Target(m.pages, Pow2(m.shift), start % Pow2(m.shift), j) == ByteAddress(segs, j)
    {
      ContiguousAddresses(segs, j);
    }
  }

  /** The coarse list refines the 4 KiB list: whatever the page size, both send every byte
      to the same DMA address. */
  lemma CoarseRefinesFine(segs: seq<Segment>, start: u64, length: u64, coarse: Mapping, fine: seq<u64>)
    requires 0 < length <= Total(segs) && start + length < U64
    requires MapsRegion(coarse, segs, start, length)
    requires Represents(fine, segs, start % 4096, length)
    ensures forall j :: 0 <= j < length ==>
              Target(coarse.pages, Pow2(coarse.shift), start % Pow2(coarse.shift), j)
              == Target(fine, 4096, start % 4096, j)
  {
    RepresentsMaps(fine, segs, start, length);
    Pow2Values();
  }
}
