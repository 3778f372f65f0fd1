/** MlxSafety.hpp: byte quotas, the page footprint of a pinned range, and the conversion of
    a fragmented list of DMA segments into the page list (PAS) that CREATE_MKEY takes.
    `x & 4095` is written `x % 4096` and `x & ~4095` is written `x - x % 4096`. */
module DmaSegments {
  import opened Words

  datatype Segment = Segment(address: u64, length: u64)


  // ---------------------------------------------------------------- quotas

  /** mlxBytesCanReserve: the subtraction `limit - used` is only reached when it cannot wrap. */
  predicate BytesCanReserve(used: u64, bytes: u64, limit: u64)
    ensures BytesCanReserve(used, bytes, limit) <==> bytes > 0 && used + bytes <= limit
  {
    bytes != 0 && used <= limit && bytes <= limit - used
  }

  /** Bytes of whole pages touched by `bytes` bytes that start `offset` bytes into a page. */
  function Footprint(offset: nat, bytes: nat, page: nat): nat
    requires page > 0
  {
    (offset + bytes + page - 1) / page * page
  }

  /** mlxPinnedCharge: 0 when the arguments are unusable or the bound would overflow. */
  function PinnedCharge(bytes: u64, page: u64): (charge: u64)
  {
    if bytes == 0 || page == 0 || !IsPow2(page) || page > (U64 - 1) / 2 ||
       bytes > U64 - 1 - 2 * (page - 1) then 0
    else
      var sum := bytes + 2 * (page - 1);
      assert 0 <= sum % page <= sum by { RemainderBound(sum, page); }
      sum - sum % page
  }

  /** The charge is the worst case over every alignment: no start offset pins more, and the
      last byte of a page pins exactly that much. */
  lemma PinnedChargeIsWorstCase(bytes: u64, page: u64)
    requires bytes > 0 && IsPow2(page) && 2 * page < U64 && bytes + 2 * (page - 1) < U64
    ensures PinnedCharge(bytes, page) >= bytes
    ensures forall offset :: 0 <= offset < page ==> Footprint(offset, bytes, page) <= PinnedCharge(bytes, page)
    ensures Footprint(page - 1, bytes, page) == PinnedCharge(bytes, page)
  {
    var worst := bytes + 2 * (page - 1);
    RemainderBound(worst, page);
    assert page - 1 + bytes + page - 1 == worst;
    forall offset | 0 <= offset < page
      ensures Footprint(offset, bytes, page) <= PinnedCharge(bytes, page)
    {
      DivMonotone(offset + bytes + page - 1, worst, page);
    }
  }

  // ---------------------------------------------------------------- what a segment list means

  ghost function Total(segs: seq<Segment>): nat
  {
    if segs == [] then 0 else Total(segs[..|segs| - 1]) + segs[|segs| - 1].length
  }

  /** DMA address of byte `j` of the buffer the segments describe, in order. */
  ghost function ByteAddress(segs: seq<Segment>, j: nat): int
    requires j < Total(segs)
  {
    var init, last := segs[..|segs| - 1], segs[|segs| - 1];
    if j < Total(init) then ByteAddress(init, j) else last.address + (j - Total(init))
  }

  /** What mlxDmaSegmentsCover decides. */
  ghost predicate Covers(segs: seq<Segment>, length: nat)
  {
    && 0 < |segs| <= 32
    && length > 0
    && (forall i :: 0 <= i < |segs| ==> 0 < segs[i].length && segs[i].address + segs[i].length < U64)
    && Total(segs) == length
  }

  lemma {:induction false} TotalPrefix(segs: seq<Segment>, i: nat)
    requires i <= |segs|
    ensures Total(segs[..i]) <= Total(segs)
    ensures i < |segs| ==> Total(segs[..i + 1]) == Total(segs[..i]) + segs[i].length
    decreases |segs|
  {
    if i < |segs| {
      assert segs[..i + 1][..i] == segs[..i];
      var init := segs[..|segs| - 1];
      TotalPrefix(init, i);
      assert init[..i] == segs[..i];
    } else {
      assert segs[..i] == segs;
    }
  }

  /** Byte `k` of segment `i` lives at that segment's address plus `k`. */
  lemma {:induction false} ByteInSegment(segs: seq<Segment>, i: nat, k: nat)
    requires i < |segs| && k < segs[i].length
    ensures Total(segs[..i]) + k < Total(segs)
    ensures ByteAddress(segs, Total(segs[..i]) + k) == segs[i].address + k
    decreases |segs|
  {
    var init := segs[..|segs| - 1];
    TotalPrefix(segs, i + 1);
    TotalPrefix(segs, i);
    if i < |segs| - 1 {
      ByteInSegment(init, i, k);
      assert init[..i] == segs[..i];
    }
  }

  method SegmentsCover(segs: seq<Segment>, length: u64) returns (ok: bool)
    ensures ok <==> Covers(segs, length)
  {
    if |segs| == 0 || |segs| > 32 || length == 0 {
      return false;
    }
    var total: u64 := 0;
    for i := 0 to |segs|
      invariant total == Total(segs[..i]) <= length
      invariant forall n :: 0 <= n < i ==> 0 < segs[n].length && segs[n].address + segs[n].length < U64
    {
      TotalPrefix(segs, i);
      TotalPrefix(segs, i + 1);
      if segs[i].length == 0 || segs[i].address > U64 - 1 - segs[i].length ||
         total > length || segs[i].length > length - total {
        return false;
      }
      total := total + segs[i].length;
    }
    assert segs[..|segs|] == segs;
    return total == length;
  }

  // ---------------------------------------------------------------- page lists

  /** List entry that translates byte `j` of a region starting `off` bytes into a page. */
  function Entry(off: nat, j: nat): nat { (off + j) / 4096 }

  /** Its address within the page. */
  function Within(off: nat, j: nat): nat { (off + j) % 4096 }

  /** Number of 4 KiB pages that `length` bytes starting `off` bytes into a page touch. */
  function PagesTouched(off: nat, length: nat): nat
  {
    if length == 0 then 0 else Entry(off, length - 1) + 1
  }

  /** Byte `j` goes through the right list entry to the DMA address the segments give it. */
  ghost predicate ByteIsRight(pas: seq<u64>, segs: seq<Segment>, off: nat, j: nat)
    requires j < Total(segs)
  {
    Entry(off, j) < |pas| && pas[Entry(off, j)] + Within(off, j) == ByteAddress(segs, j)
  }

  /** The list is page aligned, exactly as long as the region needs, and right for every byte. */
  ghost predicate Represents(pas: seq<u64>, segs: seq<Segment>, off: nat, length: nat)
    requires length <= Total(segs)
  {
    && |pas| == PagesTouched(off, length)
    && (forall k :: 0 <= k < |pas| ==> pas[k] % 4096 == 0)
    && (forall j :: 0 <= j < length ==> ByteIsRight(pas, segs, off, j))
  }

  /** The adapter's view: page number of `va + j` relative to the first page, page offset of
      `va + j`. It depends on `va` only through `va % 4096`, which is why the list Pin builds
      for the first IOVA serves the client's congruent start address. */
  lemma TranslationIsModular(va: nat, j: nat)
    ensures (va + j) / 4096 - va / 4096 == Entry(va % 4096, j)
    ensures (va + j) % 4096 == Within(va % 4096, j)
  {
  }

  /** One turn of the inner loop: `step` bytes that stay inside one page of both sides. */
  lemma ExtendByStep(pas: seq<u64>, grown: seq<u64>, segs: seq<Segment>, off: nat, done: nat,
                     i: nat, k: nat, step: nat, base: u64)
    requires off < 4096 && step > 0 && done + step <= Total(segs)
    requires Represents(pas, segs, off, done)
    requires i < |segs| && done == Total(segs[..i]) + k && k + step <= segs[i].length
    requires base + Within(off, done) == segs[i].address + k && base % 4096 == 0
    requires Within(off, done) + step <= 4096
    requires if done == 0 || Within(off, done) == 0 then grown == pas + [base]
             else grown == pas && pas[|pas| - 1] == base
    ensures Represents(grown, segs, off, done + step)
  {
    assert Entry(off, done + step - 1) == Entry(off, done);
    assert |grown| == Entry(off, done) + 1;
    forall j | 0 <= j < done + step ensures ByteIsRight(grown, segs, off, j) {
      if j < done {
        assert ByteIsRight(pas, segs, off, j);
      } else {
        StepByte(off, done, j, step);
        ByteInSegment(segs, i, k + (j - done));
      }
    }
  }

  lemma StepByte(off: nat, done: nat, j: nat, step: nat)
    requires Within(off, done) + step <= 4096 && done <= j < done + step
    ensures Entry(off, j) == Entry(off, done) && Within(off, j) == Within(off, done) + (j - done)
  {
  }

  /** If any page list describes the region, every segment starts congruent to its place. */
  lemma CongruenceIsNecessary(segs: seq<Segment>, off: nat, length: nat, i: nat, done: nat, p: seq<u64>)
    requires length == Total(segs) && i < |segs| && segs[i].length > 0 && done == Total(segs[..i])
    requires Represents(p, segs, off, length)
    ensures segs[i].address % 4096 == Within(off, done)
  {
    ByteInSegment(segs, i, 0);
    assert ByteIsRight(p, segs, off, done);
    assert p[Entry(off, done)] % 4096 == 0;
  }

  /** And a segment that starts inside a page continues the physical page before it. */
  lemma ContinuationIsNecessary(segs: seq<Segment>, off: nat, length: nat, i: nat, done: nat, pas: seq<u64>, p: seq<u64>)
    requires length == Total(segs) && i < |segs| && segs[i].length > 0
    requires 0 < done == Total(segs[..i]) <= length && Within(off, done) != 0 && Represents(pas, segs, off, done)
    requires Represents(p, segs, off, length)
    ensures pas[|pas| - 1] == segs[i].address - segs[i].address % 4096
  {
    ByteInSegment(segs, i, 0);
    CongruenceIsNecessary(segs, off, length, i, done, p);
    assert Entry(off, done - 1) == Entry(off, done);
    assert ByteIsRight(p, segs, off, done - 1);
    assert ByteIsRight(pas, segs, off, done - 1);
    assert ByteIsRight(p, segs, off, done);
  }

  /** A new entry at a page boundary, the same entry within a page. */
  method PlacePage(ghost segs: seq<Segment>, ghost off: nat, ghost length: nat, ghost i: nat, pas: array<u64>,
                   capacity: nat, start: nat, boundary: bool, base: u64, ghost done: nat)
    returns (ok: bool, n: nat)
    requires start <= capacity <= pas.Length && i < |segs| && off < 4096 && done < length == Total(segs)
    requires Represents(pas[..start], segs, off, done) && (boundary <==> Within(off, done) == 0)
    requires done > 0 && !boundary ==>
               done == Total(segs[..i]) && segs[i].length > 0 && base == segs[i].address - segs[i].address % 4096
    modifies pas
    ensures ok ==> n <= capacity
    ensures ok && (done == 0 || Within(off, done) == 0) ==> pas[..n] == old(pas[..start]) + [base]
    ensures ok && done > 0 && Within(off, done) != 0 ==> pas[..n] == old(pas[..start]) && 0 < n && pas[n - 1] == base
    ensures !ok ==> PagesTouched(off, length) > capacity || forall p: seq<u64> :: !Represents(p, segs, off, length)
  {
    n := start;
    ghost var sofar := pas[..n];
    if n == 0 || boundary {
      if n == capacity {
        NextPageIsNeeded(off, done, length);
        return false, 0;
      }
      pas[n] := base;
      n := n + 1;
      assert pas[..n] == sofar + [base];
    } else {
      forall p: seq<u64> | Represents(p, segs, off, length) ensures sofar[n - 1] == base {
        ContinuationIsNecessary(segs, off, length, i, done, sofar, p);
      }
      if pas[n - 1] != base {
        return false, 0;
      }
    }
    return true, n;
  }

  /** One turn of the inner loop, with `left` bytes of segment `i` to go. */
  method AppendStep(ghost segs: seq<Segment>, ghost va: nat, ghost length: nat, ghost i: nat, pas: array<u64>, capacity: nat,
                    start: nat, dma: u64, logical: int, left: nat)
    returns (ok: bool, n: nat, step: nat)
    requires start <= capacity <= pas.Length && i < |segs| && length == Total(segs) && 0 < left <= segs[i].length
    requires dma + left == segs[i].address + segs[i].length && logical == va + Total(segs[..i]) + (segs[i].length - left)
    requires Total(segs[..i]) + segs[i].length <= length && dma % 4096 == logical % 4096
    requires left < segs[i].length ==> logical % 4096 == 0
    requires Represents(pas[..start], segs, va % 4096, Total(segs[..i]) + (segs[i].length - left))
    modifies pas
    ensures ok ==> n <= capacity && 0 < step <= left && Total(segs[..i]) + (segs[i].length - left) + step <= length
    ensures ok ==> Represents(pas[..n], segs, va % 4096, Total(segs[..i]) + (segs[i].length - left) + step)
    ensures ok ==> (dma + step) % 4096 == (logical + step) % 4096 && (step < left ==> (logical + step) % 4096 == 0)
    ensures !ok ==> PagesTouched(va % 4096, length) > capacity || forall p: seq<u64> :: !Represents(p, segs, va % 4096, length)
  {
    ghost var off, done := va % 4096, Total(segs[..i]) + (segs[i].length - left);
    var base := dma - dma % 4096;
    ghost var sofar := pas[..start];
    step := 4096 - logical % 4096;
    if step > left {
      step := left;
    }
    StepFits(dma, va, done, step, left);
    ok, n := PlacePage(segs, off, length, i, pas, capacity, start, logical % 4096 == 0, base, done);
    if ok {
      ExtendByStep(sofar, pas[..n], segs, off, done, i, segs[i].length - left, step, base);
    }
  }

  /** A step stays inside one page of both sides, and a full step ends on a page boundary. */
  lemma StepFits(dma: int, va: nat, done: nat, step: int, left: nat)
    requires dma % 4096 == (va + done) % 4096 && left > 0
    requires step == if 4096 - (va + done) % 4096 > left then left else 4096 - (va + done) % 4096
    ensures 0 < step <= left && (dma - dma % 4096) % 4096 == 0
    ensures dma - dma % 4096 + Within(va % 4096, done) == dma && Within(va % 4096, done) + step <= 4096
    ensures Within(va % 4096, done) == (va + done) % 4096
    ensures (dma + step) % 4096 == (va + done + step) % 4096 && (step < left ==> (va + done + step) % 4096 == 0)
  {
    TranslationIsModular(va, done);
    BothAdvance(dma, va, done, step);
  }

  /** The inner loop of mlxBuildSegmentPas: segment `i`, whose start is congruent. */
  method AppendSegment(segs: seq<Segment>, va: u64, length: u64, i: nat, pas: array<u64>, capacity: nat,
                       start: nat, from: int, ghost before: nat)
    returns (ok: bool, n: nat)
    requires capacity <= pas.Length && start <= capacity
    requires i < |segs| && Covers(segs, length) && before == Total(segs[..i]) && from == va + before
    requires before + segs[i].length <= length && segs[i].address % 4096 == (va + before) % 4096
    requires Represents(pas[..start], segs, va % 4096, before)
    modifies pas
    ensures ok ==> n <= capacity && Represents(pas[..n], segs, va % 4096, before + segs[i].length)
    ensures !ok ==> PagesTouched(va % 4096, length) > capacity ||
                    forall p: seq<u64> :: !Represents(p, segs, va % 4096, length)
  {
    n := start;
    var dma: int, left: int, logical := segs[i].address, segs[i].length, from;
    while left > 0
      invariant 0 <= left <= segs[i].length && n <= capacity
      invariant dma + left == segs[i].address + segs[i].length && logical == va + Total(segs[..i]) + (segs[i].length - left)
      invariant dma % 4096 == logical % 4096 && (0 < left < segs[i].length ==> logical % 4096 == 0)
      invariant Represents(pas[..n], segs, va % 4096, Total(segs[..i]) + (segs[i].length - left))
    {
      var step;
      ok, n, step := AppendStep(segs, va, length, i, pas, capacity, n, dma, logical, left);
      if !ok {
        return false, 0;
      }
      logical, dma, left := logical + step, dma + step, left - step;
    }
    return true, n;
  }

  /** Both sides move on together, and a full step ends on a page boundary. */
  lemma BothAdvance(dma: int, va: nat, done: nat, step: nat)
    requires dma % 4096 == (va + done) % 4096
    ensures (dma + step) % 4096 == (va + done + step) % 4096 == Within(va % 4096, done + step)
    ensures step == 4096 - (va + done) % 4096 ==> (va + done + step) % 4096 == 0
  {
    TranslationIsModular(va, done + step);
    assert va + (done + step) == va + done + step;
  }

  lemma NextPageIsNeeded(off: nat, done: nat, length: nat)
    requires done < length && (done == 0 || Within(off, done) == 0)
    ensures PagesTouched(off, done) < PagesTouched(off, length)
  {
  }

  /** mlxBuildSegmentPas. It succeeds exactly when some page list of at most `capacity`
      entries describes the region, and then it produces that list. */
  method BuildSegmentPas(segs: seq<Segment>, va: u64, length: u64, pas: array<u64>, capacity: nat)
    returns (ok: bool, produced: nat)
    requires capacity <= pas.Length
    modifies pas
    ensures ok <==> va + length < U64 && Covers(segs, length) && PagesTouched(va % 4096, length) <= capacity &&
                    exists p: seq<u64> :: Represents(p, segs, va % 4096, length)
    ensures ok ==> produced <= capacity && Represents(pas[..produced], segs, va % 4096, length)
  {
    var covers := SegmentsCover(segs, length);
    if va > U64 - 1 - length || !covers {
      return false, 0;
    }
    var n: nat := 0;
    var logical: int := va;
    for i := 0 to |segs|
      invariant Total(segs[..i]) <= length && logical == va + Total(segs[..i])
      invariant n <= capacity && Represents(pas[..n], segs, va % 4096, Total(segs[..i]))
    {
      TotalPrefix(segs, i + 1);
      TotalPrefix(segs, i);
      ghost var done := Total(segs[..i]);
      TranslationIsModular(va, done);
      forall p: seq<u64> | Represents(p, segs, va % 4096, length)
        ensures segs[i].address % 4096 == Within(va % 4096, done)
      {
        CongruenceIsNecessary(segs, va % 4096, length, i, done, p);
      }
      if segs[i].address % 4096 != logical % 4096 {
        return false, 0;
      }
      var more;
      more, n := AppendSegment(segs, va, length, i, pas, capacity, n, logical, done);
      if !more {
        return false, 0;
      }
      logical := logical + segs[i].length;
    }
    assert segs[..|segs|] == segs;
    return true, n;
  }

  /** The page list of a region is unique, so "the" list of a region is well defined. */
  lemma RepresentsIsUnique(p: seq<u64>, q: seq<u64>, segs: seq<Segment>, off: nat, length: nat)
    requires off < 4096 && length <= Total(segs)
    requires Represents(p, segs, off, length) && Represents(q, segs, off, length)
    ensures p == q
  {
    forall k | 0 <= k < |p| ensures p[k] == q[k] {
      var j := if k == 0 then 0 else k * 4096 - off;
      assert 0 <= j < length && Entry(off, j) == k;
      assert ByteIsRight(p, segs, off, j);
      assert ByteIsRight(q, segs, off, j);
    }
  }
}
