/** mlxAppendMttPages and the loops of MlxEQ::Init and MlxCQ::CreateCQ around it: the page list of
    a driver-owned ring. Unlike mlxBuildSegmentPas they test neither the alignment of a segment
    nor that the last segment was reached, so the lists they accept are not always right. */
module RingPages {
  import opened Words
  import opened DmaSegments

  /** Page `m` of those that `length` bytes from `address` touch. */
  function PageAt(address: u64, length: nat, m: nat): u64
    requires address + length < U64 && m < PagesTouched(address % 4096, length)
  {
    assert 4096 * m <= address % 4096 + length - 1;
    address - address % 4096 + 4096 * m
  }

  function PagesOf(address: u64, length: nat): (pages: seq<u64>)
    requires address + length < U64
    ensures |pages| == PagesTouched(address % 4096, length)
  {
    seq(PagesTouched(address % 4096, length), m requires 0 <= m < PagesTouched(address % 4096, length) => PageAt(address, length, m))
  }

  lemma PagesAre(address: u64, length: nat)
    requires address + length < U64
    ensures forall m :: 0 <= m < |PagesOf(address, length)| ==> PagesOf(address, length)[m] == address - address % 4096 + 4096 * m
  {
  }

  /** Two lists one after the other; a page that ends one and starts the other is named once. */
  function Merge(list: seq<u64>, pages: seq<u64>): (all: seq<u64>)
    ensures list <= all
  {
    if list != [] && pages != [] && list[|list| - 1] == pages[0] then list + pages[1..] else list + pages
  }

  lemma MergeSnoc(list: seq<u64>, pages: seq<u64>, x: u64)
    requires pages != []
    ensures Merge(list, pages + [x]) == Merge(list, pages) + [x]
    ensures Merge(list, pages) != [] && Merge(list, pages)[|Merge(list, pages)| - 1] == pages[|pages| - 1]
  {
    assert (pages + [x])[1..] == pages[1..] + [x];
  }

  /** A list with the pages of one more segment. */
  function Joined(list: seq<u64>, address: u64, length: nat): (all: seq<u64>)
    requires address + length < U64
    ensures list <= all
  {
    Merge(list, PagesOf(address, length))
  }

  predicate Ordinary(segs: seq<Segment>)
  {
    forall i :: 0 <= i < |segs| ==> segs[i].length > 0 && segs[i].address + segs[i].length < U64
  }

  /** The list of all segments. */
  function JoinAll(segs: seq<Segment>): seq<u64>
    requires Ordinary(segs)
  {
    if segs == [] then [] else Joined(JoinAll(segs[..|segs| - 1]), segs[|segs| - 1].address, segs[|segs| - 1].length)
  }

  // ---------------------------------------------------------------- the code

  /** mlxAppendMttPages. */
  method AppendMttPages(address: u64, length: u64, pages: array<u64>, capacity: nat, count: nat) returns (ok: bool, n: nat)
    requires count <= capacity <= pages.Length
    modifies pages
    ensures ok <==> length > 0 && address + length < U64 && |Joined(old(pages[..count]), address, length)| <= capacity
    ensures ok ==> n <= capacity && pages[..n] == Joined(old(pages[..count]), address, length)
  {
    n := count;
    if length == 0 || length > U64 - 1 - address {
      return false, n;
    }
    ghost var all := PagesOf(address, length);
    PagesChange(address, length);
    ListsExtend(pages[..count], all);
    ok, n := AppendWalk(address, length, pages, capacity, count, all, Lists(pages[..count], all));
  }

  /** Where the loop is: `left` bytes from `dma`, about to look at page `i` of `total`; `base` is
      the first page. */
  ghost predicate LookingAt(address: u64, length: nat, base: int, total: nat, i: nat, dma: int, left: int)
  {
    && 0 <= left <= length && dma + left == address + length && i <= total
    && (left == 0 <==> i == total)
    && (i == 0 ==> dma == address) && (0 < i < total ==> dma == base + 4096 * i)
  }

  lemma PageIsNext(address: u64, length: nat, i: nat, dma: u64, left: nat, all: seq<u64>, base: u64)
    requires LookingAt(address, length, base, |all|, i, dma, left) && left > 0 && address + length < U64
    requires all == PagesOf(address, length) && base == address - address % 4096
    ensures LookingAt(address, length, base, |all|, i + 1, dma + StepAt(dma, left), left - StepAt(dma, left))
    ensures i < |all| && all[i] == dma - dma % 4096
  {
    var a := address % 4096;
    PagesAre(address, length);
    var end := a + length - 1;
    assert end == |all| * 4096 - 4096 + end % 4096;
    assert base % 4096 == 0 && dma - dma % 4096 == base + 4096 * i;
  }

  lemma PagesChange(address: u64, length: nat)
    requires address + length < U64
    ensures Changing(PagesOf(address, length))
  {
    PagesAre(address, length);
  }

  /** No page is followed by itself. */
  predicate Changing(list: seq<u64>)
  {
    forall k :: 0 < k < |list| ==> list[k - 1] != list[k]
  }

  /** The loop of mlxAppendMttPages; `lists[i]` is the list after `i` pages. */
  method AppendWalk(address: u64, length: nat, pages: array<u64>, capacity: nat, count: nat,
                    ghost all: seq<u64>, ghost lists: seq<seq<u64>>)
    returns (ok: bool, n: nat)
    requires count <= capacity <= pages.Length && length > 0 && address + length < U64 && all == PagesOf(address, length)
    requires |lists| == |all| + 1 && lists[0] == pages[..count] && forall i :: 0 <= i < |all| ==> lists[i + 1] == Extended(lists[i], all[i])
    requires forall i :: 0 <= i < |lists| ==> |lists[i]| <= |lists[|all|]|
    modifies pages
    ensures count <= n <= capacity
    ensures if ok then pages[..n] == lists[|all|] else |lists[|all|]| > capacity
  {
    n := count;
    var dma: int, left: int := address, length;
    ghost var i, base := 0, address - address % 4096;
    while left > 0
      invariant LookingAt(address, length, base, |all|, i, dma, left) && count <= n <= capacity
      invariant pages[..n] == lists[i]
    {
      var step, page := StepAt(dma, left), dma - dma % 4096;
      PageIsNext(address, length, i, dma, left, all, base);
      assert |lists[i + 1]| <= |lists[|all|]|;
      ok, n := PushPage(pages, capacity, n, page);
      if !ok {
        return;
      }
      dma, left, i := dma + step, left - step, i + 1;
    }
    return true, n;
  }

  /** The list after each page of a segment. */
  ghost function Lists(list: seq<u64>, all: seq<u64>): seq<seq<u64>>
  {
    seq(|all| + 1, i requires 0 <= i <= |all| => Merge(list, all[..i]))
  }

  lemma ListsExtend(list: seq<u64>, all: seq<u64>)
    requires Changing(all)
    ensures |Lists(list, all)| == |all| + 1 && Lists(list, all)[0] == list && Lists(list, all)[|all|] == Merge(list, all)
    ensures forall i :: 0 <= i < |all| ==> Lists(list, all)[i + 1] == Extended(Lists(list, all)[i], all[i])
    ensures forall i :: 0 <= i <= |all| ==> |Lists(list, all)[i]| <= |Merge(list, all)|
  {
    assert all[..0] == [] && all[..|all|] == all;
    forall i | 0 <= i < |all| ensures Lists(list, all)[i + 1] == Extended(Lists(list, all)[i], all[i]) {
      MergeNext(list, all, i);
    }
    forall i | 0 <= i <= |all| ensures |Lists(list, all)[i]| <= |Merge(list, all)| {
      if i > 0 {
        MergeGrows(list, all, i);
      }
    }
  }

  lemma MergeNext(list: seq<u64>, all: seq<u64>, i: nat)
    requires i < |all| && Changing(all)
    ensures Merge(list, all[..i + 1]) == Extended(Merge(list, all[..i]), all[i])
  {
    assert all[..i + 1] == all[..i] + [all[i]];
    if i > 0 {
      MergeSnoc(list, all[..i], all[i]);
    }
  }

  lemma MergeGrows(list: seq<u64>, all: seq<u64>, i: nat)
    requires 0 < i <= |all|
    ensures |Merge(list, all[..i])| <= |Merge(list, all)|
  {
    assert all[..i][0] == all[0];
  }

  /** Bytes up to the end of the page or of the segment. */
  function StepAt(dma: u64, left: nat): (step: nat)
    requires left > 0
    ensures 0 < step <= left && step <= 4096 - dma % 4096 && (step < left ==> (dma + step) % 4096 == 0)
  {
    var step := 4096 - dma % 4096;
    StepEnds(dma, step);
    if step > left then left else step
  }

  /** A list with one more page, unless that is its last already. */
  function Extended(list: seq<u64>, page: u64): seq<u64>
  {
    if list != [] && list[|list| - 1] == page then list else list + [page]
  }

  /** `if (!*pageCount || pages[*pageCount - 1] != page)`, and the entry if there is room. */
  method PushPage(pages: array<u64>, capacity: nat, count: nat, page: u64) returns (room: bool, n: nat)
    requires count <= capacity <= pages.Length
    modifies pages
    ensures count <= n <= capacity
    ensures if room then pages[..n] == Extended(old(pages[..count]), page) else |Extended(old(pages[..count]), page)| > capacity
  {
    n := count;
    if n == 0 || pages[n - 1] != page {
      if n >= capacity {
        return false, n;
      }
      ghost var list := pages[..n];
      pages[n] := page;
      n := n + 1;
      assert pages[..n] == list + [page];
    }
    return true, n;
  }

  lemma StepEnds(dma: int, step: int)
    ensures step == 4096 - dma % 4096 ==> (dma + step) % 4096 == 0
  {
  }

  lemma OnePage(address: u64, step: nat)
    requires address + step < U64 && 0 < step <= 4096 - address % 4096
    ensures PagesOf(address, step) == [address - address % 4096]
  {
    DivModUnique(address % 4096 + step - 1, 4096, 0, address % 4096 + step - 1);
  }

  /** The loop of MlxEQ::Init and MlxCQ::CreateCQ: it also ends, successfully, when the list is
      full. So it accepts a ring that fits the list, and one of which some segments fill it; the
      list is that of the whole ring only in the first case. */
  method RingPagesOf(segs: seq<Segment>, pages: array<u64>, capacity: nat) returns (ok: bool, count: nat, used: nat)
    requires capacity <= pages.Length
    modifies pages
    ensures ok ==> count <= capacity && used <= |segs| && Ordinary(segs[..used]) && pages[..count] == JoinAll(segs[..used])
    ensures ok ==> used == |segs| || count == capacity
    ensures Ordinary(segs) ==> (ok <==> |JoinAll(segs)| <= capacity || Fills(segs, capacity))
    ensures Ordinary(segs) && ok ==> (pages[..count] == JoinAll(segs) <==> |JoinAll(segs)| <= capacity)
  {
    count, used := 0, 0;
    while used < |segs| && count < capacity
      invariant used <= |segs| && count <= capacity && Ordinary(segs[..used]) && pages[..count] == JoinAll(segs[..used])
    {
      assert segs[..used + 1][..used] == segs[..used];
      ghost var list := pages[..count];
      var more;
      more, count := AppendMttPages(segs[used].address, segs[used].length, pages, capacity, count);
      if !more {
        if Ordinary(segs) {
          NothingFits(segs, capacity, used);
        }
        return false, count, used;
      }
      used := used + 1;
    }
    if Ordinary(segs) {
      WholeIfItFits(segs, used, capacity);
      assert used < |segs| ==> Fills(segs, capacity);
      assert used == |segs| ==> segs[..used] == segs;
    }
    return true, count, used;
  }

  /** Some of the segments, from the first on, have exactly as many pages as the list has room. */
  predicate Fills(segs: seq<Segment>, capacity: nat)
    requires Ordinary(segs)
  {
    exists i :: 0 <= i <= |segs| && |JoinAll(segs[..i])| == capacity
  }

  /** The list passes from below the capacity to above it with one segment. */
  lemma NothingFits(segs: seq<Segment>, capacity: nat, used: nat)
    requires Ordinary(segs) && used < |segs|
    requires |JoinAll(segs[..used])| < capacity < |JoinAll(segs[..used + 1])|
    ensures |JoinAll(segs)| > capacity && !Fills(segs, capacity)
  {
    PrefixIsShorter(segs, used + 1);
    forall i | 0 <= i <= |segs| ensures |JoinAll(segs[..i])| != capacity {
      if i <= used {
        assert segs[..used][..i] == segs[..i];
        PrefixIsShorter(segs[..used], i);
      } else {
        assert segs[..i][..used + 1] == segs[..used + 1];
        PrefixIsShorter(segs[..i], used + 1);
      }
    }
  }

  lemma {:induction false} PrefixIsShorter(segs: seq<Segment>, i: nat)
    requires Ordinary(segs) && i <= |segs|
    ensures |JoinAll(segs[..i])| <= |JoinAll(segs)|
    decreases |segs| - i
  {
    if i < |segs| {
      PrefixIsShorter(segs, i + 1);
      assert segs[..i + 1][..i] == segs[..i];
    } else {
      assert segs[..i] == segs;
    }
  }

  // ---------------------------------------------------------------- when the list is right

  /** How segment `next` must continue `prev`: where `prev` ends within a page, at the very next
      address; where it ends a page, on a page boundary other than the page just finished. */
  predicate Follows(prev: Segment, next: Segment)
  {
    var end := prev.address + prev.length;
    if end % 4096 != 0 then next.address == end else next.address % 4096 == 0 && next.address != end - 4096
  }

  predicate AllFollow(segs: seq<Segment>)
  {
    forall i :: 0 < i < |segs| ==> Follows(segs[i - 1], segs[i])
  }

  /** The list of a ring sends every byte where the segments have it exactly when each segment
      follows the one before. The test is on the segments, which the driver has before it calls. */
  lemma JoinAllIsRight(segs: seq<Segment>)
    requires Ordinary(segs) && segs != []
    ensures Represents(JoinAll(segs), segs, segs[0].address % 4096, Total(segs)) <==> AllFollow(segs)
  {
    var off := segs[0].address % 4096;
    if AllFollow(segs) {
      JoinAllRepresents(segs, |segs|);
      assert segs[..|segs|] == segs;
    }
    if Represents(JoinAll(segs), segs, off, Total(segs)) {
      JoinAllNeverRepeats(segs);
      forall i | 0 < i < |segs| ensures Follows(segs[i - 1], segs[i]) {
        FollowsNecessarily(segs, off, JoinAll(segs), i);
      }
    }
  }

  lemma {:induction false} JoinAllNeverRepeats(segs: seq<Segment>)
    requires Ordinary(segs)
    ensures Changing(JoinAll(segs))
  {
    if segs != [] {
      JoinAllNeverRepeats(segs[..|segs| - 1]);
    }
  }

  /** The last byte of segment `i - 1` and the first of segment `i` under a list that is right for
      the first of them. */
  lemma LastByte(segs: seq<Segment>, off: nat, p: seq<u64>, i: nat, done: nat)
    requires 0 < i <= |segs| && segs[i - 1].length > 0 && done == Total(segs[..i])
    requires done <= Total(segs) && Represents(p, segs, off, done)
    ensures done > 0 && Entry(off, done - 1) < |p|
    ensures p[Entry(off, done - 1)] + Within(off, done - 1) == segs[i - 1].address + segs[i - 1].length - 1
  {
    var k := segs[i - 1].length - 1;
    TotalPrefix(segs, i - 1);
    ByteInSegment(segs, i - 1, k);
    assert done - 1 == Total(segs[..i - 1]) + k;
    assert ByteIsRight(p, segs, off, done - 1);
  }

  /** Any right list that never repeats a page forces a segment to follow the one before. */
  lemma FollowsNecessarily(segs: seq<Segment>, off: nat, p: seq<u64>, i: nat)
    requires Ordinary(segs) && 0 < i < |segs| && off < 4096
    requires Represents(p, segs, off, Total(segs)) && Changing(p)
    ensures Follows(segs[i - 1], segs[i])
  {
    var done := Total(segs[..i]);
    TotalPrefix(segs, i);
    TotalPrefix(segs, i - 1);
    assert segs[..i][..i - 1] == segs[..i - 1];
    ByteInSegment(segs, i - 1, segs[i - 1].length - 1);
    ByteInSegment(segs, i, 0);
    assert ByteIsRight(p, segs, off, done - 1) && ByteIsRight(p, segs, off, done);
    Neighbours(off, done);
    var e := Entry(off, done);
    assert p[e] % 4096 == 0 && p[Entry(off, done - 1)] % 4096 == 0;
    PagePlus(p[Entry(off, done - 1)], Within(off, done - 1));
  }

  /** Two bytes in a row are in one page, or the second starts the next. */
  lemma Neighbours(off: nat, done: nat)
    requires done > 0
    ensures if Within(off, done) != 0
            then Entry(off, done - 1) == Entry(off, done) && Within(off, done - 1) == Within(off, done) - 1
            else Entry(off, done - 1) == Entry(off, done) - 1 && Within(off, done - 1) == 4095
  {
  }

  lemma PagePlus(page: int, w: nat)
    requires page % 4096 == 0 && w < 4096
    ensures (page + w) - (page + w) % 4096 == page && (page + w) % 4096 == w
    ensures (page + w + 1) % 4096 == if w == 4095 then 0 else w + 1
  {
  }

  /** Segment by segment. */
  lemma {:induction false} JoinAllRepresents(segs: seq<Segment>, i: nat)
    requires Ordinary(segs) && segs != [] && i <= |segs| && AllFollow(segs)
    ensures Total(segs[..i]) <= Total(segs)
    ensures Represents(JoinAll(segs[..i]), segs, segs[0].address % 4096, Total(segs[..i]))
  {
    TotalPrefix(segs, i);
    if i > 0 {
      JoinAllRepresents(segs, i - 1);
      TotalPrefix(segs, i - 1);
      assert segs[..i][..i - 1] == segs[..i - 1];
      JoinAtPlace(segs, segs[0].address % 4096, i - 1, JoinAll(segs[..i - 1]));
      JoinExtends(segs, segs[0].address % 4096, i - 1, JoinAll(segs[..i - 1]));
    }
  }

  /** Where the pages of segment `i` go: on top of the last entry if the segment starts within a
      page, after it otherwise. */
  lemma JoinAtPlace(segs: seq<Segment>, off: nat, i: nat, list: seq<u64>)
    requires Ordinary(segs) && i < |segs| && off == segs[0].address % 4096 && Total(segs[..i]) <= Total(segs)
    requires AllFollow(segs) && Represents(list, segs, off, Total(segs[..i]))
    ensures segs[i].address % 4096 == Within(off, Total(segs[..i])) && AtPlace(list, segs[i], off, Total(segs[..i]))
  {
    if i > 0 {
      var done := Total(segs[..i]);
      LastByte(segs, off, list, i, done);
      Neighbours(off, done);
      var last := Entry(off, done - 1);
      assert list[last] % 4096 == 0 && |list| == last + 1;
      PagePlus(list[last], Within(off, done - 1));
      assert Follows(segs[i - 1], segs[i]);
    }
  }

  predicate AtPlace(list: seq<u64>, seg: Segment, off: nat, done: nat)
  {
    var base := seg.address - seg.address % 4096;
    if done == 0 then list == [] && off == seg.address % 4096
    else if Within(off, done) != 0 then |list| == Entry(off, done) + 1 && list[|list| - 1] == base
    else |list| == Entry(off, done) > 0 && list[|list| - 1] != base
  }

  lemma JoinExtends(segs: seq<Segment>, off: nat, i: nat, list: seq<u64>)
    requires i < |segs| && segs[i].length > 0 && segs[i].address + segs[i].length < U64 && off < 4096 && Total(segs[..i]) + segs[i].length <= Total(segs)
    requires segs[i].address % 4096 == Within(off, Total(segs[..i]))
    requires Represents(list, segs, off, Total(segs[..i])) && AtPlace(list, segs[i], off, Total(segs[..i]))
    ensures Represents(Joined(list, segs[i].address, segs[i].length), segs, off, Total(segs[..i]) + segs[i].length)
  {
    var done, len := Total(segs[..i]), segs[i].length;
    var all := Joined(list, segs[i].address, len);
    JoinedShape(list, segs[i], off, done);
    AllBytes(all, segs, off, i, list);
  }

  lemma AllBytes(all: seq<u64>, segs: seq<Segment>, off: nat, i: nat, list: seq<u64>)
    requires i < |segs| && segs[i].address + segs[i].length < U64 && off < 4096 && Total(segs[..i]) + segs[i].length <= Total(segs)
    requires AtPlace(list, segs[i], off, Total(segs[..i])) && segs[i].address % 4096 == Within(off, Total(segs[..i]))
    requires all == Joined(list, segs[i].address, segs[i].length)
    requires forall j :: 0 <= j < Total(segs[..i]) ==> ByteIsRight(list, segs, off, j)
    ensures forall j :: 0 <= j < Total(segs[..i]) + segs[i].length ==> ByteIsRight(all, segs, off, j)
  {
    var done := Total(segs[..i]);
    forall j: nat | j < done + segs[i].length ensures ByteIsRight(all, segs, off, j) {
      if j < done {
        OldByte(list, all, segs, off, j);
      } else {
        NewByte(all, segs, off, i, list, j - done);
      }
    }
  }

  lemma OldByte(list: seq<u64>, all: seq<u64>, segs: seq<Segment>, off: nat, j: nat)
    requires list <= all && j < Total(segs) && ByteIsRight(list, segs, off, j)
    ensures ByteIsRight(all, segs, off, j)
  {
  }

  lemma JoinedShape(list: seq<u64>, seg: Segment, off: nat, done: nat)
    requires seg.length > 0 && seg.address + seg.length < U64 && AtPlace(list, seg, off, done) && off < 4096
    requires seg.address % 4096 == Within(off, done) && forall k :: 0 <= k < |list| ==> list[k] % 4096 == 0
    ensures var all := Joined(list, seg.address, seg.length);
            |all| == PagesTouched(off, done + seg.length) && forall k :: 0 <= k < |all| ==> all[k] % 4096 == 0
  {
    JoinedAt(list, seg, off, done);
    Shifted(off, done, seg.length - 1, seg.address % 4096);
    var all, pages, e := Joined(list, seg.address, seg.length), PagesOf(seg.address, seg.length), Entry(off, done);
    forall k | 0 <= k < |all| ensures all[k] % 4096 == 0 {
      if k >= |list| {
        assert all[e + (k - e)] == pages[k - e];
        PageAligned(seg.address, k - e);
      }
    }
  }

  lemma PageAligned(address: nat, m: nat)
    ensures (address - address % 4096 + 4096 * m) % 4096 == 0
  {
  }

  /** The pages of the segment follow entry `Entry(off, done)`. */
  lemma JoinedAt(list: seq<u64>, seg: Segment, off: nat, done: nat)
    requires seg.length > 0 && seg.address + seg.length < U64 && AtPlace(list, seg, off, done) && off < 4096
    ensures var all, pages, e := Joined(list, seg.address, seg.length), PagesOf(seg.address, seg.length), Entry(off, done);
            |all| == e + |pages| && |pages| > 0 && forall m :: 0 <= m < |pages| ==> all[e + m] == pages[m]
  {
    if done == 0 {
      DivModUnique(off, 4096, 0, off);
    }
  }

  lemma NewByte(all: seq<u64>, segs: seq<Segment>, off: nat, i: nat, list: seq<u64>, k: nat)
    requires i < |segs| && k < segs[i].length && segs[i].address + segs[i].length < U64 && off < 4096
    requires AtPlace(list, segs[i], off, Total(segs[..i])) && segs[i].address % 4096 == Within(off, Total(segs[..i]))
    requires all == Joined(list, segs[i].address, segs[i].length)
    ensures Total(segs[..i]) + k < Total(segs) && ByteIsRight(all, segs, off, Total(segs[..i]) + k)
  {
    var done := Total(segs[..i]);
    ByteInSegment(segs, i, k);
    ByteOfJoined(all, list, segs[i], off, done, k);
    RightByte(all, segs, off, done + k, segs[i].address + k);
  }

  lemma RightByte(pas: seq<u64>, segs: seq<Segment>, off: nat, j: nat, x: int)
    requires j < Total(segs) && ByteAddress(segs, j) == x
    requires Entry(off, j) < |pas| && pas[Entry(off, j)] + Within(off, j) == x
    ensures ByteIsRight(pas, segs, off, j)
  {
  }

  lemma ByteOfJoined(all: seq<u64>, list: seq<u64>, seg: Segment, off: nat, done: nat, k: nat)
    requires k < seg.length && seg.address + seg.length < U64 && AtPlace(list, seg, off, done) && off < 4096
    requires seg.address % 4096 == Within(off, done) && all == Joined(list, seg.address, seg.length)
    ensures Entry(off, done + k) < |all| && all[Entry(off, done + k)] + Within(off, done + k) == seg.address + k
  {
    var m := (seg.address % 4096 + k) / 4096;
    JoinedAt(list, seg, off, done);
    Shifted(off, done, k, seg.address % 4096);
    ByteOfPage(seg.address, seg.length, k);
    assert all[Entry(off, done) + m] == PagesOf(seg.address, seg.length)[m];
  }

  lemma ByteOfPage(address: u64, length: nat, k: nat)
    requires address + length < U64 && k < length
    ensures (address % 4096 + k) / 4096 < |PagesOf(address, length)|
    ensures PagesOf(address, length)[(address % 4096 + k) / 4096] + (address % 4096 + k) % 4096 == address + k
  {
    var a := address % 4096;
    DivMonotone(a + k, a + length - 1, 4096);
    PagesAre(address, length);
    assert 4096 * ((a + k) / 4096) + (a + k) % 4096 == a + k;
  }

  /** Entry and offset of a byte, counted from the start of its segment. */
  lemma Shifted(off: nat, done: nat, k: nat, a: nat)
    requires a == Within(off, done)
    ensures Entry(off, done + k) == Entry(off, done) + (a + k) / 4096 && Within(off, done + k) == (a + k) % 4096
  {
    assert off + done == Entry(off, done) * 4096 + a;
    DivModShift(a + k, Entry(off, done), 4096);
  }

  /** The loop accepts a list that is not right: a completion queue of 64 entries, 4096 bytes, in
      two halves of a page. The list has two pages where the adapter looks for one, and entry 32,
      at 0x9000, is looked for at 0x1800. */
  method AcceptsAWrongList() returns (ok: bool, list: seq<u64>)
    ensures var segs := [Segment(0x1000, 2048), Segment(0x9000, 2048)];
            && Ordinary(segs) && Total(segs) == 64 * 64 && !AllFollow(segs)
            && ok && list == JoinAll(segs) == [0x1000, 0x9000]
            && !ByteIsRight(list, segs, 0, 32 * 64) && !Represents(list, segs, 0, 4096)
  {
    var a, b := Segment(0x1000, 2048), Segment(0x9000, 2048);
    TwoHalfPages(a, b);
    var pages := new u64[32];
    var count, used;
    ok, count, used := RingPagesOf([a, b], pages, 32);
    list := pages[..count];
  }

  lemma TwoHalfPages(a: Segment, b: Segment)
    requires a == Segment(0x1000, 2048) && b == Segment(0x9000, 2048)
    ensures Ordinary([a, b]) && Total([a, b]) == 4096 && JoinAll([a, b]) == [0x1000, 0x9000]
    ensures !AllFollow([a, b]) && !ByteIsRight([0x1000, 0x9000], [a, b], 0, 2048)
  {
    assert [a, b][..1] == [a] && [a][..0] == [];
    assert Total([a]) == 2048;
    OnePage(0x1000, 2048);
    OnePage(0x9000, 2048);
    assert JoinAll([a]) == [0x1000];
    assert JoinAll([a, b]) == Merge([0x1000], [0x9000]);
    assert !Follows([a, b][0], [a, b][1]);
    assert ByteAddress([a, b], 2048) == 0x9000;
  }

  /** And a list that is not whole: the loop also ends, successfully, when the list is full. What
      it then hands to the adapter is the whole ring if and only if the ring fits the list. */
  lemma WholeIfItFits(segs: seq<Segment>, used: nat, capacity: nat)
    requires Ordinary(segs) && used <= |segs| && |JoinAll(segs[..used])| <= capacity
    requires used == |segs| || |JoinAll(segs[..used])| == capacity
    ensures JoinAll(segs[..used]) == JoinAll(segs) <==> |JoinAll(segs)| <= capacity
  {
    JoinAllPrefix(segs, used);
    if used == |segs| {
      assert segs[..used] == segs;
    }
  }

  /** An event queue of 1024 entries, 64 KiB, in two mappings of 8 pages each: with the 8-page list
      of MlxEQ the loop succeeds and the second half of the ring is left out. */
  method HalfARingIsAccepted() returns (ok: bool, count: nat)
    ensures var segs := [Segment(0, 0x8000), Segment(0x10000, 0x8000)];
            && Ordinary(segs) && Total(segs) == 1024 * 64 && AllFollow(segs)
            && ok && count == 8 && |JoinAll(segs)| == 16
  {
    var a, b := Segment(0, 0x8000), Segment(0x10000, 0x8000);
    var pages := new u64[8];
    TwoHalves(a, b);
    var used;
    ok, count, used := RingPagesOf([a, b], pages, 8);
    if used == 2 {
      assert [a, b][..2] == [a, b];
    }
  }

  lemma TwoHalves(a: Segment, b: Segment)
    requires a == Segment(0, 0x8000) && b == Segment(0x10000, 0x8000)
    ensures Total([a, b]) == 0x10000 && |JoinAll([a, b][..1])| == 8 && |JoinAll([a, b])| == 16
  {
    assert [a, b][..1] == [a] && [a][..0] == [];
    assert Total([a]) == 0x8000;
    PagesAre(0, 0x8000);
    PagesAre(0x10000, 0x8000);
    assert PagesTouched(0, 0x8000) == 8;
    assert JoinAll([a]) == Merge([], PagesOf(0, 0x8000));
  }

  lemma {:induction false} JoinAllPrefix(segs: seq<Segment>, i: nat)
    requires Ordinary(segs) && i <= |segs|
    ensures JoinAll(segs[..i]) <= JoinAll(segs)
    decreases |segs| - i
  {
    if i < |segs| {
      JoinAllPrefix(segs, i + 1);
      assert segs[..i + 1][..i] == segs[..i];
    } else {
      assert segs[..i] == segs;
    }
  }
}
