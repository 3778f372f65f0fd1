/** MlxCmd.cpp: mailbox chains. A slot keeps its chains between commands, so every command is
    written over the bytes of the one before. */
module Mailbox {
  import opened Words

  type byte = bv8

  const BLOCK: nat := 512
  const MAX_BLOCKS: nat := 1024
  const CACHE_MAX: nat := 64

  // ---------------------------------------------------------------- checksums

  /** Exclusive or of all bytes. */
  function Xor(s: seq<byte>): byte
  {
    if s == [] then 0 else Xor(s[..|s| - 1]) ^ s[|s| - 1]
  }

  lemma XorSnoc(s: seq<byte>, b: byte)
    ensures Xor(s + [b]) == Xor(s) ^ b
  {
    assert (s + [b])[..|s|] == s;
  }

  lemma ComplementCloses(x: byte)
    ensures x ^ !x == 0xff
  {
  }

  /** xor8: the accumulating loop over `len` bytes from `off`. */
  method Xor8(p: seq<byte>, off: nat, len: nat) returns (acc: byte)
    requires off + len <= |p|
    ensures acc == Xor(p[off..off + len])
  {
    acc := 0;
    for i := 0 to len
      invariant acc == Xor(p[off..off + i])
    {
      assert p[off..off + i + 1] == p[off..off + i] + [p[off + i]];
      XorSnoc(p[off..off + i], p[off + i]);
      acc := acc ^ p[off + i];
    }
  }

  // ---------------------------------------------------------------- layouts

  function Be(x: u64, bytes: nat): (s: seq<byte>)
    ensures |s| == bytes
  {
    if bytes == 0 then [] else Be(x / 256, bytes - 1) + [(x % 256) as byte]
  }

  /** mlx5_cmd_prot_block, 576 bytes. */
  datatype Block = Block(data: seq<byte>, rsvd0: seq<byte>, next: u64, blockNum: u32,
                         rsvd1: byte, token: byte, ctrlSig: byte, sig: byte)

  predicate Shaped(b: Block) { |b.data| == BLOCK && |b.rsvd0| == 48 }

  /** Everything before the two checksum bytes. */
  function Body(b: Block): seq<byte>
  {
    b.data + Control(b)
  }

  function Control(b: Block): seq<byte>
  {
    b.rsvd0 + Be(b.next, 8) + Be(b.blockNum, 4) + [b.rsvd1, b.token]
  }

  /** The block in memory. */
  function Image(b: Block): seq<byte>
  {
    Body(b) + [b.ctrlSig] + [b.sig]
  }

  /** Control part and whole block both XOR to 0xff. */
  ghost predicate Signed(b: Block)
  {
    Shaped(b) && Xor(Image(b)[BLOCK..575]) == 0xff && Xor(Image(b)) == 0xff
  }

  /** SetMailboxSignature: 62 control bytes from `rsvd0`, then the first 575 bytes. */
  method SetMailboxSignature(b: Block) returns (r: Block)
    requires Shaped(b)
    ensures Signed(r) && r == b.(ctrlSig := r.ctrlSig, sig := r.sig)
  {
    assert |Control(b)| == 62;
    var ctrl := Xor8(Image(b), BLOCK, 62);
    r := b.(ctrlSig := !ctrl);
    var all := Xor8(Image(r), 0, 575);
    r := r.(sig := !all);
    assert Image(b)[BLOCK..BLOCK + 62] == Control(b);
    assert Image(r)[BLOCK..575] == Control(b) + [!ctrl];
    XorSnoc(Control(b), !ctrl);
    ComplementCloses(ctrl);
    assert Image(b.(ctrlSig := !ctrl))[0..575] == Body(b) + [!ctrl];
    assert Image(r) == (Body(b) + [!ctrl]) + [!all];
    XorSnoc(Body(b) + [!ctrl], !all);
    ComplementCloses(all);
  }

  /** mlx5_cmd_layout, 64 bytes. */
  datatype Layout = Layout(kind: byte, inlen: u32, inPtr: u64, header: seq<byte>, reply: seq<byte>,
                           outPtr: u64, outlen: u32, token: byte, sig: byte, statusOwn: byte)

  function LayoutFront(l: Layout): seq<byte>
  {
    [l.kind] + [0, 0, 0] + Be(l.inlen, 4) + Be(l.inPtr, 8) + l.header + l.reply + Be(l.outPtr, 8) + Be(l.outlen, 4)
  }

  function LayoutImage(l: Layout): seq<byte>
  {
    LayoutFront(l) + [l.token, l.sig, 0, l.statusOwn]
  }

  lemma {:induction false} XorConcat(a: seq<byte>, b: seq<byte>)
    ensures Xor(a + b) == Xor(a) ^ Xor(b)
  {
    if b == [] {
      assert a + b == a;
    } else {
      var n := |b| - 1;
      assert a + b == (a + b[..n]) + [b[n]];
      assert b == b[..n] + [b[n]];
      XorSnoc(a + b[..n], b[n]);
      XorConcat(a, b[..n]);
    }
  }

  /** The signature is taken with its own byte zero; writing it closes the sum. */
  lemma SplitImage(l: Layout)
    ensures LayoutImage(l) == LayoutFront(l) + [l.token, l.sig, 0, l.statusOwn]
  {
  }

  lemma SignatureCloses(l: Layout, sum: byte)
    requires l.sig == 0 && sum == Xor(LayoutImage(l))
    ensures Xor(LayoutImage(l.(sig := !sum))) == 0xff
  {
    var front, closed := LayoutFront(l), l.(sig := !sum);
    assert LayoutFront(closed) == front;
    SplitImage(l);
    SplitImage(closed);
    TailCloses(front, l.token, l.statusOwn, sum);
  }

  function Header(command: seq<byte>): seq<byte>
  {
    Pad(if |command| < 16 then command else command[..16], 16)
  }

  /** The descriptor: cleared, filled in, handed to firmware, signed. */
  method FillLayout(command: seq<byte>, outSize: u32, inPtr: u64, outPtr: u64, token: byte) returns (r: Layout)
    requires |command| < U32
    ensures r.header == Header(command) && r.inlen == |command| && r.outlen == outSize
    ensures r.inPtr == inPtr && r.outPtr == outPtr && r.token == token && r.statusOwn == 1
    ensures Xor(LayoutImage(r)) == 0xff
  {
    var cleared := Zeros(16);
    var header := if |command| < 16 then command + cleared[|command|..] else command[..16];
    assert header == Header(command);
    r := SignLayout(Layout(7, |command|, inPtr, header, cleared, outPtr, outSize, token, 0, 1));
  }

  /** The descriptor's signature, over all 64 bytes. */
  method SignLayout(l: Layout) returns (r: Layout)
    requires l.sig == 0
    ensures r == l.(sig := r.sig) && Xor(LayoutImage(r)) == 0xff
  {
    var sum := Xor8(LayoutImage(l), 0, |LayoutImage(l)|);
    assert LayoutImage(l)[0..|LayoutImage(l)|] == LayoutImage(l);
    SignatureCloses(l, sum);
    r := l.(sig := !sum);
  }

  lemma TailCloses(front: seq<byte>, t: byte, o: byte, sum: byte)
    requires sum == Xor(front + [t, 0, 0, o])
    ensures Xor(front + [t, !sum, 0, o]) == 0xff
  {
    XorConcat(front, [t, 0, 0, o]);
    XorConcat(front, [t, !sum, 0, o]);
    XorOfFour(t, 0, o);
    XorOfFour(t, !sum, o);
    FlipClosing(Xor(front), t, o, sum);
  }

  lemma XorOfFour(a: byte, b: byte, d: byte)
    ensures Xor([a, b, 0, d]) == a ^ b ^ d
  {
    XorSnoc([], a);
    assert [] + [a] == [a];
    XorSnoc([a], b);
    assert [a] + [b] == [a, b];
    XorSnoc([a, b], 0);
    assert [a, b] + [0] == [a, b, 0];
    XorSnoc([a, b, 0], d);
    assert [a, b, 0] + [d] == [a, b, 0, d];
    FourBytes(a, b, d);
  }

  lemma FourBytes(a: byte, b: byte, d: byte)
    ensures 0 ^ a ^ b ^ 0 ^ d == a ^ b ^ d
  {
  }

  lemma FlipClosing(f: byte, t: byte, o: byte, sum: byte)
    requires sum == f ^ (t ^ 0 ^ o)
    ensures f ^ (t ^ !sum ^ o) == 0xff
  {
  }

  // ---------------------------------------------------------------- splitting a command

  function Zeros(n: nat): (s: seq<byte>)
    ensures |s| == n
  {
    seq(n, _ => 0)
  }

  function Pad(s: seq<byte>, n: nat): (r: seq<byte>)
    requires |s| <= n
    ensures |r| == n
  {
    s + Zeros(n - |s|)
  }

  function BlocksFor(size: nat): nat
  {
    if size > 16 then (size - 16 + BLOCK - 1) / BLOCK else 0
  }

  /** Bytes of block `i` of a command: its 512 bytes of input, zero beyond the end. */
  function Chunk(input: seq<byte>, i: nat): seq<byte>
    requires 16 + i * BLOCK < |input|
  {
    var end := if |input| < 16 + (i + 1) * BLOCK then |input| else 16 + (i + 1) * BLOCK;
    Pad(input[16 + i * BLOCK..end], BLOCK)
  }

  function Gather(boxes: seq<Block>): seq<byte>
  {
    if boxes == [] then [] else Gather(boxes[..|boxes| - 1]) + boxes[|boxes| - 1].data
  }

  /** The first `n` bytes after the header, zero beyond the end of the command. */
  function Carried(input: seq<byte>, n: nat): (r: seq<byte>)
    ensures |r| == n
  {
    if |input| <= 16 then Zeros(n)
    else if n + 16 <= |input| then input[16..16 + n]
    else Pad(input[16..], n)
  }

  /** Blocks that carry the chunks in order carry the input, followed only by zeros. */
  lemma {:induction false} GatherIsInput(boxes: seq<Block>, input: seq<byte>)
    requires |boxes| <= BlocksFor(|input|)
    requires forall j :: 0 <= j < |boxes| ==> boxes[j].data == Chunk(input, j)
    ensures Gather(boxes) == Carried(input, |boxes| * BLOCK)
  {
    if boxes != [] {
      var n := |boxes| - 1;
      GatherIsInput(boxes[..n], input);
      assert boxes[n].data == Chunk(input, n);
      NextChunk(input, n);
    }
  }

  lemma NextChunk(input: seq<byte>, n: nat)
    requires 16 + n * BLOCK < |input|
    ensures Carried(input, (n + 1) * BLOCK) == Carried(input, n * BLOCK) + Chunk(input, n)
  {
    var from, to := 16 + n * BLOCK, 16 + (n + 1) * BLOCK;
    assert to == from + 512;
    SliceSplits(input, 16, from, if to <= |input| then to else |input|);
    if to > |input| {
      assert input[16..] == input[16..|input|];
    }
  }

  lemma SliceSplits(s: seq<byte>, a: nat, b: nat, c: nat)
    requires a <= b <= c <= |s|
    ensures s[a..c] == s[a..b] + s[b..c]
  {
  }

  // ---------------------------------------------------------------- chains

  predicate MappedAt(iova: seq<u64>, boxes: seq<Block>, k: nat, at: u64)
  {
    k < |iova| && k < |boxes| && iova[k] == at
  }

  /** What the device does with a mailbox pointer: fetch the block mapped there, go on with
      its `next`, stop at 0. `fuel` bounds the number of blocks. */
  ghost function Walk(iova: seq<u64>, boxes: seq<Block>, at: u64, fuel: nat): seq<Block>
    decreases fuel
  {
    if fuel == 0 || at == 0 || !exists k: nat :: MappedAt(iova, boxes, k, at) then []
    else
      var k: nat :| MappedAt(iova, boxes, k, at);
      [boxes[k]] + Walk(iova, boxes, boxes[k].next, fuel - 1)
  }

  /** Addresses of simultaneously mapped blocks are distinct and not zero. */
  predicate GoodAddresses(iova: seq<u64>)
  {
    && (forall k :: 0 <= k < |iova| ==> iova[k] != 0)
    && (forall j, k :: 0 <= j < k < |iova| ==> iova[j] != iova[k])
  }

  ghost predicate Linked(iova: seq<u64>, boxes: seq<Block>, blocks: nat)
  {
    && blocks <= |iova| == |boxes|
    && forall i :: 0 <= i < blocks ==> boxes[i].next == Link(iova, blocks, i)
  }

  lemma {:induction false} WalkVisitsInOrder(iova: seq<u64>, boxes: seq<Block>, blocks: nat, i: nat, fuel: nat)
    requires GoodAddresses(iova) && Linked(iova, boxes, blocks) && i < blocks && fuel >= blocks - i
    ensures Walk(iova, boxes, iova[i], fuel) == boxes[i..blocks]
    decreases blocks - i
  {
    assert MappedAt(iova, boxes, i, iova[i]);
    if i + 1 < blocks {
      WalkVisitsInOrder(iova, boxes, blocks, i + 1, fuel - 1);
      assert boxes[i..blocks] == [boxes[i]] + boxes[i + 1..blocks];
    } else {
      assert boxes[i..blocks] == [boxes[i]];
      assert Walk(iova, boxes, 0, fuel - 1) == [];
    }
  }

  /** A device that follows the pointer reads exactly the blocks of the command, in order. */
  ghost predicate LeadsTo(iova: seq<u64>, boxes: seq<Block>, at: u64, blocks: seq<Block>)
  {
    forall fuel: nat :: fuel >= |blocks| ==> Walk(iova, boxes, at, fuel) == blocks
  }

  lemma ChainLeads(iova: seq<u64>, boxes: seq<Block>, blocks: nat)
    requires GoodAddresses(iova) && Linked(iova, boxes, blocks)
    ensures LeadsTo(iova, boxes, if blocks > 0 then iova[0] else 0, boxes[..blocks])
  {
    var at := if blocks > 0 then iova[0] else 0;
    forall fuel: nat | fuel >= blocks ensures Walk(iova, boxes, at, fuel) == boxes[..blocks] {
      if blocks > 0 {
        WalkVisitsInOrder(iova, boxes, blocks, 0, fuel);
      }
    }
  }

  /** The pointer block `i` must carry. */
  function Link(iova: seq<u64>, blocks: nat, i: nat): u64
    requires i < blocks <= |iova|
  {
    if i + 1 < blocks then iova[i + 1] else 0
  }

  /** A block of a chain as the command needs it. */
  ghost predicate Ready(b: Block, i: nat, next: u64, token: byte, data: seq<byte>)
  {
    Signed(b) && b.token == token && b.data == data && b.blockNum == i && b.next == next
  }

  class Chain {
    var boxes: seq<Block>
    var iova: seq<u64>
    var blocks: nat
    var single: bool

    predicate Valid()
      reads this
    {
      && |boxes| == |iova| <= MAX_BLOCKS && blocks <= |boxes|
      && GoodAddresses(iova)
      && forall k :: 0 <= k < |boxes| ==> Shaped(boxes[k])
    }

    constructor ()
      ensures Valid() && boxes == [] && blocks == 0
    {
      boxes, iova, blocks, single := [], [], 0, false;
    }

    method ReleaseChain()
      modifies this
      ensures Valid() && boxes == [] && blocks == 0
    {
      boxes, iova, blocks, single := [], [], 0, false;
    }

    /** AllocMailbox: reuse the cached blocks when they suffice (an oversized cache is given
        back first), otherwise map new ones. Reused blocks keep their old bytes. */
    method AllocMailbox(size: nat) returns (ok: bool)
      requires Valid()
      modifies this
      ensures Valid()
      ensures ok ==> blocks == BlocksFor(size) <= MAX_BLOCKS
      ensures BlocksFor(size) > MAX_BLOCKS ==> !ok && boxes == old(boxes)
      ensures 0 < BlocksFor(size) <= |old(boxes)| && (|old(boxes)| <= CACHE_MAX || BlocksFor(size) == |old(boxes)|) ==>
                ok && boxes == old(boxes) && iova == old(iova)
    {
      var numBlocks := 0;
      if size > 16 {
        numBlocks := (size - 16 + BLOCK - 1) / BLOCK;
      }
      if numBlocks > MAX_BLOCKS {
        return false;
      }
      blocks := 0;
      if numBlocks == 0 {
        return true;
      }
      if |boxes| > CACHE_MAX && numBlocks < |boxes| {
        ReleaseChain();
      }
      if numBlocks <= |boxes| {
        blocks := numBlocks;
        return true;
      }
      ReleaseChain();
      ok := MapBlocks(numBlocks);
      if ok {
        blocks := numBlocks;
      }
    }

    /** One contiguous buffer if the IOMMU allows it, else one buffer per block; the memory is
        cleared. Addresses that break the IOMMU's contract count as a failed mapping. */
    method MapBlocks(numBlocks: nat) returns (ok: bool)
      requires 0 < numBlocks <= MAX_BLOCKS && boxes == [] && blocks == 0
      modifies `boxes, `iova, `single
      ensures ok ==> |boxes| == numBlocks
      ensures Valid()
    {
      var empty := Block(Zeros(BLOCK), Zeros(48), 0, 0, 0, 0, 0, 0);
      var contiguous: bool, base: u64 := *, *;
      if contiguous && base != 0 && base + numBlocks * 4096 <= U64 {
        single := true;
        iova := seq(numBlocks, i requires 0 <= i < numBlocks => (base + i * 4096) as u64);
        boxes := seq(numBlocks, _ => empty);
        return true;
      }
      single := false;
      var addresses: seq<u64> := *;
      if |addresses| != numBlocks || !GoodAddresses(addresses) {
        iova, boxes := [], [];
        return false;
      }
      iova := addresses;
      boxes := seq(numBlocks, _ => empty);
      return true;
    }

    /** Link, number, stamp and sign block `i`, whose data is already in place. */
    method Seal(i: nat, token: byte)
      requires Valid() && i < blocks
      modifies `boxes
      ensures Valid() && boxes == old(boxes)[i := boxes[i]] && Ready(boxes[i], i, Link(iova, blocks, i), token, old(boxes)[i].data)
    {
      var mb := boxes[i].(next := Link(iova, blocks, i), blockNum := i, token := token);
      mb := SetMailboxSignature(mb);
      boxes := boxes[i := mb];
    }

    /** Input half of ExecOnSlot. */
    method WriteInput(input: seq<byte>, token: byte)
      requires Valid() && blocks == BlocksFor(|input|)
      modifies `boxes
      ensures Valid() && Linked(iova, boxes, blocks)
      ensures InputSeen(input, token, Current())
      ensures forall j :: 0 <= j < blocks ==> Ready(boxes[j], j, Link(iova, blocks, j), token, Chunk(input, j))
    {
      for i := 0 to blocks
        invariant Valid()
        invariant forall j :: 0 <= j < i ==> Ready(boxes[j], j, Link(iova, blocks, j), token, Chunk(input, j))
      {
        CopyIn(i, input);
        Seal(i, token);
      }
      GatherIsInput(Current(), input);
    }

    /** `memcpy` of the command's bytes and `memset` of a short tail, over the old bytes. */
    method CopyIn(i: nat, input: seq<byte>)
      requires Valid() && i < blocks == BlocksFor(|input|)
      modifies `boxes
      ensures Valid() && boxes == old(boxes)[i := old(boxes)[i].(data := Chunk(input, i))]
    {
      var copied := 16 + i * BLOCK;
      var dataLen := |input| - copied;
      if dataLen > BLOCK {
        dataLen := BLOCK;
      }
      var data := input[copied..copied + dataLen] + boxes[i].data[dataLen..];
      if dataLen < BLOCK {
        data := data[..dataLen] + Zeros(BLOCK - dataLen);
      }
      assert data == Chunk(input, i);
      boxes := boxes[i := boxes[i].(data := data)];
    }

    /** Output half: linked, stamped, cleared. */
    method ClearOutput(token: byte)
      requires Valid()
      modifies `boxes
      ensures Valid() && Linked(iova, boxes, blocks)
      ensures forall i :: 0 <= i < blocks ==> Signed(boxes[i]) && boxes[i].token == token && boxes[i].data == Zeros(BLOCK)
    {
      var blank := Zeros(BLOCK);
      for i := 0 to blocks
        invariant Valid()
        invariant forall j :: 0 <= j < i ==> Ready(boxes[j], j, Link(iova, blocks, j), token, blank)
      {
        boxes := boxes[i := boxes[i].(data := blank)];
        Seal(i, token);
      }
    }

    /** The blocks of the current command. */
    ghost function Current(): seq<Block>
      reads this
      requires blocks <= |boxes|
    {
      boxes[..blocks]
    }

    function Head(): u64
      reads this
      requires Valid()
    {
      if blocks > 0 then iova[0] else 0
    }
  }

  // ---------------------------------------------------------------- commands

  class Slot {
    const input: Chain
    const output: Chain
    var token: byte

    ghost predicate Valid()
      reads this, input, output
    {
      input != output && input.Valid() && output.Valid()
    }

    constructor ()
      ensures Valid() && fresh(input) && fresh(output)
    {
      input := new Chain();
      output := new Chain();
      token := 1;
    }

    /** ExecOnSlot up to the doorbell. Whatever the slot ran before, the device that follows
        the descriptor reads this command and nothing else. */
    method Build(command: seq<byte>, outSize: nat) returns (ok: bool, lay: Layout)
      requires Valid()
      requires Sendable(command) && 8 <= outSize <= 4112
      modifies this, input, output
      ensures Valid()
      ensures ok ==> lay.header == Header(command)
      ensures ok ==> lay.inlen == |command| && lay.outlen == outSize && lay.statusOwn == 1
      ensures ok ==> Xor(LayoutImage(lay)) == 0xff
      ensures ok ==> lay.token == old(token) && token == old(token) + 1
      ensures ok ==> InputSeen(command, lay.token, input.Current()) && OutputSeen(outSize, lay.token, output.Current())
      ensures ok ==> LeadsTo(input.iova, input.boxes, lay.inPtr, input.Current())
      ensures ok ==> LeadsTo(output.iova, output.boxes, lay.outPtr, output.Current())
    {
      ok := WriteChains(command, outSize);
      lay := FillLayout(command, outSize, input.Head(), output.Head(), token);
      if ok {
        ChainLeads(input.iova, input.boxes, input.blocks);
        ChainLeads(output.iova, output.boxes, output.blocks);
        token := token + 1;
      }
    }

    /** Both mailbox chains of a command. */
    method WriteChains(command: seq<byte>, outSize: nat) returns (ok: bool)
      requires Valid()
      requires Sendable(command) && 8 <= outSize <= 4112
      modifies input, output
      ensures Valid()
      ensures ok ==> Linked(input.iova, input.boxes, input.blocks) && Linked(output.iova, output.boxes, output.blocks)
      ensures ok ==> InputSeen(command, token, input.Current()) && OutputSeen(outSize, token, output.Current())
    {
      ok := input.AllocMailbox(|command|);
      if ok {
        ok := output.AllocMailbox(outSize);
        if ok {
          input.WriteInput(command, token);
          output.ClearOutput(token);
        }
      }
    }

    /** The device answers: any bytes, in any block of the reply. */
    method DeviceReplies()
      requires Valid()
      modifies output
      ensures Valid() && output.blocks == old(output.blocks)
    {
      for i := 0 to |output.boxes|
        invariant Valid() && output.blocks == old(output.blocks) && |output.boxes| == old(|output.boxes|)
      {
        var b: Block := *;
        if Shaped(b) {
          output.boxes := output.boxes[i := b];
        }
      }
    }

    /** After any sequence of commands, with any replies in between, the device still reads
        exactly the next one. */
    method AfterHistory(history: seq<seq<byte>>, command: seq<byte>, outSize: nat) returns (ok: bool, lay: Layout)
      requires Valid() && 8 <= outSize <= 4112 && Sendable(command)
      requires forall n :: 0 <= n < |history| ==> Sendable(history[n])
      modifies this, input, output
      ensures Valid()
      ensures ok ==> lay.header == Header(command)
      ensures ok ==> InputSeen(command, lay.token, input.Current()) && OutputSeen(outSize, lay.token, output.Current())
      ensures ok ==> LeadsTo(input.iova, input.boxes, lay.inPtr, input.Current())
      ensures ok ==> LeadsTo(output.iova, output.boxes, lay.outPtr, output.Current())
    {
      for n := 0 to |history|
        invariant Valid()
      {
        var size: nat := *;
        if 8 <= size <= 4112 {
          var _, _ := Build(history[n], size);
        }
        DeviceReplies();
      }
      ok, lay := Build(command, outSize);
    }
  }

  predicate Sendable(command: seq<byte>)
  {
    0 < |command| <= 16 + MAX_BLOCKS * BLOCK
  }

  /** The input chain as the device reads it: the command after its 16 header bytes, then
      zeros; every block stamped with the descriptor's token and signed. */
  ghost predicate InputSeen(command: seq<byte>, token: byte, boxes: seq<Block>)
  {
    && |boxes| == BlocksFor(|command|)
    && (forall i :: 0 <= i < |boxes| ==> Signed(boxes[i]) && boxes[i].token == token)
    && |command| <= 16 + |boxes| * BLOCK
    && Gather(boxes) == Carried(command, |boxes| * BLOCK)
  }

  /** The output chain before the reply: room for it, all zero. */
  ghost predicate OutputSeen(outSize: nat, token: byte, boxes: seq<Block>)
  {
    && |boxes| == BlocksFor(outSize)
    && (forall i :: 0 <= i < |boxes| ==> Signed(boxes[i]) && boxes[i].token == token && boxes[i].data == Zeros(BLOCK))
  }

  // ---------------------------------------------------------------- replies

  /** The copy-out loop at the end of ExecOnSlot. */
  method CopyReply(reply: seq<byte>, boxes: seq<Block>, outSize: nat) returns (out: seq<byte>)
    requires |reply| == 16 && |boxes| == BlocksFor(outSize) && forall i :: 0 <= i < |boxes| ==> Shaped(boxes[i])
    ensures |Gather(boxes)| == |boxes| * BLOCK
    ensures out == (reply + Gather(boxes))[..outSize]
  {
    var copyLen := if outSize < 16 then outSize else 16;
    out := reply[..copyLen];
    GatherLength(boxes);
    for i := 0 to |boxes|
      invariant out == Taken(reply, boxes[..i], outSize)
    {
      var copied := 16 + i * BLOCK;
      var mbLen := outSize - copied;
      if mbLen > BLOCK {
        mbLen := BLOCK;
      }
      TakeOne(reply, boxes[..i], boxes[i], outSize);
      assert boxes[..i + 1] == boxes[..i] + [boxes[i]];
      out := out + boxes[i].data[..mbLen];
    }
    assert boxes[..|boxes|] == boxes;
  }

  /** What has been copied after the given blocks. */
  function Taken(reply: seq<byte>, boxes: seq<Block>, outSize: nat): seq<byte>
  {
    var all := reply + Gather(boxes);
    if |all| <= outSize then all else all[..outSize]
  }

  lemma TakeOne(reply: seq<byte>, boxes: seq<Block>, b: Block, outSize: nat)
    requires |reply| == 16 && Shaped(b) && forall i :: 0 <= i < |boxes| ==> Shaped(boxes[i])
    requires 16 + |boxes| * BLOCK < outSize
    ensures var n := outSize - 16 - |boxes| * BLOCK;
            Taken(reply, boxes + [b], outSize) == Taken(reply, boxes, outSize) + b.data[..if n > BLOCK then BLOCK else n]
  {
    GatherLength(boxes);
    assert (boxes + [b])[..|boxes|] == boxes;
    assert reply + Gather(boxes + [b]) == reply + Gather(boxes) + b.data;
  }

  lemma {:induction false} GatherLength(boxes: seq<Block>)
    requires forall i :: 0 <= i < |boxes| ==> Shaped(boxes[i])
    ensures |Gather(boxes)| == |boxes| * BLOCK
  {
    if boxes != [] {
      GatherLength(boxes[..|boxes| - 1]);
    }
  }

  /** Copying out inverts the split: if the device put the reply's first 16 bytes in the
      descriptor and the rest in the blocks, in order, the caller gets the reply. */
  lemma CopyInvertsSplit(message: seq<byte>, reply: seq<byte>, boxes: seq<Block>)
    requires |boxes| == BlocksFor(|message|) && forall i :: 0 <= i < |boxes| ==> Shaped(boxes[i])
    requires reply == Pad(if |message| < 16 then message else message[..16], 16)
    requires forall i :: 0 <= i < |boxes| ==> boxes[i].data == Chunk(message, i)
    ensures |Gather(boxes)| == |boxes| * BLOCK && |message| <= 16 + |boxes| * BLOCK
    ensures (reply + Gather(boxes))[..|message|] == message
  {
    GatherLength(boxes);
    GatherIsInput(boxes, message);
  }
}
