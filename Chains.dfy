/** The chain as a value: the blocks from `next` to `last` in list order.
    The operations of `ReaderWriter` that reshape the chain (`Write`, `Read`,
    `Flatten`, `AddReaders`, `ReadTypeCode`, and building a chain from slices)
    are specified here as functions of the blocks they start from, and the
    laws of the buffer are lemmas about those functions. `Dump`, `Skip`,
    `ToString`, `SetNext` and `ClearNext` have no function here. */
module Chains {
  import opened Bytes
  import opened Blocks

  /** `maxBlockSize`: the largest block size a chain accepts. */
  const MaxBlockSize: nat := 64 * 1024
  /** The block size of `NewReaderWriter()`. */
  const DefaultBlockSize: nat := 1024

  function Min(a: int, b: int): int {
    if a < b then a else b
  }

  // ---------------------------------------------------------------------------
  // The stream and its accounting

  /** The stream the chain presents: the unread bytes of its blocks, in order. */
  function Stream(bs: seq<Block>): seq<byte> {
    if bs == [] then [] else bs[0].data + Stream(bs[1..])
  }

  /** `InternalSize`: the unread bytes summed over the blocks. */
  function Size(bs: seq<Block>): nat {
    if bs == [] then 0 else |bs[0].data| + Size(bs[1..])
  }

  /** `InternalWaste`: `Cap() - Len()` summed over the blocks. */
  function Waste(bs: seq<Block>): int {
    if bs == [] then 0 else bs[0].Spare() + Waste(bs[1..])
  }

  predicate AllValid(bs: seq<Block>) {
    forall i :: 0 <= i < |bs| ==> bs[i].Valid()
  }

  /** Concatenation of byte slices, in order. */
  function Concat(ps: seq<seq<byte>>): seq<byte> {
    if ps == [] then [] else ps[0] + Concat(ps[1..])
  }

  lemma {:induction false} StreamConcat(a: seq<Block>, b: seq<Block>)
    ensures Stream(a + b) == Stream(a) + Stream(b)
  {
    if a == [] {
      assert a + b == b;
    } else {
      assert (a + b)[1..] == a[1..] + b;
      StreamConcat(a[1..], b);
    }
  }

  /** `Size` counts exactly the bytes of the stream. */
  lemma {:induction false} SizeIsLength(bs: seq<Block>)
    ensures Size(bs) == |Stream(bs)|
  {
    if bs != [] {
      SizeIsLength(bs[1..]);
    }
  }

  /** Size and waste are additive when one block list is appended to another,
      which is what a splice does. */
  lemma {:induction false} Additive(a: seq<Block>, b: seq<Block>)
    ensures Size(a + b) == Size(a) + Size(b)
    ensures Waste(a + b) == Waste(a) + Waste(b)
  {
    if a == [] {
      assert a + b == b;
    } else {
      assert (a + b)[1..] == a[1..] + b;
      Additive(a[1..], b);
    }
  }

  /** Waste is never negative while every buffer is within its capacity. */
  lemma {:induction false} WasteNonNegative(bs: seq<Block>)
    requires AllValid(bs)
    ensures Waste(bs) >= 0
  {
    if bs != [] {
      WasteNonNegative(bs[1..]);
    }
  }

  /** One more block of a walk from the head: how the accounting loops advance. */
  lemma PrefixStep(bs: seq<Block>, i: nat)
    requires i < |bs|
    ensures Stream(bs[..i + 1]) == Stream(bs[..i]) + bs[i].data
    ensures Size(bs[..i + 1]) == Size(bs[..i]) + |bs[i].data|
    ensures Waste(bs[..i + 1]) == Waste(bs[..i]) + bs[i].Spare()
  {
    assert bs[..i + 1] == bs[..i] + [bs[i]];
    StreamConcat(bs[..i], [bs[i]]);
    Additive(bs[..i], [bs[i]]);
  }

  /** One more block at the end of a slice of the chain adds its bytes. */
  lemma SliceStep(bs: seq<Block>, i: nat, k: nat)
    requires i <= k < |bs|
    ensures Stream(bs[i..k + 1]) == Stream(bs[i..k]) + bs[k].data
  {
    PrefixStep(bs[i..], k - i);
    assert bs[i..][..k - i] == bs[i..k] && bs[i..][..k - i + 1] == bs[i..k + 1];
  }

  // ---------------------------------------------------------------------------
  // Write

  /** The blocks the split loop of `Write` appends: one fresh block of
      capacity `n` per `n`-byte piece of `p`, the last piece possibly shorter. */
  function Chunked(p: seq<byte>, n: nat): seq<Block>
    requires n > 0
    decreases |p|
  {
    if p == [] then []
    else
      var e := Min(|p|, n);
      [Appended(Block(n, []), p[..e])] + Chunked(p[e..], n)
  }

  /** The first split block and the rest of the split. */
  lemma ChunkedUnfold(p: seq<byte>, n: nat)
    requires n > 0 && p != []
    ensures var e := Min(|p|, n);
      && Chunked(p, n) == [Block(n, p[..e])] + Chunked(p[e..], n)
      && p == p[..e] + p[e..]
  {
    var e := Min(|p|, n);
    assert [] + p[..e] == p[..e];
  }

  /** Concatenation is associative; stated once so that proofs about
      growing sequences need not rediscover it element by element. */
  lemma AppendAssoc<T>(a: seq<T>, b: seq<T>, c: seq<T>)
    ensures a + (b + c) == (a + b) + c
  {
  }

  /** The piece of the split that starts at offset `i`, and the rest. */
  lemma ChunkedAt(p: seq<byte>, i: nat, n: nat)
    requires n > 0 && i < |p|
    ensures var e := Min(|p|, i + n);
      Chunked(p[i..], n) == [Appended(Block(n, []), p[i..e])] + Chunked(p[e..], n)
  {
    var e := Min(|p|, i + n);
    ChunkedUnfold(p[i..], n);
    assert p[i..][..e - i] == p[i..e];
    assert p[i..][e - i..] == p[e..];
    assert [] + p[i..e] == p[i..e];
  }

  /** The split blocks hold `p` in order, have capacity `n`, are all full but
      the last one, and none is empty. */
  lemma {:induction false} ChunkedBlocks(p: seq<byte>, n: nat)
    requires n > 0
    ensures var c := Chunked(p, n);
      && Stream(c) == p
      && AllValid(c)
      && (forall i :: 0 <= i < |c| ==> c[i].cap == n && c[i].data != [])
      && (forall i :: 0 <= i < |c| - 1 ==> |c[i].data| == n)
    decreases |p|
  {
    if p != [] {
      var e := Min(|p|, n);
      ChunkedUnfold(p, n);
      ChunkedBlocks(p[e..], n);
      var c := Chunked(p, n);
      assert c[1..] == Chunked(p[e..], n);
      if |p| <= n {
        assert p[e..] == [];
      }
    }
  }

  /** There are ceil(|p| / n) split blocks, stated without division:
      `n * (count - 1) < |p| <= n * count`. */
  lemma {:induction false} ChunkedCount(p: seq<byte>, n: nat)
    requires n > 0
    ensures p == [] <==> Chunked(p, n) == []
    ensures p != [] ==> n * (|Chunked(p, n)| - 1) < |p| <= n * |Chunked(p, n)|
    decreases |p|
  {
    if p != [] {
      var e := Min(|p|, n);
      ChunkedUnfold(p, n);
      var rest := Chunked(p[e..], n);
      ChunkedCount(p[e..], n);
      var k := |rest|;
      assert |Chunked(p, n)| == k + 1;
      MulStep(n, k);
      if |p| <= n {
        assert p[e..] == [];
      }
    }
  }

  /** One more block of `n` is `n` more bytes of room. */
  lemma MulStep(n: int, k: int)
    ensures n * (k + 1) == n * k + n && n * (k - 1) == n * k - n
  {
  }

  /** Everything `ChunkedBlocks` and `ChunkedCount` state, together. */
  lemma ChunkedShape(p: seq<byte>, n: nat)
    requires n > 0
    ensures var c := Chunked(p, n);
      && Stream(c) == p
      && (p == [] <==> c == [])
      && (p != [] ==> n * (|c| - 1) < |p| <= n * |c|)
      && AllValid(c)
      && (forall i :: 0 <= i < |c| ==> c[i].cap == n && c[i].data != [])
      && (forall i :: 0 <= i < |c| - 1 ==> |c[i].data| == n)
  {
    ChunkedBlocks(p, n);
    ChunkedCount(p, n);
  }

  /** The split blocks waste what their capacities exceed `p` by. */
  lemma {:induction false} ChunkedWaste(p: seq<byte>, n: nat)
    requires n > 0
    ensures Waste(Chunked(p, n)) == n * |Chunked(p, n)| - |p|
    decreases |p|
  {
    if p != [] {
      var e := Min(|p|, n);
      var rest := Chunked(p[e..], n);
      ChunkedWaste(p[e..], n);
      assert [] + p[..e] == p[..e];
      assert Chunked(p, n) == [Block(n, p[..e])] + rest;
      assert Chunked(p, n)[1..] == rest;
      MulStep(n, |rest|);
    }
  }

  /** The blocks after `Write(p)` with block size `n`. */
  function Written(bs: seq<Block>, n: nat, p: seq<byte>): seq<Block>
    requires n > 0
  {
    if bs != [] && bs[|bs| - 1].Spare() > |p| then
      bs[..|bs| - 1] + [Appended(bs[|bs| - 1], p)]
    else if |p| <= n then
      bs + [Appended(Block(n, []), p)]
    else
      bs + Chunked(p, n)
  }

  /** Write appends exactly `p` to the stream. */
  lemma WrittenStream(bs: seq<Block>, n: nat, p: seq<byte>)
    requires n > 0
    ensures Stream(Written(bs, n, p)) == Stream(bs) + p
  {
    if bs != [] && bs[|bs| - 1].Spare() > |p| {
      Snoc(bs);
      TailStream(bs[..|bs| - 1], bs[|bs| - 1], p);
    } else if |p| <= n {
      StreamConcat(bs, [Appended(Block(n, []), p)]);
    } else {
      StreamConcat(bs, Chunked(p, n));
      ChunkedBlocks(p, n);
    }
  }

  /** Appending to the tail block appends to the stream. */
  lemma TailStream(init: seq<Block>, last: Block, p: seq<byte>)
    ensures Stream(init + [Appended(last, p)]) == Stream(init + [last]) + p
  {
    StreamSnoc(init, last);
    StreamSnoc(init, Appended(last, p));
    assert Stream(init) + (last.data + p) == Stream(init) + last.data + p;
  }

  lemma StreamSnoc(init: seq<Block>, b: Block)
    ensures Stream(init + [b]) == Stream(init) + b.data
  {
    StreamConcat(init, [b]);
    assert [b][1..] == [];
  }

  lemma Snoc<T>(s: seq<T>)
    requires s != []
    ensures s == s[..|s| - 1] + [s[|s| - 1]]
  {
  }

  /** Where `Write(p)` puts the bytes: into the tail when the tail's spare room
      is strictly larger than `p`; otherwise into one new block of capacity `n`
      when `p` fits in a block; otherwise into ceil(|p| / n) new blocks of
      capacity `n`, each full but the last, that hold `p` in order. */
  lemma WrittenPlacement(bs: seq<Block>, n: nat, p: seq<byte>)
    requires n > 0
    ensures var w := Written(bs, n, p);
      if bs != [] && bs[|bs| - 1].Spare() > |p| then
        && |w| == |bs|
        && w[..|bs| - 1] == bs[..|bs| - 1]
        && w[|bs| - 1] == Block(bs[|bs| - 1].cap, bs[|bs| - 1].data + p)
      else if |p| <= n then
        w == bs + [Block(n, p)]
      else
        && w[..|bs|] == bs
        && n * (|w| - |bs| - 1) < |p| <= n * (|w| - |bs|)
        && Stream(w[|bs|..]) == p
        && (forall i :: |bs| <= i < |w| ==> w[i].cap == n && w[i].data != [])
        && (forall i :: |bs| <= i < |w| - 1 ==> |w[i].data| == n)
  {
    var w := Written(bs, n, p);
    assert [] + p == p;
    if !(bs != [] && bs[|bs| - 1].Spare() > |p|) && |p| > n {
      ChunkedShape(p, n);
      assert w[|bs|..] == Chunked(p, n);
      forall i | |bs| <= i < |w|
        ensures w[i] == Chunked(p, n)[i - |bs|]
      {
      }
    }
  }

  /** How `Size` and `Waste` change under `Write(p)`. */
  lemma WrittenAccounting(bs: seq<Block>, n: nat, p: seq<byte>)
    requires n > 0
    ensures Size(Written(bs, n, p)) == Size(bs) + |p|
    ensures Waste(Written(bs, n, p)) ==
      if bs != [] && bs[|bs| - 1].Spare() > |p| then Waste(bs) - |p|
      else if |p| <= n then Waste(bs) + n - |p|
      else Waste(bs) + n * (|Written(bs, n, p)| - |bs|) - |p|
  {
    var w := Written(bs, n, p);
    if bs != [] && bs[|bs| - 1].Spare() > |p| {
      var last := bs[|bs| - 1];
      assert bs == bs[..|bs| - 1] + [last];
      Additive(bs[..|bs| - 1], [last]);
      Additive(bs[..|bs| - 1], [Appended(last, p)]);
    } else if |p| <= n {
      Additive(bs, [Appended(Block(n, []), p)]);
    } else {
      var c := Chunked(p, n);
      assert w == bs + c;
      Additive(bs, c);
      ChunkedShape(p, n);
      ChunkedWaste(p, n);
      SizeIsLength(c);
    }
  }

  /** Write keeps every buffer within its capacity. */
  lemma WrittenValid(bs: seq<Block>, n: nat, p: seq<byte>)
    requires n > 0 && AllValid(bs)
    ensures AllValid(Written(bs, n, p))
  {
    if !(bs != [] && bs[|bs| - 1].Spare() > |p|) && |p| > n {
      ChunkedShape(p, n);
    }
  }

  /** Writing 20 and then 2048 bytes with block size 128: the first write
      opens a block with 108 bytes to spare, the second does not fit there and
      fills sixteen new blocks exactly, so 2068 bytes are held and 108 wasted. */
  lemma WrittenWasteExample(p: seq<byte>, q: seq<byte>)
    requires |p| == 20 && |q| == 2048
    ensures var w := Written(Written([], 128, p), 128, q);
      Size(w) == 2068 && Waste(w) == 108 && |w| == 17
  {
    var bs := Written([], 128, p);
    WrittenPlacement([], 128, p);
    assert bs == [Block(128, p)];
    WrittenAccounting([], 128, p);
    WrittenAccounting(bs, 128, q);
    ChunkedCount(q, 128);
  }

  /** A sequence of writes, in order. */
  function WrittenAll(bs: seq<Block>, n: nat, ps: seq<seq<byte>>): seq<Block>
    requires n > 0
    decreases |ps|
  {
    if ps == [] then bs else WrittenAll(Written(bs, n, ps[0]), n, ps[1..])
  }

  lemma {:induction false} WrittenAllStream(bs: seq<Block>, n: nat, ps: seq<seq<byte>>)
    requires n > 0
    ensures Stream(WrittenAll(bs, n, ps)) == Stream(bs) + Concat(ps)
    decreases |ps|
  {
    if ps != [] {
      WrittenStream(bs, n, ps[0]);
      WrittenAllStream(Written(bs, n, ps[0]), n, ps[1..]);
    }
  }

  /** The blocks of `NewReaderWriterWithBlocks(data...)`: one block per slice,
      each holding exactly that slice, so the stream is the slices in order
      and nothing is wasted. */
  function BlocksOf(data: seq<seq<byte>>): (r: seq<Block>)
    ensures |r| == |data|
    ensures forall i :: 0 <= i < |data| ==> r[i] == Block(|data[i]|, data[i])
    ensures Stream(r) == Concat(data) && Waste(r) == 0
    decreases |data|
  {
    if data == [] then []
    else
      var r := [Block(|data[0]|, data[0])] + BlocksOf(data[1..]);
      assert r[1..] == BlocksOf(data[1..]);
      r
  }

  // ---------------------------------------------------------------------------
  // Read

  /** What one `InternalRead(p)` gives back: the bytes copied into `p`, the
      blocks left linked, and whether `io.EOF` was returned. */
  datatype ChainRead = ChainRead(out: seq<byte>, rest: seq<Block>, eof: bool)

  /** `InternalRead(p)` with `len(p) == k`, following its recursion: an
      exhausted head is unlinked and the read goes on; a head that cannot
      fill `p` is drained and the rest of `p` is read from what follows; a
      head that a read empties exactly is unlinked. */
  function Drained(bs: seq<Block>, k: nat): ChainRead
    decreases k, |bs|
  {
    if bs == [] then ChainRead([], [], true)
    else
      var c := Consume(bs[0], k);
      if c.eof then Drained(bs[1..], k)
      else if |c.out| < k then
        var more := Drained([c.rest] + bs[1..], k - |c.out|);
        ChainRead(c.out + more.out, more.rest,
                  more.eof && !(|more.out| == 0 && |c.out| > 0))
      else if c.rest.data == [] then ChainRead(c.out, bs[1..], false)
      else ChainRead(c.out, [c.rest] + bs[1..], false)
  }

  /** What one read of `k` bytes promises about `Drained(bs, k)`. */
  ghost predicate DrainedAsPromised(bs: seq<Block>, k: nat) {
    var r := Drained(bs, k);
    && r.out == Stream(bs)[..Min(k, |Stream(bs)|)]
    && Stream(r.rest) == Stream(bs)[|r.out|..]
    && (r.eof <==> bs == [] || (k > 0 && Stream(bs) == []))
    && (|r.out| < k ==> r.rest == [])
  }

  /** A read takes the first min(k, Size) bytes of the stream and leaves the
      rest of it; `io.EOF` is reported exactly when the chain has no block or
      a non-empty `p` found no byte; a read that could not fill `p` leaves no
      block behind. */
  lemma {:induction false} DrainedFacts(bs: seq<Block>, k: nat)
    ensures var r := Drained(bs, k);
      && r.out == Stream(bs)[..Min(k, |Stream(bs)|)]
      && Stream(r.rest) == Stream(bs)[|r.out|..]
      && (r.eof <==> bs == [] || (k > 0 && Stream(bs) == []))
      && (|r.out| < k ==> r.rest == [])
    decreases k, |bs|
  {
    if bs != [] {
      var c := Consume(bs[0], k);
      if c.eof {
        DrainedFacts(bs[1..], k);
        DrainedExhausted(bs, k);
      } else if |c.out| < k {
        DrainedFacts([c.rest] + bs[1..], k - |c.out|);
        DrainedShort(bs, k);
      } else {
        DrainedFilled(bs, k);
      }
    }
    assert DrainedAsPromised(bs, k);
  }

  /** An exhausted head is unlinked without changing what the read promises. */
  lemma DrainedExhausted(bs: seq<Block>, k: nat)
    requires bs != [] && Consume(bs[0], k).eof
    requires DrainedAsPromised(bs[1..], k)
    ensures DrainedAsPromised(bs, k)
  {
    assert Stream(bs) == bs[0].data + Stream(bs[1..]);
  }

  /** A head that cannot fill `p` gives all its bytes; the rest comes from
      what follows. */
  lemma DrainedShort(bs: seq<Block>, k: nat)
    requires bs != [] && !Consume(bs[0], k).eof && |Consume(bs[0], k).out| < k
    requires var c := Consume(bs[0], k); DrainedAsPromised([c.rest] + bs[1..], k - |c.out|)
    ensures DrainedAsPromised(bs, k)
  {
    var c := Consume(bs[0], k);
    var s := Stream(bs);
    assert s == bs[0].data + Stream(bs[1..]);
    var tail := [c.rest] + bs[1..];
    assert c.out == bs[0].data && c.rest.data == [];
    assert tail[1..] == bs[1..];
    assert Stream(tail) == Stream(bs[1..]);
    var more := Drained(tail, k - |c.out|);
    assert more.out == Stream(bs[1..])[..Min(k - |c.out|, |Stream(bs[1..])|)];
    assert c.out + more.out == s[..Min(k, |s|)];
  }

  /** A head that fills `p` is left linked unless the read empties it. */
  lemma DrainedFilled(bs: seq<Block>, k: nat)
    requires bs != [] && !Consume(bs[0], k).eof && |Consume(bs[0], k).out| >= k
    ensures DrainedAsPromised(bs, k)
  {
    var c := Consume(bs[0], k);
    assert Stream(bs) == bs[0].data + Stream(bs[1..]);
    if c.rest.data == [] {
      assert c.out == bs[0].data;
    } else {
      var tail := [c.rest] + bs[1..];
      assert tail[1..] == bs[1..];
      assert Stream(tail) == c.rest.data + Stream(bs[1..]);
      assert bs[0].data == c.out + c.rest.data;
    }
  }

  /** Reads of sizes `ks`, one after another: everything they copy, in order. */
  function ReadAll(bs: seq<Block>, ks: seq<nat>): seq<byte>
    decreases |ks|
  {
    if ks == [] then []
    else
      var r := Drained(bs, ks[0]);
      r.out + ReadAll(r.rest, ks[1..])
  }

  function Sum(ks: seq<nat>): nat {
    if ks == [] then 0 else ks[0] + Sum(ks[1..])
  }

  /** Reads in any chunk sizes return the stream from its front, in order. */
  lemma {:induction false} ReadAllPrefix(bs: seq<Block>, ks: seq<nat>)
    ensures ReadAll(bs, ks) == Stream(bs)[..Min(Sum(ks), |Stream(bs)|)]
    decreases |ks|
  {
    if ks != [] {
      var r := Drained(bs, ks[0]);
      DrainedFacts(bs, ks[0]);
      ReadAllPrefix(r.rest, ks[1..]);
    }
  }

  /** The round trip: bytes written in any pieces into an empty chain come
      back, in order, from reads in any sizes that add up to at least as much. */
  lemma RoundTrip(n: nat, ps: seq<seq<byte>>, ks: seq<nat>)
    requires n > 0
    requires Sum(ks) >= |Concat(ps)|
    ensures ReadAll(WrittenAll([], n, ps), ks) == Concat(ps)
  {
    WrittenAllStream([], n, ps);
    ReadAllPrefix(WrittenAll([], n, ps), ks);
  }

  // ---------------------------------------------------------------------------
  // Flatten

  /** What `Flatten()` returns and the blocks it leaves. */
  datatype Flat = Flat(out: seq<byte>, rest: seq<Block>)

  /** `internalFlatten`, on a chain with at least one block: when the head's
      capacity exceeds the stream, the later blocks are copied into the head;
      otherwise everything is copied into one new block of capacity
      max(Size, n). */
  function InternalFlattened(bs: seq<Block>, n: nat): (r: Flat)
    requires bs != []
    ensures r.out == Stream(bs) && Stream(r.rest) == Stream(bs)
    ensures |r.rest| == 1 && Size(r.rest) == Size(bs)
    ensures r.rest[0].cap == if bs[0].cap > Size(bs) then bs[0].cap else if Size(bs) < n then n else Size(bs)
    ensures AllValid(r.rest)
  {
    var size := Size(bs);
    SizeIsLength(bs);
    assert Stream([Block(0, Stream(bs))]) == Stream(bs);
    if bs[0].cap > size then
      Flat(Stream(bs), [Block(bs[0].cap, Stream(bs))])
    else
      Flat(Stream(bs), [Block(if size < n then n else size, Stream(bs))])
  }

  /** `Flatten()`: nothing for an empty chain, the head's bytes for a single
      block, `internalFlatten` otherwise. It returns exactly the stream,
      leaves the stream and `Size` as they were, and leaves at most one block. */
  function Flattened(bs: seq<Block>, n: nat): (r: Flat)
    ensures r.out == Stream(bs) && Stream(r.rest) == Stream(bs)
    ensures |r.rest| <= 1 && Size(r.rest) == Size(bs)
    ensures AllValid(bs) ==> AllValid(r.rest)
    ensures bs == [] ==> r.rest == []
    ensures |bs| == 1 ==> r.rest == bs
  {
    if bs == [] then Flat([], [])
    else if |bs| == 1 then
      assert Stream(bs) == bs[0].data;
      Flat(bs[0].data, bs)
    else InternalFlattened(bs, n)
  }

  /** After flattening two or more blocks, the waste is that of the one block
      left: the head's capacity or max(Size, n), less Size. */
  lemma FlattenedWaste(bs: seq<Block>, n: nat)
    requires |bs| >= 2
    ensures Waste(Flattened(bs, n).rest) ==
      (if bs[0].cap > Size(bs) then bs[0].cap else if Size(bs) < n then n else Size(bs)) - Size(bs)
  {
    var r := Flattened(bs, n).rest;
    SizeIsLength(bs);
    assert r == [r[0]];
  }

  /** Two chains of block size 512 holding one byte each, joined: 2 bytes
      and 1022 wasted; flattening copies into the head, which has room, and
      leaves 2 bytes and 510 wasted. */
  lemma FlattenedExample(x: byte, y: byte)
    ensures var bs := Written([], 512, [x]) + Written([], 512, [y]);
      && Size(bs) == 2 && Waste(bs) == 1022
      && Flattened(bs, 512).out == [x, y]
      && Size(Flattened(bs, 512).rest) == 2 && Waste(Flattened(bs, 512).rest) == 510
  {
    var bs := Written([], 512, [x]) + Written([], 512, [y]);
    WrittenPlacement([], 512, [x]);
    WrittenPlacement([], 512, [y]);
    assert bs == [Block(512, [x]), Block(512, [y])];
    assert bs[1..] == [Block(512, [y])] && bs[1..][1..] == [];
    assert Stream(bs[1..]) == [y] + Stream([]);
    assert Stream(bs) == [x] + [y];
    SizeIsLength(bs);
    FlattenedWaste(bs, 512);
  }

  // ---------------------------------------------------------------------------
  // Splicing other sources: Add, AddReaders, SetNext

  /** A source handed to `AddReaders`, as a value: another chain's blocks, or a
      generic reader given by the byte slices `io.Copy` hands to `Write` and
      whether the reader ends in an error rather than `io.EOF`. */
  datatype SourceValue =
    | ChainSource(blocks: seq<Block>)
    | ReaderSource(chunks: seq<seq<byte>>, fails: bool)

  /** The blocks left by `AddReaders` and whether it returned no error. */
  datatype Splice = Splice(rest: seq<Block>, ok: bool)

  /** `io.Copy` of a reader into a chain: one `Write` per non-empty slice. */
  function Copied(bs: seq<Block>, n: nat, chunks: seq<seq<byte>>): seq<Block>
    requires n > 0
    decreases |chunks|
  {
    if chunks == [] then bs
    else Copied(if chunks[0] == [] then bs else Written(bs, n, chunks[0]), n, chunks[1..])
  }

  lemma {:induction false} CopiedStream(bs: seq<Block>, n: nat, chunks: seq<seq<byte>>)
    requires n > 0
    ensures Stream(Copied(bs, n, chunks)) == Stream(bs) + Concat(chunks)
    decreases |chunks|
  {
    if chunks != [] {
      var bs' := if chunks[0] == [] then bs else Written(bs, n, chunks[0]);
      if chunks[0] != [] {
        WrittenStream(bs, n, chunks[0]);
      }
      CopiedStream(bs', n, chunks[1..]);
    }
  }

  /** `AddReaders(sources...)`: each source in argument order is spliced after
      the tail; a chain source contributes its blocks as they are; a reader
      is first copied into a fresh chain of `DefaultBlockSize` blocks, and a
      failing reader stops the whole operation. */
  function Spliced(bs: seq<Block>, srcs: seq<SourceValue>): Splice
    decreases |srcs|
  {
    if srcs == [] then Splice(bs, true)
    else match srcs[0]
      case ChainSource(v) => Spliced(bs + v, srcs[1..])
      case ReaderSource(chunks, fails) =>
        if fails then Splice(bs, false)
        else Spliced(bs + Copied([], DefaultBlockSize, chunks), srcs[1..])
  }

  /** The index of the first failing reader, or the number of sources. */
  function FirstFailure(srcs: seq<SourceValue>): (i: nat)
    ensures i <= |srcs|
    ensures forall j :: 0 <= j < i ==> !(srcs[j].ReaderSource? && srcs[j].fails)
    ensures i < |srcs| ==> srcs[i].ReaderSource? && srcs[i].fails
    decreases |srcs|
  {
    if srcs == [] then 0
    else if srcs[0].ReaderSource? && srcs[0].fails then 0
    else 1 + FirstFailure(srcs[1..])
  }

  /** The bytes a source adds to the stream once spliced. */
  function Contribution(src: SourceValue): seq<byte> {
    match src
    case ChainSource(v) => Stream(v)
    case ReaderSource(chunks, _) => Concat(chunks)
  }

  /** The bytes of the sources before the first failing reader, in order. */
  function Contributions(srcs: seq<SourceValue>): seq<byte>
    decreases |srcs|
  {
    if srcs == [] || (srcs[0].ReaderSource? && srcs[0].fails) then []
    else Contribution(srcs[0]) + Contributions(srcs[1..])
  }

  /** `AddReaders` succeeds exactly when no reader fails, and the stream
      becomes the old stream followed by what the sources before the first
      failing reader hold, in argument order. */
  lemma {:induction false} SplicedStream(bs: seq<Block>, srcs: seq<SourceValue>)
    ensures Spliced(bs, srcs).ok <==> FirstFailure(srcs) == |srcs|
    ensures Stream(Spliced(bs, srcs).rest) == Stream(bs) + Contributions(srcs)
    decreases |srcs|
  {
    if srcs != [] {
      match srcs[0]
      case ChainSource(v) =>
        StreamConcat(bs, v);
        SplicedStream(bs + v, srcs[1..]);
      case ReaderSource(chunks, fails) =>
        if !fails {
          var c := Copied([], DefaultBlockSize, chunks);
          StreamConcat(bs, c);
          CopiedStream([], DefaultBlockSize, chunks);
          SplicedStream(bs + c, srcs[1..]);
        }
    }
  }

  /** The blocks of several chains, one list after the other. */
  function Joined(vs: seq<seq<Block>>): seq<Block> {
    if vs == [] then [] else vs[0] + Joined(vs[1..])
  }

  /** Splicing a list of sources is splicing its first one, and then, if
      that succeeded, the others. */
  lemma SplicedHead(bs: seq<Block>, srcs: seq<SourceValue>)
    requires srcs != []
    ensures var r := Spliced(bs, [srcs[0]]);
      Spliced(bs, srcs) == if r.ok then Spliced(r.rest, srcs[1..]) else r
  {
    assert [srcs[0]][1..] == [];
  }

  /** `Add(chains...)`: every chain's blocks are moved, unchanged and in
      argument order, behind the tail; it never fails. */
  lemma {:induction false} SplicedChains(bs: seq<Block>, vs: seq<seq<Block>>)
    ensures Spliced(bs, seq(|vs|, i requires 0 <= i < |vs| => ChainSource(vs[i]))) == Splice(bs + Joined(vs), true)
    decreases |vs|
  {
    var srcs := seq(|vs|, i requires 0 <= i < |vs| => ChainSource(vs[i]));
    if vs != [] {
      assert srcs[1..] == seq(|vs[1..]|, i requires 0 <= i < |vs[1..]| => ChainSource(vs[1..][i]));
      SplicedChains(bs + vs[0], vs[1..]);
      assert bs + vs[0] + Joined(vs[1..]) == bs + Joined(vs);
    }
  }

  /** Splicing one chain behind another adds their sizes and their wastes. */
  lemma SpliceAdditive(a: seq<Block>, b: seq<Block>)
    ensures var r := Spliced(a, [ChainSource(b)]).rest;
      Size(r) == Size(a) + Size(b) && Waste(r) == Waste(a) + Waste(b) && Stream(r) == Stream(a) + Stream(b)
  {
    assert Spliced(a, [ChainSource(b)]).rest == a + b;
    Additive(a, b);
    StreamConcat(a, b);
  }

  /** `io.Copy` into a block with no room (`NewMultiBlock()`), with capacity
      growing to exactly what is written. */
  function Filled(b: Block, chunks: seq<seq<byte>>): Block
    decreases |chunks|
  {
    if chunks == [] then b else Filled(Appended(b, chunks[0]), chunks[1..])
  }

  /** A block filled from nothing holds exactly the reader's bytes and has no
      spare room. */
  lemma {:induction false} FilledExact(d: seq<byte>, chunks: seq<seq<byte>>)
    ensures Filled(Block(|d|, d), chunks) == Block(|d + Concat(chunks)|, d + Concat(chunks))
    decreases |chunks|
  {
    if chunks != [] {
      assert Appended(Block(|d|, d), chunks[0]) == Block(|d + chunks[0]|, d + chunks[0]);
      FilledExact(d + chunks[0], chunks[1..]);
      assert d + chunks[0] + Concat(chunks[1..]) == d + Concat(chunks);
    }
  }

  // ---------------------------------------------------------------------------
  // ReadTypeCode

  /** The part of a chain `ReadTypeCode` looks at and changes. */
  datatype TypeCodeState = TypeCodeState(blocks: seq<Block>, code: uint32, cached: bool)

  /** `ReadTypeCode()`: a cached code is returned as it is; otherwise, with at
      least four bytes in the chain, they are read, decoded little-endian,
      cached, and put back as a new four-byte head block; with fewer bytes
      nothing happens and the stored code is returned. */
  function Peeked(s: TypeCodeState): (uint32, TypeCodeState) {
    if s.cached then (s.code, s)
    else if Size(s.blocks) >= 4 then
      var r := Drained(s.blocks, 4);
      SizeIsLength(s.blocks);
      DrainedFacts(s.blocks, 4);
      var c := LittleEndian32(r.out);
      (c, TypeCodeState([Block(4, r.out)] + r.rest, c, true))
    else (s.code, s)
  }

  /** Peeking never changes the stream, and when it reads, it returns the
      first four bytes of the stream decoded little-endian and caches them. */
  lemma PeekedStream(s: TypeCodeState)
    ensures Stream(Peeked(s).1.blocks) == Stream(s.blocks)
    ensures !s.cached && Size(s.blocks) >= 4 ==>
      && |Stream(s.blocks)| >= 4
      && Peeked(s).0 == LittleEndian32(Stream(s.blocks)[..4])
      && Peeked(s).1.cached && Peeked(s).1.code == Peeked(s).0
    ensures (s.cached || Size(s.blocks) < 4) ==> Peeked(s) == (s.code, s)
  {
    if !s.cached && Size(s.blocks) >= 4 {
      var r := Drained(s.blocks, 4);
      SizeIsLength(s.blocks);
      DrainedFacts(s.blocks, 4);
      var rest := [Block(4, r.out)] + r.rest;
      assert rest[1..] == r.rest;
      assert Stream(rest) == r.out + Stream(r.rest);
      assert Stream(s.blocks) == r.out + Stream(s.blocks)[4..];
    }
  }

  /** A second peek returns what the first returned and changes nothing. */
  lemma PeekedIdempotent(s: TypeCodeState)
    ensures Peeked(Peeked(s).1) == Peeked(s)
  {
    PeekedStream(s);
  }
}
