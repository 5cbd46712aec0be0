/** The `ReaderWriter`: a singly linked chain of `MultiBlock` buffers read from
    the head (`next`) and written at the tail (`last`). The ghost `Blocks` list
    the nodes from head to tail and `View` their buffers as values. The
    methods that reshape the chain are tied to the function of `Chains` that
    specifies them on `View`; `Dump`, `Skip`, `ToString` and `SetNext` state
    their results directly on the stream, and `ClearNext` only the link. */
module ReaderWriters {
  import opened Bytes
  import opened Blocks
  import opened Chains

  /** The size of the buffer `io.Copy` reads through. */
  const CopyBufferSize: nat := 32 * 1024

  function Max(a: int, b: int): int {
    if a < b then b else a
  }

  /** An argument of `AddReaders` or `SetNext`: another chain, or a generic
      reader given by the slices `io.Copy` hands on and whether it ends in an
      error instead of `io.EOF`. */
  datatype Source = FromChain(rw: ReaderWriter) | FromReader(chunks: seq<seq<byte>>, fails: bool)

  /** The chains among some sources. */
  function ChainsOf(srcs: seq<Source>): set<ReaderWriter> {
    set i | 0 <= i < |srcs| && srcs[i].FromChain? :: srcs[i].rw
  }

  /** Everything the chains among some sources own. */
  ghost function ReprsOf(srcs: seq<Source>): set<object>
    reads ChainsOf(srcs)
  {
    set i, o | 0 <= i < |srcs| && srcs[i].FromChain? && o in srcs[i].rw.Repr :: o
  }

  /** A source as a value, its chain by the blocks it holds now. */
  ghost function ValueOf(src: Source): SourceValue
    reads if src.FromChain? then {src.rw} else {}
  {
    match src
    case FromChain(rw) => ChainSource(rw.View)
    case FromReader(chunks, fails) => ReaderSource(chunks, fails)
  }

  ghost function ValuesOf(srcs: seq<Source>): seq<SourceValue>
    reads ChainsOf(srcs)
  {
    seq(|srcs|, i requires 0 <= i < |srcs| reads ChainsOf(srcs) => ValueOf(srcs[i]))
  }

  /** The arguments `Add` hands to `AddReaders`. */
  function AsSources(rws: seq<ReaderWriter>): (srcs: seq<Source>)
    ensures |srcs| == |rws| && forall i :: 0 <= i < |rws| ==> srcs[i] == FromChain(rws[i])
  {
    seq(|rws|, i requires 0 <= i < |rws| => FromChain(rws[i]))
  }

  /** The blocks several chains hold now, one list per chain. */
  ghost function ViewsOf(rws: seq<ReaderWriter>): seq<seq<Block>>
    reads set i | 0 <= i < |rws| :: rws[i]
  {
    seq(|rws|, i requires 0 <= i < |rws| reads set i | 0 <= i < |rws| :: rws[i] => rws[i].View)
  }

  /** The loop both strategies of `internalFlatten` share: the bytes of
      `nodes[i..]` are written into `dst` in order, and `prev` and every node
      after it are unlinked from their successors. */
  method CopyAndUnlink(dst: MultiBlock, prev: MultiBlock, ghost nodes: seq<MultiBlock>,
                       ghost views: seq<Block>, ghost i: nat)
    requires 1 <= i <= |nodes| == |views| && prev == nodes[i - 1]
    requires forall a, b :: 0 <= a < b < |nodes| ==> nodes[a] != nodes[b]
    requires forall j :: i - 1 <= j < |nodes| - 1 ==> nodes[j].next == nodes[j + 1]
    requires nodes[|nodes| - 1].next == null
    requires forall j :: i <= j < |nodes| ==> nodes[j] != dst && nodes[j].data == views[j].data
    requires dst.Valid()
    modifies dst, nodes
    ensures dst.Valid() && dst.Value() == Appended(old(dst.Value()), Stream(views[i..]))
    ensures dst !in nodes ==> dst.next == old(dst.next)
    ensures forall j :: i - 1 <= j < |nodes| ==> nodes[j].next == null
  {
    var p := prev;
    var node := prev.next;
    ghost var k := i;
    ghost var d0 := dst.Value();
    ghost var acc: seq<byte> := [];
    assert views[i..i] == [];
    while node != null
      invariant i <= k <= |nodes|
      invariant p == nodes[k - 1]
      invariant node == if k < |nodes| then nodes[k] else null
      invariant forall j :: k <= j < |nodes| - 1 ==> nodes[j].next == nodes[j + 1]
      invariant nodes[|nodes| - 1].next == null
      invariant forall j :: k <= j < |nodes| ==> nodes[j].data == views[j].data
      invariant acc == Stream(views[i..k])
      invariant dst.Valid() && dst.Value() == Appended(d0, acc)
      invariant dst !in nodes ==> dst.next == old(dst.next)
      invariant forall j :: i - 1 <= j < k - 1 ==> nodes[j].next == null
      decreases |nodes| - k
    {
      SliceStep(views, i, k);
      var bytes := node.data;
      assert forall j :: k <= j < |nodes| ==> nodes[j] != p;
      CopyStep(dst, p, bytes, d0, acc);
      acc := acc + bytes;
      p, node := node, node.next;
      k := k + 1;
    }
    assert views[i..k] == views[i..];
  }

  /** One turn of that loop: the node's bytes go into `dst` and `prev` is
      unlinked from its successor. */
  method CopyStep(dst: MultiBlock, prev: MultiBlock, bytes: seq<byte>, ghost d0: Block, ghost acc: seq<byte>)
    requires dst.Valid() && dst.Value() == Appended(d0, acc)
    modifies dst`data, dst`cap, prev`next
    ensures dst.Valid() && dst.Value() == Appended(d0, acc + bytes)
    ensures prev.next == null
  {
    AppendedTwice(d0, acc, bytes);
    var _ := dst.Write(bytes);
    prev.ClearNext();
  }

  /** The loop of the second strategy of `internalFlatten`: the bytes of
      every node are written into the new block `dst`, the chain `rw` is
      unlinked from its head after the first, and every node from its
      successor. */
  method CopyOutOfChain(rw: ReaderWriter, dst: MultiBlock, ghost nodes: seq<MultiBlock>,
                        ghost views: seq<Block>)
    requires 1 <= |nodes| == |views| && rw.next == nodes[0]
    requires forall a, b :: 0 <= a < b < |nodes| ==> nodes[a] != nodes[b]
    requires forall j :: 0 <= j < |nodes| - 1 ==> nodes[j].next == nodes[j + 1]
    requires nodes[|nodes| - 1].next == null
    requires forall j :: 0 <= j < |nodes| ==> nodes[j] != dst && nodes[j].data == views[j].data
    requires dst.Valid() && dst.data == [] && dst.next == null && |Stream(views)| <= dst.cap
    modifies rw`next, dst, nodes
    ensures dst.Valid() && dst.Value() == Block(old(dst.cap), Stream(views)) && dst.next == null
    ensures rw.next == null
    ensures forall j :: 0 <= j < |nodes| ==> nodes[j].next == null
  {
    assert views == [views[0]] + views[1..];
    StreamConcat([views[0]], views[1..]);
    AppendedTwice(dst.Value(), views[0].data, Stream(views[1..]));
    var node := rw.NextMultiBlock();
    var _ := dst.Write(node.data);
    // the first `prev` of the loop is the chain itself
    rw.ClearNext();
    CopyAndUnlink(dst, node, nodes, views, 1);
  }

  // ---------------------------------------------------------------------------
  // Runs of nodes: the shape of a chain, one property per predicate, each
  // reading only the fields it talks about

  /** The nodes hold the buffers `views`, each within its capacity. */
  ghost predicate Holding(nodes: seq<MultiBlock>, views: seq<Block>)
    reads nodes`cap, nodes`data
  {
    && |nodes| == |views|
    && forall i {:trigger views[i]} :: 0 <= i < |nodes| ==>
         views[i].Valid() && nodes[i].cap == views[i].cap && nodes[i].data == views[i].data
  }

  /** Each node links to the one after it, and the last one to `end`. */
  ghost predicate Linked(nodes: seq<MultiBlock>, end: MultiBlock?)
    reads nodes`next
  {
    && (forall i :: 0 <= i < |nodes| - 1 ==> nodes[i].next == nodes[i + 1])
    && (nodes != [] ==> nodes[|nodes| - 1].next == end)
  }

  /** No node occurs twice. */
  predicate Distinct(nodes: seq<MultiBlock>) {
    forall i, j :: 0 <= i < j < |nodes| ==> nodes[i] != nodes[j]
  }

  /** The `i`-th node of a run holds the `i`-th buffer. */
  lemma HoldingAt(nodes: seq<MultiBlock>, views: seq<Block>, i: nat)
    requires Holding(nodes, views) && i < |nodes|
    ensures nodes[i].Valid() && nodes[i].Value() == views[i]
  {
    assert views[i].Valid();
  }

  /** All nodes belong to `repr`. */
  predicate Within(nodes: seq<MultiBlock>, repr: set<object>) {
    forall i :: 0 <= i < |nodes| ==> nodes[i] in repr
  }

  lemma HoldingJoin(a: seq<MultiBlock>, va: seq<Block>, b: seq<MultiBlock>, vb: seq<Block>)
    requires Holding(a, va) && Holding(b, vb)
    ensures Holding(a + b, va + vb)
  {
    var c, vc := a + b, va + vb;
    forall i | 0 <= i < |c|
      ensures vc[i].Valid() && c[i].cap == vc[i].cap && c[i].data == vc[i].data
    {
      if i < |a| {
        assert c[i] == a[i] && vc[i] == va[i];
      } else {
        assert c[i] == b[i - |a|] && vc[i] == vb[i - |a|];
      }
    }
  }

  lemma LinkedJoin(a: seq<MultiBlock>, b: seq<MultiBlock>, end: MultiBlock?)
    requires b != [] && Linked(a, b[0]) && Linked(b, end)
    ensures Linked(a + b, end)
  {
    var c := a + b;
    forall i | 0 <= i < |c| - 1
      ensures c[i].next == c[i + 1]
    {
      if i < |a| - 1 {
        assert c[i] == a[i] && c[i + 1] == a[i + 1];
      } else if i >= |a| {
        assert c[i] == b[i - |a|] && c[i + 1] == b[i + 1 - |a|];
      } else {
        assert c[i] == a[i] && c[i + 1] == b[0];
      }
    }
    assert c[|c| - 1] == b[|b| - 1];
  }

  /** The last node of a run is apart from the others, which end in it. */
  lemma LastApart(a: seq<MultiBlock>, end: MultiBlock?)
    requires Linked(a, end) && Distinct(a)
    ensures a != [] ==> Linked(a[..|a| - 1], a[|a| - 1]) && a[|a| - 1] !in a[..|a| - 1]
  {
    if a != [] {
      LinkedSplit(a, |a| - 1, end);
      DistinctSplit(a, |a| - 1);
      assert a[|a| - 1] in a[|a| - 1..];
    }
  }

  /** A run linked behind the last node of another extends it. */
  lemma LinkedConcat(a: seq<MultiBlock>, b: seq<MultiBlock>, end: MultiBlock?)
    requires a != [] ==>
      Linked(a[..|a| - 1], a[|a| - 1]) && a[|a| - 1].next == (if b == [] then end else b[0])
    requires Linked(b, end)
    ensures Linked(a + b, end)
  {
    if a == [] {
      assert a + b == b;
    } else if b == [] {
      LinkedJoin(a[..|a| - 1], [a[|a| - 1]], end);
      assert a[..|a| - 1] + [a[|a| - 1]] == a == a + b;
    } else {
      LinkedJoin(a[..|a| - 1], [a[|a| - 1]], b[0]);
      assert a[..|a| - 1] + [a[|a| - 1]] == a;
      LinkedJoin(a, b, end);
    }
  }

  /** A node linked before the first one of a run extends it. */
  lemma LinkedCons(b: MultiBlock, a: seq<MultiBlock>, end: MultiBlock?)
    requires b.next == (if a == [] then end else a[0]) && Linked(a, end)
    ensures Linked([b] + a, end)
  {
    if a != [] {
      LinkedJoin([b], a, end);
    }
  }

  lemma DistinctJoin(a: seq<MultiBlock>, ra: set<object>, b: seq<MultiBlock>, rb: set<object>)
    requires Distinct(a) && Within(a, ra) && Distinct(b) && Within(b, rb) && ra !! rb
    ensures Distinct(a + b) && Within(a + b, ra + rb)
  {
    var c := a + b;
    forall i, j | 0 <= i < j < |c|
      ensures c[i] != c[j]
    {
      if j < |a| {
        assert c[i] == a[i] && c[j] == a[j];
      } else if i >= |a| {
        assert c[i] == b[i - |a|] && c[j] == b[j - |a|];
      } else {
        assert c[i] == a[i] && a[i] in ra && c[j] == b[j - |a|] && b[j - |a|] in rb;
      }
    }
    forall i | 0 <= i < |c|
      ensures c[i] in ra + rb
    {
      if i < |a| {
        assert c[i] == a[i];
      } else {
        assert c[i] == b[i - |a|];
      }
    }
  }

  /** A run cut before its `k`-th node: both parts keep their properties,
      the first now ending in the `k`-th node, and they share no node. */
  lemma Split(a: seq<MultiBlock>, va: seq<Block>, k: nat, end: MultiBlock?)
    requires Holding(a, va) && Linked(a, end) && Distinct(a) && k < |a|
    ensures Holding(a[..k], va[..k]) && Holding(a[k..], va[k..])
    ensures Linked(a[..k], a[k]) && Linked(a[k..], end)
    ensures Distinct(a[..k]) && Distinct(a[k..])
    ensures forall x :: x in a[..k] ==> x !in a[k..]
    ensures a == a[..k] + a[k..] && va == va[..k] + va[k..]
  {
    HoldingSplit(a, va, k);
    LinkedSplit(a, k, end);
    DistinctSplit(a, k);
  }

  lemma HoldingSplit(a: seq<MultiBlock>, va: seq<Block>, k: nat)
    requires Holding(a, va) && k <= |a|
    ensures Holding(a[..k], va[..k]) && Holding(a[k..], va[k..])
    ensures va == va[..k] + va[k..]
  {
    forall i | 0 <= i < |a| - k
      ensures va[k..][i].Valid() && a[k..][i].cap == va[k..][i].cap && a[k..][i].data == va[k..][i].data
    {
      assert a[k..][i] == a[k + i] && va[k..][i] == va[k + i];
    }
  }

  lemma LinkedSplit(a: seq<MultiBlock>, k: nat, end: MultiBlock?)
    requires Linked(a, end) && k < |a|
    ensures Linked(a[..k], a[k]) && Linked(a[k..], end)
    ensures a == a[..k] + a[k..]
  {
    forall i | 0 <= i < |a| - k - 1
      ensures a[k..][i].next == a[k..][i + 1]
    {
      assert a[k..][i] == a[k + i] && a[k..][i + 1] == a[k + i + 1];
    }
    if k > 0 {
      assert a[..k][k - 1] == a[k - 1];
    }
    assert a[k..][|a| - k - 1] == a[|a| - 1];
  }

  lemma DistinctSplit(a: seq<MultiBlock>, k: nat)
    requires Distinct(a) && k <= |a|
    ensures Distinct(a[..k]) && Distinct(a[k..])
    ensures forall x :: x in a[..k] ==> x !in a[k..]
  {
    forall i, j | 0 <= i < j < |a| - k
      ensures a[k..][i] != a[k..][j]
    {
      assert a[k..][i] == a[k + i] && a[k..][j] == a[k + j];
    }
    forall x | x in a[..k]
      ensures x !in a[k..]
    {
      var i :| 0 <= i < k && a[i] == x;
      assert forall j :: 0 <= j < |a| - k ==> a[k..][j] == a[k + j] != a[i];
    }
  }

  class ReaderWriter {
    var blockSize: nat
    var next: MultiBlock?
    var last: MultiBlock?
    var typeCode: uint32
    var typeCodeRead: bool

    ghost var Blocks: seq<MultiBlock>
    ghost var View: seq<Block>
    ghost var Repr: set<object>

    /** The nodes from `next` to `last` are distinct, linked in order, end in
        `nil`, and hold the buffers `View`; the block size is positive and
        within `maxBlockSize`. */
    ghost predicate Valid()
      reads this`Repr, this`Blocks, this`View, this`blockSize, this`next, this`last, Blocks
    {
      && this in Repr
      && 0 < blockSize <= MaxBlockSize
      && Within(Blocks, Repr) && Distinct(Blocks) && Holding(Blocks, View) && Linked(Blocks, null)
      && (if Blocks == [] then next == null && last == null
          else next == Blocks[0] && last == Blocks[|Blocks| - 1])
    }

    /** The bytes the chain presents to its readers. */
    ghost function Content(): seq<byte>
      reads this`View
    {
      Stream(View)
    }

    /** The part of the chain `ReadTypeCode` looks at. */
    ghost function TypeCodeView(): TypeCodeState
      reads this`View, this`typeCode, this`typeCodeRead
    {
      TypeCodeState(View, typeCode, typeCodeRead)
    }

    /** The block size and the type code cache are as they were. */
    twostate predicate SettingsKept()
      reads this
    {
      blockSize == old(blockSize) && typeCode == old(typeCode) && typeCodeRead == old(typeCodeRead)
    }

    /** `NewReaderWriterSize(size)`: an empty chain; sizes above
        `maxBlockSize` are capped. */
    constructor Sized(size: int)
      requires size > 0
      ensures Valid() && fresh(Repr)
      ensures blockSize == if size > MaxBlockSize then MaxBlockSize else size
      ensures View == [] && typeCode == 0 && !typeCodeRead
    {
      blockSize := if size > MaxBlockSize then MaxBlockSize else size;
      next, last := null, null;
      typeCode, typeCodeRead := 0, false;
      Blocks, View, Repr := [], [], {this};
    }

    /** `NewReaderWriter()`: an empty chain of `DefaultBlockSize` blocks. */
    constructor Default()
      ensures Valid() && fresh(Repr)
      ensures blockSize == DefaultBlockSize
      ensures View == [] && typeCode == 0 && !typeCodeRead
    {
      blockSize := DefaultBlockSize;
      next, last := null, null;
      typeCode, typeCodeRead := 0, false;
      Blocks, View, Repr := [], [], {this};
    }

    /** `NewReaderWriterString(s)`: a default chain with `s` written to it. */
    constructor FromString(s: seq<byte>)
      ensures Valid() && fresh(Repr)
      ensures blockSize == DefaultBlockSize && typeCode == 0 && !typeCodeRead
      ensures View == Written([], DefaultBlockSize, s) && Content() == s
    {
      blockSize := DefaultBlockSize;
      next, last := null, null;
      typeCode, typeCodeRead := 0, false;
      Blocks, View, Repr := [], [], {this};
      new;
      EmptiedValid();
      var _ := Write(s);
      WrittenStream([], DefaultBlockSize, s);
    }

    /** `NewReaderWriterWithBlocks(data...)`: a default chain with one block
        per slice, each block exactly full. */
    constructor WithBlocks(data: seq<seq<byte>>)
      ensures Valid() && fresh(Repr)
      ensures blockSize == DefaultBlockSize && typeCode == 0 && !typeCodeRead
      ensures View == BlocksOf(data) && Content() == Concat(data)
    {
      blockSize := DefaultBlockSize;
      next, last := null, null;
      typeCode, typeCodeRead := 0, false;
      Blocks, View, Repr := [], [], {this};
      new;
      EmptiedValid();
      var i := 0;
      while i < |data|
        invariant 0 <= i <= |data|
        invariant Valid() && fresh(Repr)
        invariant blockSize == DefaultBlockSize && typeCode == 0 && !typeCodeRead
        invariant |View| == i && forall j :: 0 <= j < i ==> View[j] == Block(|data[j]|, data[j])
      {
        var block := new MultiBlock.WithBlock(data[i]);
        AddBlock(block);
        i := i + 1;
      }
    }

    /** `NewReaderWriterBlock(block)`: a default chain holding `block` as its
        only block. */
    constructor FromBlock(block: seq<byte>)
      ensures Valid() && fresh(Repr)
      ensures blockSize == DefaultBlockSize && typeCode == 0 && !typeCodeRead
      ensures View == [Block(|block|, block)] && Content() == block
    {
      blockSize := DefaultBlockSize;
      next, last := null, null;
      typeCode, typeCodeRead := 0, false;
      Blocks, View, Repr := [], [], {this};
      new;
      EmptiedValid();
      var b := new MultiBlock.WithBlock(block);
      AddBlock(b);
      assert Stream(View) == block + Stream([]);
    }

    /** `clearNext`: drops the link to the head. On its own this breaks the
        chain; `internalFlatten` uses it while it dismantles the old chain. */
    method ClearNext()
      modifies this`next
      ensures next == null
    {
      next := null;
    }

    /** `nextMultiBlock`: the head, without change. */
    method NextMultiBlock() returns (r: MultiBlock?)
      ensures r == next
    {
      r := next;
    }

    /** `addBlock`: links a block behind the tail. */
    method AddBlock(b: MultiBlock)
      requires Valid() && b.Valid() && b.next == null && b !in Repr
      modifies this, last
      ensures Valid() && SettingsKept()
      ensures Blocks == old(Blocks) + [b] && View == old(View) + [b.Value()]
      ensures Repr == old(Repr) + {b}
    {
      ghost var a, va, r := Blocks, View, Repr;
      LastApart(a, null);
      if last != null {
        last.next := b;
      }
      last, next := b, if next == null then b else next;
      Adopt(a, va, r, [b], [b.Value()], {b});
    }

    /** `addBlockToFront`: links a block before the head. */
    method AddBlockToFront(b: MultiBlock)
      requires Valid() && b.Valid() && b !in Repr
      modifies this, b`next
      ensures Valid() && SettingsKept()
      ensures Blocks == [b] + old(Blocks) && View == [b.Value()] + old(View)
      ensures Repr == {b} + old(Repr)
    {
      ghost var a, va, r := Blocks, View, Repr;
      last := if last == null then b else last;
      b.next, next := next, b;
      Adopt([b], [b.Value()], {b}, a, va, r);
    }

    /** Records that the nodes `a` followed by `b` now form the chain: the
        links between them are in place, the head and the tail are set. */
    ghost method Adopt(a: seq<MultiBlock>, va: seq<Block>, ra: set<object>,
                       b: seq<MultiBlock>, vb: seq<Block>, rb: set<object>)
      requires this in ra + rb && 0 < blockSize <= MaxBlockSize
      requires Within(a, ra) && Distinct(a) && Holding(a, va)
      requires Within(b, rb) && Distinct(b) && Holding(b, vb) && Linked(b, null) && ra !! rb
      requires a != [] ==>
        Linked(a[..|a| - 1], a[|a| - 1]) && a[|a| - 1].next == (if b == [] then null else b[0])
      requires next == if a != [] then a[0] else if b != [] then b[0] else null
      requires last == if b != [] then b[|b| - 1] else if a != [] then a[|a| - 1] else null
      modifies this`Blocks, this`View, this`Repr
      ensures Valid() && Blocks == a + b && View == va + vb && Repr == ra + rb
    {
      Blocks, View, Repr := a + b, va + vb, ra + rb;
      LinkedConcat(a, b, null);
      HoldingJoin(a, va, b, vb);
      DistinctJoin(a, ra, b, rb);
    }

    /** `addByteBlock`: a fresh block of capacity `blockSize` holding `p`,
        linked behind the tail. */
    method AddByteBlock(p: seq<byte>) returns (n: nat)
      requires Valid()
      modifies this, last
      ensures Valid() && fresh(Repr - old(Repr)) && SettingsKept()
      ensures View == old(View) + [Appended(Block(blockSize, []), p)] && n == |p|
    {
      var block := new MultiBlock.OfSize(blockSize);
      var _ := block.Write(p);
      AddBlock(block);
      n := |p|;
    }

    /** `Write(p)`: into the tail when its spare room is strictly larger than
        `p`, else into one new block, else split over new blocks of
        `blockSize` bytes. It always writes all of `p`. */
    method Write(p: seq<byte>) returns (n: nat)
      requires Valid()
      modifies Repr
      ensures Valid() && fresh(Repr - old(Repr)) && SettingsKept()
      ensures View == Written(old(View), blockSize, p) && n == |p|
    {
      if last != null && last.cap - |last.data| > |p| {
        n := WriteToTail(p);
      } else if |p| <= blockSize {
        n := AddByteBlock(p);
      } else {
        n := WriteSplit(p);
      }
    }

    /** The fast path of `Write`: `p` is appended to the tail's buffer. */
    method WriteToTail(p: seq<byte>) returns (n: nat)
      requires Valid() && last != null
      modifies this`View, last
      ensures Valid() && unchanged(this`Repr)
      ensures View == old(View)[..|View| - 1] + [Appended(old(View)[|View| - 1], p)] && n == |p|
    {
      HoldingAt(Blocks, View, |Blocks| - 1);
      n := last.Write(p);
      View := View[|View| - 1 := last.Value()];
      assert View == old(View)[..|View| - 1] + [Appended(old(View)[|View| - 1], p)];
    }

    /** The split loop of `Write`: `p`, longer than a block, is cut into
        pieces of `blockSize` bytes, each written into a new block. */
    method WriteSplit(p: seq<byte>) returns (n: nat)
      requires Valid()
      modifies Repr
      ensures Valid() && fresh(Repr - old(Repr)) && SettingsKept()
      ensures View == old(View) + Chunked(p, blockSize) && n == |p|
    {
      var outstanding := |p|;
      var index := 0;
      var nn := 0;
      while outstanding > 0
        invariant 0 <= index <= |p| && outstanding == |p| - index && nn == index
        invariant Valid() && fresh(Repr - old(Repr)) && SettingsKept()
        invariant old(View) + Chunked(p, blockSize) == View + Chunked(p[index..], blockSize)
        decreases outstanding
      {
        var n := WritePiece(p, index);
        nn, index, outstanding := nn + n, index + n, outstanding - n;
      }
      assert p[index..] == [];
      n := nn;
    }

    /** One turn of the split loop of `Write`: the piece of `p` from `index`,
        at most `blockSize` bytes long, goes into a new block. */
    method WritePiece(p: seq<byte>, index: nat) returns (n: nat)
      requires Valid() && index < |p|
      modifies Repr
      ensures Valid() && fresh(Repr - old(Repr)) && SettingsKept()
      ensures 0 < n <= |p| - index
      ensures View + Chunked(p[index + n..], blockSize) == old(View) + Chunked(p[index..], blockSize)
    {
      var bi := index;
      var ei := index + blockSize;
      if ei > |p| {
        ei := |p|;
      }
      ChunkedAt(p, index, blockSize);
      ghost var before, piece := View, Appended(Block(blockSize, []), p[bi..ei]);
      n := AddByteBlock(p[bi..ei]);
      assert View == before + [piece] && n == ei - bi;
      AppendAssoc(before, [piece], Chunked(p[ei..], blockSize));
    }

    /** The head leaves the chain (the `moveNext` closure of `InternalRead`). */
    method MoveNext(head: MultiBlock)
      requires Valid() && head == next
      modifies this
      ensures Valid() && SettingsKept() && Repr == old(Repr)
      ensures Blocks == old(Blocks)[1..] && View == old(View)[1..]
    {
      next := head.next;
      if next == null {
        last := null;
      }
      Blocks, View := Blocks[1..], View[1..];
    }

    /** The read from the head that `InternalRead` starts with. */
    method ReadHead(head: MultiBlock, k: nat) returns (n: seq<byte>, eof: bool)
      requires Valid() && head == next
      modifies this`View, head`data
      ensures Valid() && Blocks == old(Blocks) && unchanged(this`Repr)
      ensures var c := Consume(old(View)[0], k);
        n == c.out && eof == c.eof && View == [c.rest] + old(View)[1..]
    {
      HoldingAt(Blocks, View, 0);
      n, eof := head.Read(k);
      View := View[0 := head.Value()];
      assert View == [head.Value()] + old(View)[1..];
    }

    /** `InternalRead(p)` with `len(p) == k`. */
    method InternalRead(k: nat) returns (out: seq<byte>, eof: bool)
      requires Valid()
      modifies Repr
      ensures Valid() && SettingsKept() && Repr == old(Repr)
      ensures ChainRead(out, View, eof) == Drained(old(View), k)
      decreases k, |Blocks|
    {
      var head := next;
      if head == null {
        return [], true;
      }
      ghost var bs := View;
      var n, headEof := ReadHead(head, k);
      ghost var c := Consume(bs[0], k);
      assert View[1..] == bs[1..];
      if headEof {
        MoveNext(head);
        out, eof := InternalRead(k);
        return;
      }
      if |n| < k {
        var more, moreEof := InternalRead(k - |n|);
        eof := moreEof;
        if |more| == 0 && moreEof {
          if |n| > 0 {
            eof := false;
          }
        }
        out := n + more;
        return;
      }
      HoldingAt(Blocks, View, 0);
      if |next.data| == 0 {
        MoveNext(head);
      }
      out, eof := n, false;
    }

    /** `Read(p)`: `InternalRead` under the lock. */
    method Read(k: nat) returns (out: seq<byte>, eof: bool)
      requires Valid()
      modifies Repr
      ensures Valid() && SettingsKept() && Repr == old(Repr)
      ensures ChainRead(out, View, eof) == Drained(old(View), k)
    {
      out, eof := InternalRead(k);
    }

    /** `InternalSize`: the unread bytes of all blocks, which is the length of
        the stream. */
    method InternalSize() returns (size: nat)
      requires Valid()
      ensures size == Chains.Size(View) && size == |Content()|
    {
      size := 0;
      var node := next;
      ghost var i := 0;
      while node != null
        invariant 0 <= i <= |Blocks|
        invariant node == if i < |Blocks| then Blocks[i] else null
        invariant size == Chains.Size(View[..i])
        decreases |Blocks| - i
      {
        PrefixStep(View, i);
        size := size + |node.data|;
        node := node.next;
        i := i + 1;
      }
      assert View[..i] == View;
      SizeIsLength(View);
    }

    /** `Size()`: `InternalSize` under the lock. */
    method Size() returns (size: nat)
      requires Valid()
      ensures size == Chains.Size(View) && size == |Content()|
    {
      size := InternalSize();
    }

    /** `InternalWaste`: `Cap() - Len()` summed over the blocks; never
        negative. */
    method InternalWaste() returns (waste: int)
      requires Valid()
      ensures waste == Chains.Waste(View) && waste >= 0
    {
      waste := 0;
      var node := next;
      ghost var i := 0;
      while node != null
        invariant 0 <= i <= |Blocks|
        invariant node == if i < |Blocks| then Blocks[i] else null
        invariant waste == Chains.Waste(View[..i])
        decreases |Blocks| - i
      {
        PrefixStep(View, i);
        var leftOver := node.cap - |node.data|;
        waste := waste + leftOver;
        node := node.next;
        i := i + 1;
      }
      assert View[..i] == View;
      assert AllValid(View);
      WasteNonNegative(View);
    }

    /** `Waste()`: `InternalWaste` under the lock. */
    method Waste() returns (waste: int)
      requires Valid()
      ensures waste == Chains.Waste(View) && waste >= 0
    {
      waste := InternalWaste();
    }

    /** `InternalBlockCount`: the number of linked blocks. */
    method InternalBlockCount() returns (count: nat)
      requires Valid()
      ensures count == |View|
    {
      count := 0;
      var node := next;
      while node != null
        invariant 0 <= count <= |Blocks|
        invariant node == if count < |Blocks| then Blocks[count] else null
        decreases |Blocks| - count
      {
        count := count + 1;
        node := node.next;
      }
    }

    /** `BlockCount()`: `InternalBlockCount` under the lock. */
    method BlockCount() returns (count: nat)
      requires Valid()
      ensures count == |View|
    {
      count := InternalBlockCount();
    }

    /** `internalFlatten`, for a chain with at least one block. */
    method InternalFlatten() returns (out: seq<byte>)
      requires Valid() && Blocks != []
      modifies Repr
      ensures Valid() && fresh(Repr - old(Repr)) && SettingsKept()
      ensures Flat(out, View) == InternalFlattened(old(View), blockSize)
    {
      var size := InternalSize();
      if next.cap > size {
        out := FlattenIntoHead(size);
      } else {
        out := FlattenIntoNew(size);
      }
    }

    /** The first strategy of `internalFlatten`: the head has more room than
        the whole stream needs, so the later blocks are copied into it and
        unlinked one by one. */
    method FlattenIntoHead(size: nat) returns (out: seq<byte>)
      requires Valid() && Blocks != [] && size == |Content()| && next.cap > size
      modifies Repr
      ensures Valid() && Repr == old(Repr) && SettingsKept()
      ensures out == old(Content()) && View == [Block(old(View)[0].cap, out)]
      ensures forall j :: 0 <= j < |old(Blocks)| ==> old(Blocks)[j].next == null
    {
      var head := next;
      SizeIsLength(View);
      CopyAndUnlink(head, head, Blocks, View, 1);
      assert View == [View[0]] + View[1..];
      StreamConcat([View[0]], View[1..]);
      out := head.data;
      last := head;
      Blocks, View := [head], [head.Value()];
      OneBlockValid();
    }

    /** The second strategy of `internalFlatten`: the stream is copied into a
        new block of room max(size, blockSize) while the old blocks are
        unlinked one by one, the first from the chain itself; the new block
        becomes the chain. */
    method FlattenIntoNew(size: nat) returns (out: seq<byte>)
      requires Valid() && size == |Content()|
      modifies Repr
      ensures Valid() && fresh(Repr - old(Repr)) && SettingsKept()
      ensures out == old(Content())
      ensures View == [Block(if size < blockSize then blockSize else size, out)]
      ensures forall j :: 0 <= j < |old(Blocks)| ==> old(Blocks)[j].next == null
    {
      var room := size;
      if room < blockSize {
        room := blockSize;
      }
      var block := new MultiBlock.OfSize(room);
      var node := NextMultiBlock();
      if node != null {
        SizeIsLength(View);
        CopyOutOfChain(this, block, Blocks, View);
      }
      assert block.Value() == Block(room, Stream(old(View))) && block.next == null;
      next, last := block, block;
      out := block.data;
      Blocks, View, Repr := [block], [block.Value()], Repr + {block};
      OneBlockValid();
    }

    /** A chain with a head has exactly one block when the head has no
        successor. */
    lemma SingleBlock()
      requires Valid() && Blocks != []
      ensures next.next == null <==> |Blocks| == 1
    {
      if |Blocks| >= 2 {
        assert Blocks[0].next == Blocks[1];
      }
    }

    /** The chain holds no block and owns nothing but itself. */
    ghost predicate Emptied()
      reads this
    {
      Blocks == [] && View == [] && Repr == {this} && next == null && last == null
      && 0 < blockSize <= MaxBlockSize
    }

    lemma EmptiedValid()
      requires Emptied()
      ensures Valid() && View == []
    {
    }

    /** A chain whose only block is both its head and its tail is valid. */
    lemma OneBlockValid()
      requires this in Repr && 0 < blockSize <= MaxBlockSize
      requires next != null && next in Repr && next.Valid() && next.next == null && last == next
      requires Blocks == [next] && View == [next.Value()]
      ensures Valid()
    {
    }

    /** `Flatten()`: the whole stream as one slice, leaving at most one block. */
    method Flatten() returns (out: seq<byte>)
      requires Valid()
      modifies Repr
      ensures Valid() && fresh(Repr - old(Repr)) && SettingsKept()
      ensures Flat(out, View) == Flattened(old(View), blockSize)
    {
      if next == null {
        return [];
      }
      SingleBlock();
      if next.next == null {
        return next.data;
      }
      out := InternalFlatten();
    }

    /** `readerWriterFunc` of `AddReaders`: moves all blocks of `v` behind the
        tail and leaves `v` empty. */
    method SpliceChain(v: ReaderWriter)
      requires Valid() && v.Valid() && Repr !! v.Repr
      modifies Repr, v
      ensures Valid() && SettingsKept()
      ensures Blocks == old(Blocks) + old(v.Blocks) && View == old(View) + old(v.View)
      ensures Repr == old(Repr) + (old(v.Repr) - {v})
      ensures v.Valid() && v.Blocks == [] && v.View == [] && v.Repr == {v}
      ensures v.blockSize == old(v.blockSize) && v.typeCode == old(v.typeCode)
      ensures v.typeCodeRead == old(v.typeCodeRead)
    {
      ghost var a, va, r, b, vb, rb := Blocks, View, Repr, v.Blocks, v.View, v.Repr;
      LastApart(a, null);
      LinkBehind(v);
      v.Forget();
      Adopt(a, va, r, b, vb, rb - {v});
    }

    /** Records that the chain, unlinked from its nodes, is empty. */
    ghost method Forget()
      requires this in Repr && 0 < blockSize <= MaxBlockSize && next == null && last == null
      modifies this`Blocks, this`View, this`Repr
      ensures Valid() && Blocks == [] && View == [] && Repr == {this}
    {
      Blocks, View, Repr := [], [], {this};
    }

    /** The links `readerWriterFunc` changes: the tail of this chain (or its
        head, when it is empty) points to the head of `v`, the tail becomes
        that of `v`, and `v` forgets its blocks. */
    method LinkBehind(v: ReaderWriter)
      requires Valid() && v.Valid() && Repr !! v.Repr
      modifies this`next, this`last, v`next, v`last, last
      ensures v.next == null && v.last == null
      ensures old(v.next) == null ==> next == old(next) && last == old(last)
      ensures old(v.next) == null && old(last) != null ==> old(last).next == old(last.next)
      ensures old(v.next) != null ==> last == old(v.last)
      ensures old(v.next) != null && old(next) == null ==> next == old(v.next)
      ensures old(v.next) != null && old(next) != null ==>
        next == old(next) && old(last).next == old(v.next)
      ensures old(last) != null ==> old(last).data == old(last.data) && old(last).cap == old(last.cap)
    {
      if v.next != null {
        if next == null {
          next := v.next;
          last := v.last;
        } else {
          last.next := v.next;
          last := v.last;
        }
        v.next := null;
        v.last := null;
      }
    }

    /** `io.Copy` from a generic reader into this chain: one `Write` per
        non-empty slice. */
    method CopyChunks(chunks: seq<seq<byte>>)
      requires Valid()
      modifies Repr
      ensures Valid() && fresh(Repr - old(Repr)) && SettingsKept()
      ensures View == Copied(old(View), blockSize, chunks)
    {
      var i := 0;
      while i < |chunks|
        invariant 0 <= i <= |chunks|
        invariant Valid() && fresh(Repr - old(Repr)) && SettingsKept()
        invariant Copied(old(View), blockSize, chunks) == Copied(View, blockSize, chunks[i..])
      {
        assert chunks[i..][1..] == chunks[i + 1..];
        if chunks[i] != [] {
          var _ := Write(chunks[i]);
        }
        i := i + 1;
      }
    }

    /** `AddReaders(sources...)`: the sources in order are spliced behind the
        tail, a generic reader after being copied into a fresh default chain;
        the first failing reader ends the call with an error, and what was
        spliced before it stays. Every chain spliced is left empty. */
    method AddReaders(srcs: seq<Source>) returns (ok: bool)
      requires Valid()
      requires forall i :: 0 <= i < |srcs| && srcs[i].FromChain? ==>
        srcs[i].rw.Valid() && srcs[i].rw.Repr !! Repr
      requires forall i, j :: 0 <= i < j < |srcs| && srcs[i].FromChain? && srcs[j].FromChain? ==>
        srcs[i].rw.Repr !! srcs[j].rw.Repr
      modifies Repr, ReprsOf(srcs)
      ensures Valid() && SettingsKept()
      ensures forall o :: o in Repr ==> o in old(Repr) || o in old(ReprsOf(srcs)) || fresh(o)
      ensures Chains.Splice(View, ok) == Spliced(old(View), old(ValuesOf(srcs)))
      ensures forall i :: 0 <= i < |srcs| && srcs[i].FromChain? ==>
        srcs[i].rw.Valid() &&
        srcs[i].rw.View == if i < FirstFailure(old(ValuesOf(srcs))) then [] else old(srcs[i].rw.View)
      ensures forall i :: 0 <= i < FirstFailure(old(ValuesOf(srcs))) && srcs[i].FromChain? ==>
        srcs[i].rw.Repr == {srcs[i].rw} && srcs[i].rw !in Repr
    {
      ghost var vals, pending := ValuesOf(srcs), ReprsOf(srcs);
      ghost var allowed := Repr + pending;
      Arranged(srcs);
      ok := true;
      var i := 0;
      while i < |srcs|
        invariant 0 <= i <= |srcs|
        invariant Valid() && SettingsKept() && pending <= allowed
        invariant forall o :: o in Repr ==> o in allowed || fresh(o)
        invariant i <= FirstFailure(vals)
        invariant Pending(srcs, i, vals, pending) && Done(srcs, i, pending)
        invariant ok && Spliced(old(View), vals) == Spliced(View, vals[i..])
      {
        ok, pending := SpliceNext(srcs, i, vals, pending, Spliced(old(View), vals));
        if !ok {
          break;
        }
        i := i + 1;
      }
      assert FirstFailure(vals) == i;
      Settled(srcs, if ok then i else i + 1, vals, pending);
    }

    /** What `AddReaders` demands of its sources makes them all pending. */
    lemma Arranged(srcs: seq<Source>)
      requires forall i :: 0 <= i < |srcs| && srcs[i].FromChain? ==>
        srcs[i].rw.Valid() && srcs[i].rw.Repr !! Repr
      requires forall i, j :: 0 <= i < j < |srcs| && srcs[i].FromChain? && srcs[j].FromChain? ==>
        srcs[i].rw.Repr !! srcs[j].rw.Repr
      ensures Pending(srcs, 0, ValuesOf(srcs), ReprsOf(srcs)) && Done(srcs, 0, ReprsOf(srcs))
    {
      var vals, pending := ValuesOf(srcs), ReprsOf(srcs);
      assert forall j :: 0 <= j < |srcs| && srcs[j].FromReader? ==>
        vals[j] == ReaderSource(srcs[j].chunks, srcs[j].fails);
      assert forall j :: 0 <= j < |srcs| && srcs[j].FromChain? ==>
        vals[j] == ChainSource(srcs[j].rw.View) && srcs[j].rw.Repr <= pending;
    }

    /** Where `AddReaders` stops, the chains before that point are empty and
        the others hold what they held. */
    lemma Settled(srcs: seq<Source>, n: nat, vals: seq<SourceValue>, pending: set<object>)
      requires n <= |srcs| && Pending(srcs, n, vals, pending) && Done(srcs, n, pending)
      ensures forall j :: 0 <= j < |srcs| && srcs[j].FromChain? ==>
        srcs[j].rw.Valid() && ChainSource(srcs[j].rw.View) == if j < n then ChainSource([]) else vals[j]
      ensures forall j :: 0 <= j < n && srcs[j].FromChain? ==> srcs[j].rw.Repr == {srcs[j].rw} && srcs[j].rw !in Repr
    {
      forall j | 0 <= j < n && srcs[j].FromChain?
        ensures srcs[j].rw.Valid() && srcs[j].rw.View == []
      {
        srcs[j].rw.EmptiedValid();
      }
    }

    /** The chains among the sources from `i` on are as `AddReaders` found
        them: valid, holding the blocks recorded in `vals`, owning parts of
        `pending` apart from this chain and from one another. */
    ghost predicate Pending(srcs: seq<Source>, i: nat, vals: seq<SourceValue>, pending: set<object>)
      reads *
    {
      && |vals| == |srcs| && pending !! Repr
      && (forall j :: i <= j < |srcs| && srcs[j].FromChain? ==>
            srcs[j].rw.Repr <= pending && srcs[j].rw.Valid() && vals[j] == ChainSource(srcs[j].rw.View))
      && (forall j :: 0 <= j < |srcs| && srcs[j].FromReader? ==>
            vals[j] == ReaderSource(srcs[j].chunks, srcs[j].fails))
      && (forall j, k :: i <= j < k < |srcs| && srcs[j].FromChain? && srcs[k].FromChain? ==>
            srcs[j].rw.Repr !! srcs[k].rw.Repr)
    }

    /** The chains among the first `i` sources have been emptied. */
    ghost predicate Done(srcs: seq<Source>, i: nat, pending: set<object>)
      reads *
    {
      forall j :: 0 <= j < i && j < |srcs| && srcs[j].FromChain? ==>
        srcs[j].rw.Emptied() && srcs[j].rw !in Repr && srcs[j].rw !in pending
    }

    /** One turn of the loop of `AddReaders`, on the source at `i`. */
    method SpliceNext(srcs: seq<Source>, i: nat, ghost vals: seq<SourceValue>, ghost pending: set<object>,
                      ghost whole: Chains.Splice)
      returns (ok: bool, ghost pending': set<object>)
      requires i < |srcs| && Valid() && Pending(srcs, i, vals, pending) && Done(srcs, i, pending)
      requires whole == Spliced(View, vals[i..])
      modifies Repr, if srcs[i].FromChain? then {srcs[i].rw} else {}
      ensures Valid() && SettingsKept() && pending' <= pending
      ensures forall o :: o in Repr ==> o in old(Repr) || o in pending || fresh(o)
      ensures ok == !(vals[i].ReaderSource? && vals[i].fails)
      ensures ok ==> whole == Spliced(View, vals[i + 1..])
      ensures !ok ==> whole == Chains.Splice(View, false)
      ensures Pending(srcs, i + 1, vals, pending') && Done(srcs, i + 1, pending')
    {
      assert vals[i..][0] == vals[i] && vals[i..][1..] == vals[i + 1..];
      SplicedHead(View, vals[i..]);
      assert ValueOf(srcs[i]) == vals[i];
      ghost var taken := if srcs[i].FromChain? then srcs[i].rw.Repr else {};
      pending' := pending - taken;
      ok := SpliceSource(srcs[i]);
      assert unchanged(pending') && pending' !! Repr;
      assert forall j :: 0 <= j < i && srcs[j].FromChain? ==> unchanged(srcs[j].rw) && srcs[j].rw !in Repr;
    }

    /** One turn of the loop of `AddReaders`: a chain is spliced behind the
        tail as it is, a generic reader after being copied into a fresh
        default chain, unless the copy fails. */
    method SpliceSource(src: Source) returns (ok: bool)
      requires Valid()
      requires src.FromChain? ==> src.rw.Valid() && src.rw.Repr !! Repr
      modifies Repr, if src.FromChain? then {src.rw} else {}
      ensures Valid() && SettingsKept()
      ensures ok == !(src.FromReader? && src.fails)
      ensures Chains.Splice(View, ok) == Spliced(old(View), [old(ValueOf(src))])
      ensures forall o :: o in Repr ==>
        o in old(Repr) || (src.FromChain? && o in old(src.rw.Repr)) || fresh(o)
      ensures src.FromChain? ==> src.rw.Emptied() && src.rw !in Repr
    {
      ghost var val := ValueOf(src);
      assert [val][1..] == [];
      if src.FromChain? {
        SpliceChain(src.rw);
        ok := true;
      } else {
        var instance := new ReaderWriter.Default();
        instance.CopyChunks(src.chunks);
        if src.fails {
          return false;
        }
        SpliceChain(instance);
        ok := true;
      }
    }

    /** `Add(chains...)`: `AddReaders` with chains only; every chain's
        blocks are moved behind the tail in argument order, and it never fails. */
    method Add(rws: seq<ReaderWriter>) returns (ok: bool)
      requires Valid()
      requires forall i :: 0 <= i < |rws| ==> rws[i].Valid() && rws[i].Repr !! Repr
      requires forall i, j :: 0 <= i < j < |rws| ==> rws[i].Repr !! rws[j].Repr
      modifies Repr, ReprsOf(AsSources(rws))
      ensures Valid() && SettingsKept() && ok
      ensures forall o :: o in Repr ==> o in old(Repr) || o in old(ReprsOf(AsSources(rws))) || fresh(o)
      ensures View == old(View) + Joined(old(ViewsOf(rws)))
      ensures forall i :: 0 <= i < |rws| ==> rws[i].Valid() && rws[i].View == []
      ensures forall i :: 0 <= i < |rws| ==> rws[i].Repr == {rws[i]} && rws[i] !in Repr
    {
      var l := AsSources(rws);
      ghost var vs := ViewsOf(rws);
      assert ValuesOf(l) == seq(|vs|, i requires 0 <= i < |vs| => ChainSource(vs[i]));
      SplicedChains(View, vs);
      assert FirstFailure(ValuesOf(l)) == |l|;
      ok := AddReaders(l);
    }

    /** `SetNext(source)`: links one more block behind the tail. A chain
        source lends its head block, which both chains then share; a generic
        reader is first copied into a block with no room of its own, grown to
        exactly what it holds, and a failing reader leaves the chain as it was. */
    method SetNext(src: Source) returns (ok: bool)
      requires Valid()
      requires src.FromChain? ==>
        src.rw.Valid() && |src.rw.Blocks| == 1 && src.rw.Blocks[0] !in Repr
      modifies this, last
      ensures Valid() && SettingsKept()
      ensures forall o :: o in Repr ==> o in old(Repr) || (src.FromChain? && o in old(src.rw.Repr)) || fresh(o)
      ensures match src
        case FromChain(v) => ok && View == old(View) + old(v.View)
        case FromReader(chunks, fails) =>
          ok == !fails &&
          View == if fails then old(View) else old(View) + [Block(|Concat(chunks)|, Concat(chunks))]
    {
      if src.FromChain? {
        HoldingAt(src.rw.Blocks, src.rw.View, 0);
        assert src.rw.next == src.rw.Blocks[0] && src.rw.View == [src.rw.next.Value()];
        AddBlock(src.rw.next);
        ok := true;
        return;
      }
      var chunks, fails := src.chunks, src.fails;
      var dst := new MultiBlock.Empty();
      var i := 0;
      FilledExact([], chunks);
      while i < |chunks|
        invariant 0 <= i <= |chunks|
        invariant fresh(dst) && dst.Valid() && dst.next == null
        invariant Filled(Block(0, []), chunks) == Filled(dst.Value(), chunks[i..])
        modifies dst
      {
        assert chunks[i..][1..] == chunks[i + 1..];
        if chunks[i] != [] {
          var _ := dst.Write(chunks[i]);
        } else {
          assert Appended(dst.Value(), chunks[i]) == dst.Value();
        }
        i := i + 1;
      }
      assert chunks[i..] == [] && [] + Concat(chunks) == Concat(chunks);
      if fails {
        return false;
      }
      AddBlock(dst);
      ok := true;
    }

    /** `ReadTypeCode()`: the cached code; else, with four bytes in the chain,
        reads and decodes them, caches the code and puts the bytes back in
        front. The read cannot fail once four bytes are there. */
    method ReadTypeCode() returns (code: uint32)
      requires Valid()
      modifies Repr
      ensures Valid() && fresh(Repr - old(Repr)) && blockSize == old(blockSize)
      ensures (code, TypeCodeView()) == Peeked(old(TypeCodeView()))
    {
      if typeCodeRead {
        return typeCode;
      }
      var size := Size();
      if size >= 4 {
        ghost var bs := View;
        var b, eof := InternalRead(4);
        SizeIsLength(bs);
        DrainedFacts(bs, 4);
        assert !eof;
        CacheTypeCode(b);
      }
      code := typeCode;
    }

    /** The end of `ReadTypeCode` once four bytes were read: they are decoded
        and cached, and put back in front as a block of their own. */
    method CacheTypeCode(b: seq<byte>)
      requires Valid() && |b| == 4
      modifies this, Repr
      ensures Valid() && fresh(Repr - old(Repr)) && blockSize == old(blockSize)
      ensures View == [Block(4, b)] + old(View)
      ensures typeCode == LittleEndian32(b) && typeCodeRead
    {
      typeCode := LittleEndian32(b);
      typeCodeRead := true;
      var block := new MultiBlock.WithBlock(b);
      AddBlockToFront(block);
    }

    /** `Dump(writer)`: hands every block's unread bytes to the writer in
        order, stopping at the first failed `Write`, for a writer that accepts
        `accepted` calls and fails the next. The chain is not changed. */
    method Dump(accepted: nat) returns (written: seq<byte>, ok: bool)
      requires Valid()
      ensures ok <==> |View| <= accepted
      ensures written == Stream(View[..Min(accepted, |View|)])
      ensures ok ==> written == Content()
    {
      written, ok := [], true;
      var calls := 0;
      var node := next;
      while node != null
        invariant 0 <= calls <= |Blocks| && calls <= accepted
        invariant node == if calls < |Blocks| then Blocks[calls] else null
        invariant written == Stream(View[..calls])
        decreases |Blocks| - calls
      {
        if calls == accepted {
          return written, false;
        }
        PrefixStep(View, calls);
        written := written + node.data;
        calls := calls + 1;
        node := node.next;
      }
      assert View[..calls] == View;
    }

    /** `Skip(toSkip)`: `io.CopyN` into a discarding writer, which reads in
        pieces of at most 32 KiB and no more than remains to skip. It fails
        exactly when the chain holds fewer than `toSkip` bytes; a negative
        count skips nothing. */
    method Skip(toSkip: int) returns (ok: bool)
      requires Valid()
      modifies Repr
      ensures Valid() && SettingsKept() && Repr == old(Repr)
      ensures ok <==> toSkip <= |old(Content())|
      ensures Content() == old(Content())[Min(Max(toSkip, 0), |old(Content())|)..]
    {
      var remaining := toSkip;
      var written := 0;
      var done := false;
      while !done
        invariant Valid() && SettingsKept() && Repr == old(Repr)
        invariant 0 <= written <= |old(Content())| && remaining == toSkip - written
        invariant toSkip >= 0 ==> written <= toSkip
        invariant toSkip < 0 ==> written == 0
        invariant Content() == old(Content())[written..]
        invariant done ==> remaining <= 0 || Content() == []
        decreases |Content()|, !done
      {
        if remaining <= 0 {
          done := true;
        } else {
          var out, eof := ReadSome(Min(remaining, CopyBufferSize));
          written, remaining := written + |out|, remaining - |out|;
          if eof {
            done := true;
          }
        }
      }
      ok := written >= toSkip;
    }

    /** `ToString()`: reads the chain to its end, through a 32 KiB buffer,
        and returns everything read; the chain is left without blocks. */
    method ToString() returns (s: seq<byte>)
      requires Valid()
      modifies Repr
      ensures Valid() && SettingsKept() && Repr == old(Repr)
      ensures s == old(Content()) && View == []
    {
      s := [];
      var done := false;
      while !done
        invariant Valid() && SettingsKept() && Repr == old(Repr)
        invariant s + Content() == old(Content())
        invariant done ==> View == []
        decreases |Content()|, !done
      {
        s, done := ReadOnto(s);
      }
    }

    /** One turn of the `io.Copy` loop of `ToString`: a read of up to
        `CopyBufferSize` bytes, appended to `s`; `eof` once nothing is left. */
    method ReadOnto(s: seq<byte>) returns (t: seq<byte>, eof: bool)
      requires Valid()
      modifies Repr
      ensures Valid() && SettingsKept() && Repr == old(Repr)
      ensures t + Content() == s + old(Content())
      ensures eof ==> View == []
      ensures !eof ==> |Content()| < |old(Content())|
    {
      var out;
      out, eof := ReadSome(CopyBufferSize);
      assert s + out + Content() == s + (out + Content());
      t := s + out;
    }

    /** `Read(p)` with `len(p) == k`, seen as bytes of the stream: it takes the
        first bytes and leaves the rest. */
    method ReadSome(k: nat) returns (out: seq<byte>, eof: bool)
      requires Valid()
      modifies Repr
      ensures Valid() && SettingsKept() && Repr == old(Repr)
      ensures out == old(Content())[..Min(k, |old(Content())|)] && out + Content() == old(Content())
      ensures eof <==> old(View) == [] || (k > 0 && old(Content()) == [])
      ensures |out| < k ==> View == []
    {
      ghost var bs := View;
      out, eof := Read(k);
      DrainedFacts(bs, k);
      assert out + Content() == Stream(bs);
    }
  }
}
