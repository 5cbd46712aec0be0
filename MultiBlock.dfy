/** One block of a chain: a `bytes.Buffer` of some capacity holding the bytes
    not read yet, and the link to the next block. */
module Blocks {
  import opened Bytes

  /** The state of a block as the chain observes it: `cap` is the buffer's
      `Cap()`, `data` its unread bytes (`Len()` is `|data|`). Bytes already read
      keep occupying capacity, so the spare room `Cap() - Len()` counts them. */
  datatype Block = Block(cap: nat, data: seq<byte>) {

    /** A buffer never holds more than its capacity. */
    predicate Valid() {
      |data| <= cap
    }

    /** `Cap() - Len()`, the room the chain counts as waste. */
    function Spare(): int {
      cap - |data|
    }
  }

  /** What one `Read(p)` on a block gives back: the bytes copied into `p`,
      the block afterwards, and whether `io.EOF` was returned. */
  datatype BlockRead = BlockRead(out: seq<byte>, rest: Block, eof: bool)

  /** The block after `Write(p)`: `p` is appended to the unread bytes; the
      capacity stays when `p` fits and otherwise grows to exactly what is
      needed. */
  function Appended(b: Block, p: seq<byte>): (r: Block)
    ensures r.data == b.data + p
    ensures b.Valid() ==> r.Valid()
    ensures |b.data| + |p| <= b.cap ==> r.cap == b.cap
    ensures b.cap <= r.cap
  {
    Block(if |b.data| + |p| <= b.cap then b.cap else |b.data| + |p|, b.data + p)
  }

  /** Two writes in a row leave what one write of both pieces leaves. */
  lemma AppendedTwice(b: Block, p: seq<byte>, q: seq<byte>)
    ensures Appended(Appended(b, p), q) == Appended(b, p + q)
  {
    assert b.data + p + q == b.data + (p + q);
  }

  /** The outcome of `Read(p)` with `len(p) == k`: as many bytes as both
      sides allow are taken from the front; an empty block reports `io.EOF`
      unless `p` is empty too. */
  function Consume(b: Block, k: nat): (r: BlockRead)
    ensures r.out + r.rest.data == b.data
    ensures |r.out| == if k < |b.data| then k else |b.data|
    ensures r.rest.cap == b.cap
    ensures r.eof <==> b.data == [] && k > 0
  {
    if b.data == [] then BlockRead([], b, k > 0)
    else
      var n := if k < |b.data| then k else |b.data|;
      BlockRead(b.data[..n], Block(b.cap, b.data[n..]), false)
  }

  /** The Go `MultiBlock`: its buffer (capacity and unread bytes) and its
      successor in the chain. */
  class MultiBlock {
    var cap: nat
    var data: seq<byte>
    var next: MultiBlock?

    ghost predicate Valid()
      reads this
    {
      |data| <= cap
    }

    /** The block's buffer as a value. */
    function Value(): Block
      reads this
    {
      Block(cap, data)
    }

    /** `NewMultiBlockSize(n)`: an empty buffer grown to room for `n` bytes. */
    constructor OfSize(n: nat)
      ensures Valid() && Value() == Block(n, []) && next == null
    {
      cap, data, next := n, [], null;
    }

    /** `NewMultiBlockWithBlock(b)`: a buffer whose unread bytes are `b`,
        exactly filling its capacity. */
    constructor WithBlock(b: seq<byte>)
      ensures Valid() && Value() == Block(|b|, b) && next == null
    {
      cap, data, next := |b|, b, null;
    }

    /** `NewMultiBlock()`: an empty buffer with no room yet. */
    constructor Empty()
      ensures Valid() && Value() == Block(0, []) && next == null
    {
      cap, data, next := 0, [], null;
    }

    /** `clearNext`: unlinks the successor; the bytes are untouched. */
    method ClearNext()
      modifies this`next
      ensures next == null
    {
      next := null;
    }

    /** `nextMultiBlock`: the successor, without change. */
    method NextMultiBlock() returns (r: MultiBlock?)
      ensures r == next
    {
      r := next;
    }

    /** `Read(p)` with `len(p) == k` (delegates to `bytes.Buffer.Read`). */
    method Read(k: nat) returns (out: seq<byte>, eof: bool)
      requires Valid()
      modifies this`data
      ensures Valid()
      ensures BlockRead(out, Value(), eof) == Consume(old(Value()), k)
    {
      if |data| == 0 {
        // an empty buffer resets itself and reports io.EOF, unless p is empty
        out, eof := [], k > 0;
      } else {
        var n := if k < |data| then k else |data|;
        out, data, eof := data[..n], data[n..], false;
      }
    }

    /** `Write(p)` (delegates to `bytes.Buffer.Write`); always writes all of `p`. */
    method Write(p: seq<byte>) returns (n: nat)
      requires Valid()
      modifies this`data, this`cap
      ensures Valid()
      ensures Value() == Appended(old(Value()), p)
      ensures n == |p|
    {
      if cap < |data| + |p| {
        cap := |data| + |p|;
      }
      data := data + p;
      n := |p|;
    }
  }
}
