/**
 The allocator as the array template sees it: numbered blocks of cells, never
 reused, with a record of every free. Allocation always succeeds.
 */
module BlockHeap {

  /** One element's worth of memory; fresh memory is undefined. */
  datatype Cell<+T> = Undefined | Value(value: T)

  type Block = nat

  function Blank<T>(n: nat): (s: seq<Cell<T>>)
    ensures |s| == n
  {
    seq(n, _ => Undefined)
  }

  class Heap<T(!new)> {
    /** The live blocks. */
    var blocks: map<Block, seq<Cell<T>>>
    /** Blocks 0 .. next - 1 have been allocated so far. */
    var next: Block
    /** How often each block has been freed. */
    var freed: multiset<Block>

    constructor ()
      ensures Valid() && blocks == map[] && next == 0
    {
      blocks, next, freed := map[], 0, multiset{};
    }

    /** Every allocated block is either live, or has been freed exactly once. */
    ghost predicate Valid()
      reads this
    {
      && (forall b {:trigger b in blocks} :: b in blocks ==> b < next)
      && (forall b: Block :: freed[b] == if b < next && b !in blocks then 1 else 0)
    }

    method Malloc(n: nat) returns (b: Block)
      requires Valid()
      modifies this
      ensures Valid() && b == old(next) && next == old(next) + 1
      ensures blocks == old(blocks)[b := Blank(n)] && freed == old(freed)
    {
      b := next;
      next := next + 1;
      blocks := blocks[b := Blank(n)];
    }

    method Free(b: Block)
      requires Valid() && b in blocks
      modifies this
      ensures Valid() && blocks == old(blocks) - {b} && freed == old(freed) + multiset{b} && next == old(next)
    {
      blocks := blocks - {b};
      freed := freed + multiset{b};
    }

    /** Allocates a block of n cells, copies what fits of block b into it and frees b. */
    method Realloc(b: Block, n: nat) returns (r: Block)
      requires Valid() && b in blocks
      modifies this
      ensures Valid() && r == old(next) && next == old(next) + 1
      ensures blocks == (old(blocks) - {b})[r := Resized(old(blocks[b]), n)]
      ensures freed == old(freed) + multiset{b}
    {
      var contents := blocks[b];
      r := Malloc(n);
      blocks := blocks[r := Resized(contents, n)];
      Free(b);
    }

    method Store(b: Block, at: nat, cells: seq<Cell<T>>)
      requires Valid() && b in blocks && at + |cells| <= |blocks[b]|
      modifies this
      ensures Valid() && next == old(next) && freed == old(freed)
      ensures blocks == old(blocks)[b := Overwrite(old(blocks[b]), at, cells)]
    {
      blocks := blocks[b := Overwrite(blocks[b], at, cells)];
    }
  }

  /** Memory s with n cells. */
  function Resized<T>(s: seq<Cell<T>>, n: nat): (r: seq<Cell<T>>)
    ensures |r| == n
  {
    if n <= |s| then s[..n] else s + Blank(n - |s|)
  }

  /** Memory s after cells were stored at index `at`. */
  function Overwrite<T>(s: seq<Cell<T>>, at: nat, cells: seq<Cell<T>>): (r: seq<Cell<T>>)
    requires at + |cells| <= |s|
    ensures |r| == |s|
  {
    s[..at] + cells + s[at + |cells|..]
  }
}
