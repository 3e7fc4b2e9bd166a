/**
 The array template over an explicit heap. The header's union holds either the
 one inline element or the pointer to a heap block; writing one loses the other.
 */
module GrowableArray {
  import opened BlockHeap
  import opened ArrayCapacity

  const SIZE_MAX: nat := 0xFFFF_FFFF_FFFF_FFFF

  datatype Storage<+T> = Inline(cell: Cell<T>) | Pointer(block: Block)

  class Array<T(==, !new)> {
    const heap: Heap<T>
    var length: nat
    var capacity: nat     // the field `allocated`
    var storage: Storage<T>
    /** Elements copied so far because the array grew. */
    ghost var relocated: nat

    /** The storage is where `data()` looks for it. */
    ghost predicate Stored()
      reads this, heap
    {
      && heap.Valid()
      && capacity <= UINT32_MAX
      && (capacity <= SMALLARRAYCAP ==> storage.Inline?)
      && (capacity > SMALLARRAYCAP ==>
            storage.Pointer? && storage.block in heap.blocks && |heap.blocks[storage.block]| == capacity)
    }

    ghost predicate Valid()
      reads this, heap
    {
      Stored() && length <= capacity
    }

    /** The memory that `data()` points to. */
    ghost function Buffer(): (s: seq<Cell<T>>)
      requires Stored()
      reads this, heap
      ensures |s| == Max(capacity, SMALLARRAYCAP)
    {
      if capacity <= SMALLARRAYCAP then [storage.cell] else heap.blocks[storage.block]
    }

    /** The elements of the array. */
    ghost function Contents(): (s: seq<Cell<T>>)
      requires Valid()
      reads this, heap
      ensures |s| == length
    {
      Buffer()[..length]
    }

    ghost function Shape(): Shape
      reads this
    {
      ArrayCapacity.Shape.Shape(length, capacity, relocated)
    }

    /** The heap blocks that the array is responsible for. */
    ghost function Owned(): set<Block>
      reads this
    {
      if capacity > SMALLARRAYCAP && storage.Pointer? then {storage.block} else {}
    }

    /** The heap changed in the array's own blocks only; a block it acquired is new. */
    twostate predicate Framed()
      reads this, heap
    {
      && old(heap.next) <= heap.next
      && heap.blocks - Owned() == old(heap.blocks) - old(Owned())
      && (forall b :: b in Owned() ==> b in old(Owned()) || old(heap.next) <= b)
    }

    /** What one array does leaves every other array as it was. */
    twostate lemma OtherKept(a: Array<T>)
      requires a != this && a.heap == heap && old(a.Valid()) && old(Owned() !! a.Owned())
      requires Framed() && heap.Valid() && unchanged(a)
      ensures a.Valid() && a.Contents() == old(a.Contents()) && Owned() !! a.Owned()
    {
      if a.capacity > SMALLARRAYCAP {
        var b := a.storage.block;
        assert b in old(heap.blocks) - old(Owned());
        assert b in heap.blocks - Owned();
        assert (heap.blocks - Owned())[b] == (old(heap.blocks) - old(Owned()))[b];
      }
    }

    constructor (heap: Heap<T>)
      requires heap.Valid()
      ensures Valid() && this.heap == heap && Owned() == {}
      ensures Contents() == [] && Shape() == Start(false) && length == 0 && capacity == 1 && relocated == 0
    {
      this.heap := heap;
      length := 0;
      capacity := SMALLARRAYCAP;
      storage := Inline(Undefined);
      relocated := 0;
    }

    /** An array that was memset to zero instead of being constructed. */
    constructor Zeroed(heap: Heap<T>, zeroBytes: T)
      requires heap.Valid()
      ensures Valid() && this.heap == heap && Owned() == {}
      ensures Contents() == [] && Shape() == Start(true) && length == 0 && capacity == 0 && relocated == 0
    {
      this.heap := heap;
      length := 0;
      capacity := 0;
      storage := Inline(Value(zeroBytes));
      relocated := 0;
    }

    /** The destructor. */
    method Destroy()
      requires Valid()
      modifies heap
      ensures heap.Valid() && heap.next == old(heap.next)
      ensures heap.blocks == old(heap.blocks) - old(Owned())
    {
      if capacity > SMALLARRAYCAP {
        heap.Free(storage.block);
      }
    }

    // ----- memory access through data() -----

    /** memmove or memcpy of the given cells to data() + at. */
    method Write(at: nat, cells: seq<Cell<T>>)
      requires Valid() && at + |cells| <= Max(capacity, SMALLARRAYCAP)
      modifies this`storage, heap
      ensures Valid() && Framed()
      ensures Buffer() == Overwrite(old(Buffer()), at, cells)
    {
      if capacity <= SMALLARRAYCAP {
        if cells != [] {
          storage := Inline(cells[0]);
        }
      } else {
        heap.Store(storage.block, at, cells);
      }
    }

    method Read(at: nat, n: nat) returns (cells: seq<Cell<T>>)
      requires Valid() && at + n <= Max(capacity, SMALLARRAYCAP)
      ensures cells == Buffer()[at..at + n]
    {
      if capacity <= SMALLARRAYCAP {
        cells := [storage.cell][at..at + n];
      } else {
        cells := heap.blocks[storage.block][at..at + n];
      }
    }

    method Memmove(to: nat, from: nat, n: nat)
      requires Valid() && to + n <= Max(capacity, SMALLARRAYCAP) && from + n <= Max(capacity, SMALLARRAYCAP)
      modifies this`storage, heap
      ensures Valid() && Framed()
      ensures Buffer() == Overwrite(old(Buffer()), to, old(Buffer())[from..from + n])
    {
      var cells := Read(from, n);
      Write(to, cells);
    }

    /** memcpy of the first n cells of another array, or of this one when none of the
        cells read is written. */
    method Memcpy(to: nat, a: Array<T>, n: nat)
      requires Valid() && a.Valid() && a.heap == heap
      requires to + n <= Max(capacity, SMALLARRAYCAP) && n <= Max(a.capacity, SMALLARRAYCAP)
      requires a == this ==> Cells(0, n) !! Cells(to, n)
      modifies this`storage, heap
      ensures Valid() && Framed()
      ensures Buffer() == Overwrite(old(Buffer()), to, old(a.Buffer())[..n])
    {
      var cells := a.Read(0, n);
      Write(to, cells);
    }

    // ----- the operations -----

    /** Leaves the inline storage for a block of n cells. */
    method MoveToHeap(n: nat)
      requires Valid() && capacity <= SMALLARRAYCAP && SMALLARRAYCAP < n <= UINT32_MAX
      modifies this, heap
      ensures Valid() && Framed() && length == old(length) && capacity == n
      ensures relocated == old(relocated) + length && Contents() == old(Contents())
    {
      var p := heap.Malloc(n);
      heap.Store(p, 0, [storage.cell][..length]);
      relocated := relocated + length;
      capacity := n;
      storage := Pointer(p);
    }

    /** Replaces the block by one of n cells. */
    method Reallocate(n: nat)
      requires Valid() && SMALLARRAYCAP < capacity && SMALLARRAYCAP < n <= UINT32_MAX
      modifies this, heap
      ensures Stored() && Framed() && length == old(length) && capacity == n
      ensures relocated == old(relocated + capacity) && Buffer() == Resized(old(Buffer()), n)
    {
      var p := heap.Realloc(storage.block, n);
      relocated := relocated + capacity;
      capacity := n;
      storage := Pointer(p);
    }

    /** Grows the block by half, or by nentries if that is more. */
    method GrowBlock(nentries: nat)
      requires Valid() && SMALLARRAYCAP < capacity && capacity - length < nentries
      requires SMALLARRAYCAP < Reserved(length, capacity, nentries)
      modifies this, heap
      ensures Stored() && Framed() && Shape() == old(AfterReserve(Shape(), nentries))
      ensures var k := Min(length, capacity); Buffer()[..k] == old(Contents())[..k]
    {
      var increment := length / 2;
      if nentries > increment {
        increment := Wrap32(nentries);
      }
      assert Wrap32(length + increment) == Reserved(length, capacity, nentries);
      Reallocate(Wrap32(length + increment));
    }

    /** Makes room where the new capacity fits 32 bits, and then keeps all elements;
        where it is truncated, those that the new capacity has room for. */
    method Reserve(nentries: nat)
      requires Valid() && Reservable(length, capacity, nentries)
      modifies this, heap
      ensures Stored() && Framed() && Shape() == old(AfterReserve(Shape(), nentries))
      ensures var k := Min(length, capacity); Buffer()[..k] == old(Contents())[..k]
      ensures old(Fits(length, capacity, nentries)) ==>
                Valid() && length + nentries <= capacity && Contents() == old(Contents())
    {
      ghost var reserved := Reserved(length, capacity, nentries);
      ReserveMakesRoom(length, capacity, nentries);
      if capacity - length < nentries {
        if capacity == 0 {
          // Not constructed but zero-filled.
          if nentries <= SMALLARRAYCAP {
            capacity := SMALLARRAYCAP;
          } else {
            MoveToHeap(Wrap32(nentries));
          }
        } else if capacity <= SMALLARRAYCAP {
          MoveToHeap(Wrap32(length + nentries));
        } else {
          GrowBlock(nentries);
        }
      }
      assert capacity == reserved;
    }

    /** The first half of every insertion: room for n more, and the tail moved up by n. */
    method OpenGap(index: nat, n: nat)
      requires Valid() && index <= length && Fits(length, capacity, n)
      modifies this, heap
      ensures Valid() && Framed() && Shape() == old(AfterReserve(Shape(), n))
      ensures length + n <= capacity
      ensures Buffer()[..index] == old(Contents())[..index]
      ensures Buffer()[index + n..length + n] == old(Contents())[index..]
    {
      Reserve(n);
      MoveTail(index, n);
    }

    method MoveTail(index: nat, n: nat)
      requires Valid() && index <= length && length + n <= capacity
      modifies this`storage, heap
      ensures Valid() && Framed()
      ensures Buffer()[..index] == old(Contents())[..index]
      ensures Buffer()[index + n..length + n] == old(Contents())[index..]
    {
      GapOpened(Buffer(), length, index, n);
      if length != index {
        Memmove(index + n, index, length - index);
      }
    }

    lemma GapOpened(buffer: seq<Cell<T>>, length: nat, index: nat, n: nat)
      requires index <= length && length + n <= |buffer|
      ensures var moved := Overwrite(buffer, index + n, buffer[index..length]);
              && moved[..index] == buffer[..length][..index]
              && moved[index + n..length + n] == buffer[..length][index..]
    {
    }

    /** The second half: the gap is filled. */
    lemma GapFilled(before: seq<Cell<T>>, gap: seq<Cell<T>>, index: nat, cells: seq<Cell<T>>)
      requires index <= |before| && |before| + |cells| <= |gap|
      requires gap[..index] == before[..index] && gap[index + |cells|..|before| + |cells|] == before[index..]
      ensures Overwrite(gap, index, cells)[..|before| + |cells|] == before[..index] + cells + before[index..]
    {
      var n := |before| + |cells|;
      var filled := Overwrite(gap, index, cells);
      assert filled[..n] == filled[..index] + filled[index..index + |cells|] + filled[index + |cells|..n];
    }

    method Push(x: T)
      requires Valid() && Fits(length, capacity, 1)
      modifies this, heap
      ensures Valid() && Framed() && Shape() == old(After(Shape(), Grow(1)))
      ensures Contents() == old(Contents()) + [Value(x)]
    {
      Reserve(1);
      Write(length, [Value(x)]);
      length := length + 1;
    }

    method Append(a: Array<T>)
      requires Valid() && a.Valid() && a.heap == heap && (a == this || Owned() !! a.Owned())
      requires Fits(length, capacity, a.length)
      modifies this, heap
      ensures Valid() && Framed() && Shape() == old(After(Shape(), Grow(a.length)))
      ensures Contents() == old(Contents()) + old(a.Contents())
    {
      InsertArray(length, a);
    }

    lemma GapClosed(buffer: seq<Cell<T>>, length: nat, i: nat)
      requires i < length <= |buffer|
      ensures var moved := Overwrite(buffer, i, buffer[i + 1..length]);
              moved[..length - 1] == buffer[..length][..i] + buffer[..length][i + 1..]
      ensures i == length - 1 ==> buffer[..length - 1] == buffer[..length][..i] + buffer[..length][i + 1..]
    {
    }

    method Remove(i: nat)
      requires Valid() && i < length
      modifies this, heap
      ensures Valid() && Framed() && Shape() == old(After(Shape(), Drop))
      ensures Contents() == old(Contents())[..i] + old(Contents())[i + 1..]
    {
      GapClosed(Buffer(), length, i);
      if length - i - 1 != 0 {
        Memmove(i, i + 1, length - i - 1);
      }
      length := length - 1;
    }

    /** The gap for the elements of another array, or of this one, which keeps its own. */
    method OpenGapFor(index: nat, a: Array<T>)
      requires Valid() && a.Valid() && a.heap == heap && (a == this || Owned() !! a.Owned())
      requires index <= length && Fits(length, capacity, a.length)
      requires a == this ==> index == length || length == 0
      modifies this, heap
      ensures Valid() && Framed() && Shape() == old(AfterReserve(Shape(), a.length))
      ensures length + a.length <= capacity
      ensures Buffer()[..index] == old(Contents())[..index]
      ensures Buffer()[index + a.length..length + a.length] == old(Contents())[index..]
      ensures a.Valid() && a.Contents() == old(a.Contents())
    {
      OpenGap(index, a.length);
      if a != this {
        OtherKept(a);
      }
    }

    method FillGap(index: nat, a: Array<T>, ghost before: seq<Cell<T>>)
      requires Valid() && a.Valid() && a.heap == heap && index <= length == |before|
      requires length + a.length <= capacity
      requires a == this ==> index == length || length == 0
      requires Buffer()[..index] == before[..index]
      requires Buffer()[index + a.length..length + a.length] == before[index..]
      modifies this, heap
      ensures Valid() && Framed()
      ensures Shape() == old(ArrayCapacity.Shape.Shape(length + a.length, capacity, relocated))
      ensures Contents() == before[..index] + old(a.Contents()) + before[index..]
    {
      var d := a.length;
      GapFilled(before, Buffer(), index, a.Contents());
      SelfInsertOverlaps(length, index);
      Memcpy(index, a, d);
      length := length + d;
    }

    /** Inserting an array into itself is defined at its end only: elsewhere the
        memcpy would overlap (see SelfInsertOverlaps). */
    method InsertArray(index: nat, a: Array?<T>)
      requires Valid()
      requires a != null ==> a.Valid() && a.heap == heap && (a == this || Owned() !! a.Owned())
      requires a != null ==> index <= length && Fits(length, capacity, a.length)
      requires a == this ==> index == length || length == 0
      modifies this, heap
      ensures Valid() && Framed()
      ensures Shape() == if a == null then old(Shape()) else old(After(Shape(), Grow(a.length)))
      ensures a == null ==> Contents() == old(Contents())
      ensures a != null ==> Contents() == old(Contents())[..index] + old(a.Contents()) + old(Contents())[index..]
    {
      if a != null {
        OpenGapFor(index, a);
        FillGap(index, a, old(Contents()));
      }
    }

    method Insert(index: nat, x: T)
      requires Valid() && index <= length && Fits(length, capacity, 1)
      modifies this, heap
      ensures Valid() && Framed() && Shape() == old(After(Shape(), Grow(1)))
      ensures Contents() == old(Contents())[..index] + [Value(x)] + old(Contents())[index..]
    {
      OpenGap(index, 1);
      GapFilled(old(Contents()), Buffer(), index, [Value(x)]);
      Write(index, [Value(x)]);
      length := length + 1;
    }

    /** The length is truncated to 32 bits. Elements beyond the old length are whatever
        the memory holds. */
    method SetDim(newdim: nat)
      requires Valid() && Settable(length, capacity, newdim)
      modifies this, heap
      ensures Valid() && Framed() && Shape() == old(After(Shape(), Redim(newdim)))
      ensures length == Wrap32(newdim)
      ensures forall i :: 0 <= i < length && i < old(length) ==> Contents()[i] == old(Contents())[i]
    {
      ReserveDim(newdim);
      SamePrefix(Buffer(), old(Contents()), Min(length, capacity));
      length := Wrap32(newdim);
    }

    lemma SamePrefix(s: seq<Cell<T>>, t: seq<Cell<T>>, k: nat)
      requires k <= |s| && k <= |t| && s[..k] == t[..k]
      ensures forall i :: 0 <= i < k ==> s[i] == t[i]
    {
      assert forall i :: 0 <= i < k ==> s[i] == s[..k][i] == t[..k][i];
    }

    method ReserveDim(newdim: nat)
      requires Valid() && Settable(length, capacity, newdim)
      modifies this, heap
      ensures Stored() && Framed() && length == old(length)
      ensures capacity == old(DimCapacity(length, capacity, newdim)) && Wrap32(newdim) <= capacity
      ensures relocated == old(After(Shape(), Redim(newdim)).relocated)
      ensures var k := Min(length, capacity); Buffer()[..k] == old(Contents())[..k]
    {
      SettableIsSound(length, capacity, newdim);
      if length < newdim {
        Reserve(newdim - length);
      }
    }

    method Find(x: T) returns (i: nat)
      requires Valid() && forall c :: c in Contents() ==> c.Value?
      ensures i < length ==> Contents()[i] == Value(x) && Value(x) !in Contents()[..i]
      ensures length <= i ==> i == 0xFFFF_FFFF_FFFF_FFFF && Value(x) !in Contents()
    {
      i := 0;
      while i < length
        invariant i <= length
        invariant Value(x) !in Contents()[..i]
      {
        var c := Get(i);
        assert c in Contents();
        if c.value == x {
          return;
        }
        i := i + 1;
      }
      i := SIZE_MAX;
    }

    method Contains(x: T) returns (found: bool)
      requires Valid() && forall c :: c in Contents() ==> c.Value?
      ensures found <==> Value(x) in Contents()
    {
      var i := Find(x);
      found := i != SIZE_MAX;
    }

    /** Reading through operator[]. */
    method Get(i: nat) returns (c: Cell<T>)
      requires Valid() && i < length
      ensures c == Contents()[i]
    {
      var cells := Read(i, 1);
      c := cells[0];
    }

    /** Assigning through the reference that operator[] returns. */
    method Set(i: nat, x: T)
      requires Valid() && i < length
      modifies this, heap
      ensures Valid() && Framed() && Shape() == old(Shape())
      ensures Contents() == old(Contents())[i := Value(x)]
    {
      Write(i, [Value(x)]);
    }

    lemma OverwrittenFront(buffer: seq<Cell<T>>, cells: seq<Cell<T>>)
      requires |cells| <= |buffer|
      ensures Overwrite(buffer, 0, cells)[..|cells|] == cells
    {
    }

    /** Gives a newly constructed array the elements of another. */
    method Assign(a: Array<T>)
      requires Valid() && a.Valid() && a.heap == heap && a != this && Owned() !! a.Owned()
      requires length == 0 && Fits(0, capacity, a.length)
      modifies this, heap
      ensures Valid() && Framed() && Contents() == old(a.Contents())
      ensures Shape() == old(After(Shape(), Redim(a.length)))
    {
      SetDim(a.length);
      OtherKept(a);
      OverwrittenFront(Buffer(), a.Contents());
      Memcpy(0, a, a.length);
    }

    method Copy() returns (a: Array<T>)
      requires Valid()
      modifies heap
      ensures fresh(a) && a.Valid() && a.heap == heap && a.Contents() == old(Contents())
      ensures Valid() && Contents() == old(Contents()) && Owned() !! a.Owned()
      ensures old(heap.next) <= heap.next && heap.blocks - a.Owned() == old(heap.blocks)
      ensures a.Shape() == After(Start(false), Redim(length))
    {
      a := new Array(heap);
      label constructed:
      a.Assign(this);
      a.OtherKept@constructed(this);
      assert old@constructed(heap.blocks) - {} == old(heap.blocks);
    }

    method Shift(x: T)
      requires Valid() && Fits(length, capacity, 1)
      modifies this, heap
      ensures Valid() && Framed() && Shape() == old(After(Shape(), Grow(1)))
      ensures Contents() == [Value(x)] + old(Contents())
    {
      OpenGap(0, 1);
      ghost var before := old(Contents());
      GapFilled(before, Buffer(), 0, [Value(x)]);
      assert before[..0] + [Value(x)] + before[0..] == [Value(x)] + before;
      Write(0, [Value(x)]);
      length := length + 1;
    }

    /** memset of the elements to zero bytes. */
    method Zero(zeroBytes: T)
      requires Valid()
      modifies this, heap
      ensures Valid() && Framed() && Shape() == old(Shape())
      ensures Contents() == seq(length, _ => Value(zeroBytes))
    {
      Write(0, seq(length, _ => Value(zeroBytes)));
    }

    method Pop() returns (c: Cell<T>)
      requires Valid() && 0 < length
      modifies this
      ensures Valid() && Framed() && Shape() == old(After(Shape(), Drop))
      ensures old(Contents()) == Contents() + [c]
    {
      length := length - 1;
      var cells := Read(length, 1);
      c := cells[0];
    }
  }

  /** That overlap is the only fault: opening the gap leaves the array's own cells alone,
      and a memmove in place of the memcpy would insert them at any index. */
  lemma MemmoveWouldInsert<T>(buffer: seq<Cell<T>>, length: nat, index: nat)
    requires index <= length && length + length <= |buffer|
    ensures var gap := Overwrite(buffer, index + length, buffer[index..length]);
            && gap[..length] == buffer[..length]
            && Overwrite(gap, index, gap[..length])[..length + length]
               == buffer[..index] + buffer[..length] + buffer[index..length]
  {
  }

  ghost predicate Among(k: nat, from: nat, n: nat) { from <= k < from + n }

  /** The positions of n consecutive cells. */
  ghost function Cells(from: nat, n: nat): iset<nat>
  {
    iset k | Among(k, from, n)
  }

  /** The memcpy of a self-insert reads no cell that it writes, as memcpy demands, exactly
      when the insertion is at the end or there is nothing to insert. */
  lemma SelfInsertOverlaps(length: nat, index: nat)
    requires index <= length
    ensures Cells(0, length) !! Cells(index, length) <==> index == length || length == 0
  {
    if index < length {
      assert index in Cells(0, length) && index in Cells(index, length);
    }
  }
}
