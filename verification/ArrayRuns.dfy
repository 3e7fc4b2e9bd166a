/**
 Whole runs over any number of arrays that share one heap: every operation in any
 order, compared with the same operations on plain sequences.
 */
module ArrayRuns {
  import opened BlockHeap
  import opened ArrayCapacity
  import opened GrowableArray

  // ----- the operations on plain sequences -----

  datatype ArrayOp<+T> =
    | Push(x: T) | Shift(x: T) | Insert(i: nat, x: T) | Remove(i: nat) | Pop
    | SetDim(n: nat) | Reserve(n: nat) | Zero(z: T) | Set(i: nat, x: T)

  /** What an operation asks of the elements; what it asks of the capacity is `Allowed`. */
  predicate Enabled<T>(op: ArrayOp<T>, length: nat)
  {
    match op
    case Insert(i, _) => i <= length
    case Remove(i) => i < length
    case Pop => 0 < length
    case Set(i, _) => i < length
    case _ => true
  }

  /** The plain-sequence meaning; a growing SetDim exposes undefined elements. */
  function Items<T>(op: ArrayOp<T>, s: seq<Cell<T>>): seq<Cell<T>>
    requires Enabled(op, |s|)
  {
    match op
    case Push(x) => s + [Value(x)]
    case Shift(x) => [Value(x)] + s
    case Insert(i, x) => s[..i] + [Value(x)] + s[i..]
    case Remove(i) => s[..i] + s[i + 1..]
    case Pop => s[..|s| - 1]
    case SetDim(n) => Resized(s, Wrap32(n))
    case Reserve(_) => s
    case Zero(z) => seq(|s|, _ => Value(z))
    case Set(i, x) => s[i := Value(x)]
  }

  // The plain meaning, described by what it leaves where.

  lemma PlainAdditions<T>(s: seq<Cell<T>>, x: T, i: nat)
    ensures Items(Push(x), s)[..|s|] == s && Items(Push(x), s)[|s|..] == [Value(x)]
    ensures Items(Shift(x), s)[..1] == [Value(x)] && Items(Shift(x), s)[1..] == s
    ensures i <= |s| ==> var t := Items(Insert(i, x), s);
              |t| == |s| + 1 && t[..i] == s[..i] && t[i] == Value(x) && t[i + 1..] == s[i..]
  {
  }

  /** Removing an element undoes its insertion, and popping takes off the last. */
  lemma PlainRemovals<T>(s: seq<Cell<T>>, x: T, i: nat)
    ensures i <= |s| ==> Items(Remove(i), Items(Insert(i, x), s)) == s
    ensures i < |s| ==> |Items(Remove(i), s)| == |s| - 1
    ensures s != [] ==> Items(Pop, s) + [s[|s| - 1]] == s
  {
    if i <= |s| {
      var t := Items(Insert(i, x), s);
      assert t[..i] == s[..i] && t[i + 1..] == s[i..];
    }
  }

  lemma PlainChanges<T>(s: seq<Cell<T>>, x: T, i: nat)
    ensures i < |s| ==> var t := Items(Set(i, x), s);
              |t| == |s| && t[..i] == s[..i] && t[i] == Value(x) && t[i + 1..] == s[i + 1..]
    ensures |Items(Zero(x), s)| == |s| && forall j :: 0 <= j < |s| ==> Items(Zero(x), s)[j] == Value(x)
  {
  }

  lemma PlainSizes<T>(s: seq<Cell<T>>, n: nat)
    ensures Items(Reserve(n), s) == s
    ensures n <= UINT32_MAX ==> var t := Items(SetDim(n), s);
              |t| == n && (if n <= |s| then t == s[..n] else s <= t)
  {
  }

  function ResizeOf<T>(op: ArrayOp<T>): Resize
  {
    match op
    case Push(_) => Grow(1)
    case Shift(_) => Grow(1)
    case Insert(_, _) => Grow(1)
    case Remove(_) => Drop
    case Pop => Drop
    case SetDim(n) => Redim(n)
    case Reserve(n) => Room(n)
    case Zero(_) => Touch
    case Set(_, _) => Touch
  }

  /** What a history records: one addition, one removal, or neither. */
  lemma HistoryMeaning<T>(x: T, i: nat, n: nat)
    ensures ResizeOf(Push(x)) == ResizeOf(Shift(x)) == ResizeOf(Insert(i, x)) == Grow(1)
    ensures ResizeOf<T>(Remove(i)) == ResizeOf<T>(Pop) == Drop
    ensures ResizeOf(Zero(x)) == ResizeOf(Set(i, x)) == Touch
    ensures ResizeOf<T>(SetDim(n)) == Redim(n) && ResizeOf<T>(Reserve(n)) == Room(n)
  {
  }

  /** The memory holds what the plain sequence defines. */
  ghost predicate Agrees<T>(plain: seq<Cell<T>>, memory: seq<Cell<T>>)
  {
    && |plain| == |memory|
    && forall i :: 0 <= i < |plain| && plain[i].Value? ==> memory[i] == plain[i]
  }

  /** What an operation makes of the elements; a growing SetDim leaves the rest open. */
  ghost predicate Realizes<T>(op: ArrayOp<T>, before: seq<Cell<T>>, after: seq<Cell<T>>)
    requires Enabled(op, |before|)
  {
    if op.SetDim? && |before| < Wrap32(op.n) then |after| == Wrap32(op.n) && before <= after
    else after == Items(op, before)
  }

  lemma AgreesAfterInsert<T>(plain: seq<Cell<T>>, memory: seq<Cell<T>>, index: nat, p: seq<Cell<T>>, m: seq<Cell<T>>)
    requires Agrees(plain, memory) && Agrees(p, m) && index <= |plain|
    ensures Agrees(plain[..index] + p + plain[index..], memory[..index] + m + memory[index..])
  {
  }

  lemma AgreesAfterRemove<T>(plain: seq<Cell<T>>, memory: seq<Cell<T>>, i: nat)
    requires Agrees(plain, memory) && i < |plain|
    ensures Agrees(plain[..i] + plain[i + 1..], memory[..i] + memory[i + 1..])
  {
  }

  lemma AgreesAfter<T>(op: ArrayOp<T>, plain: seq<Cell<T>>, before: seq<Cell<T>>, after: seq<Cell<T>>)
    requires Agrees(plain, before) && Enabled(op, |before|) && Realizes(op, before, after)
    ensures Agrees(Items(op, plain), after)
  {
    match op
    case Insert(i, x) => AgreesAfterInsert(plain, before, i, [Value(x)], [Value(x)]);
    case Remove(i) => AgreesAfterRemove(plain, before, i);
    case _ =>
  }

  // ----- a pool of arrays -----

  datatype PoolOp<+T> =
    | New
    | NewZeroed(zeroBytes: T)
    | On(k: nat, op: ArrayOp<T>)
    | InsertArray(k: nat, index: nat, source: nat)
    | Append(k: nat, source: nat)
    | Copy(k: nat)
    | Destroy(k: nat)

  /** The plain counterpart of one array: its elements, its capacity according to
      `After`, and how its size has changed so far. */
  datatype Entry<+T> = Entry(alive: bool, items: seq<Cell<T>>, shape: Shape, zeroed: bool, history: seq<Resize>)

  function NewEntry<T>(zeroed: bool): Entry<T>
  {
    Entry(true, [], Start(zeroed), zeroed, [])
  }

  predicate Alive<T>(es: seq<Entry<T>>, k: int)
  {
    0 <= k < |es| && es[k].alive
  }

  /** The entry's array has the room for the change, or its new capacity fits 32 bits. */
  predicate Possible<T>(e: Entry<T>, r: Resize)
  {
    Sane(e.shape) && Allowed(e.shape, r)
  }

  predicate PoolEnabled<T>(op: PoolOp<T>, es: seq<Entry<T>>)
  {
    match op
    case New => true
    case NewZeroed(_) => true
    case On(k, op) => Alive(es, k) && Enabled(op, |es[k].items|) && Possible(es[k], ResizeOf(op))
    case InsertArray(k, index, j) =>
      && Alive(es, k) && Alive(es, j) && index <= |es[k].items|
      && Possible(es[k], Grow(|es[j].items|))
      && (j == k ==> index == |es[k].items| || es[k].items == [])
    case Append(k, j) => Alive(es, k) && Alive(es, j) && Possible(es[k], Grow(|es[j].items|))
    case Copy(k) => Alive(es, k) && Possible(NewEntry<T>(false), Redim(|es[k].items|))
    case Destroy(k) => Alive(es, k)
  }

  /** The shape of an entry is that of its array (see Pool.HoldsItems). */
  predicate Shaped<T>(e: Entry<T>)
  {
    e.shape.length == |e.items| <= e.shape.capacity <= UINT32_MAX
  }

  /** What a run may do next: anything but indices out of range, a self-insert whose memcpy
      overlaps, and capacities that wrap badly. */
  lemma EnabledOnOne<T>(es: seq<Entry<T>>, k: nat, x: T, i: nat)
    requires k < |es| && es[k].alive && Shaped(es[k])
    ensures var length, capacity := |es[k].items|, es[k].shape.capacity;
            var fits := Fits(length, capacity, 1);
            && (PoolEnabled(On(k, Push(x)), es) <==> fits)
            && (PoolEnabled(On(k, Shift(x)), es) <==> fits)
            && (PoolEnabled(On(k, Insert(i, x)), es) <==> i <= length && fits)
            && (PoolEnabled(On(k, Remove(i)), es) <==> i < length)
            && (PoolEnabled(On(k, Pop), es) <==> 0 < length)
            && PoolEnabled(On(k, Zero(x)), es)
            && (PoolEnabled(On(k, Set(i, x)), es) <==> i < length)
  {
  }

  lemma EnabledSizes<T>(es: seq<Entry<T>>, k: nat, n: nat)
    requires k < |es| && es[k].alive && Shaped(es[k])
    ensures var length, capacity := |es[k].items|, es[k].shape.capacity;
            && (PoolEnabled(On(k, SetDim(n)), es) <==> Settable(length, capacity, n))
            && (PoolEnabled(On(k, Reserve(n)), es) <==>
                  Reservable(length, capacity, n) && length <= Reserved(length, capacity, n))
            && PoolEnabled(Copy(k), es) && PoolEnabled(Destroy(k), es)
  {
  }

  lemma EnabledOnTwo<T>(es: seq<Entry<T>>, k: nat, j: nat, i: nat)
    requires k < |es| && es[k].alive && Shaped(es[k]) && j < |es| && es[j].alive
    ensures var length, capacity := |es[k].items|, es[k].shape.capacity;
            var fits := Fits(length, capacity, |es[j].items|);
            && (PoolEnabled(Append(k, j), es) <==> fits)
            && (PoolEnabled(InsertArray(k, i, j), es) <==>
                  i <= length && fits && (k == j ==> i == length || length == 0))
  {
  }

  /** The entry after its items and its size have changed. */
  function Changed<T>(e: Entry<T>, items: seq<Cell<T>>, r: Resize): Entry<T>
    requires Possible(e, r)
  {
    e.(items := items, shape := After(e.shape, r), history := e.history + [r])
  }

  function EntryStep<T>(e: Entry<T>, op: ArrayOp<T>): Entry<T>
    requires Enabled(op, |e.items|) && Possible(e, ResizeOf(op))
  {
    Changed(e, Items(op, e.items), ResizeOf(op))
  }

  function Inserted<T>(e: Entry<T>, index: nat, source: seq<Cell<T>>): Entry<T>
    requires index <= |e.items| && Possible(e, Grow(|source|))
  {
    Changed(e, e.items[..index] + source + e.items[index..], Grow(|source|))
  }

  function CopyOf<T>(e: Entry<T>): Entry<T>
    requires Possible(NewEntry<T>(false), Redim(|e.items|))
  {
    Changed(NewEntry<T>(false), e.items, Redim(|e.items|))
  }

  function PoolStep<T>(es: seq<Entry<T>>, op: PoolOp<T>): seq<Entry<T>>
    requires PoolEnabled(op, es)
  {
    match op
    case New => es + [NewEntry(false)]
    case NewZeroed(_) => es + [NewEntry(true)]
    case On(k, op) => es[k := EntryStep(es[k], op)]
    case InsertArray(k, index, j) => es[k := Inserted(es[k], index, es[j].items)]
    case Append(k, j) => es[k := Inserted(es[k], |es[k].items|, es[j].items)]
    case Copy(k) => es + [CopyOf(es[k])]
    case Destroy(k) => es[k := es[k].(alive := false)]
  }

  predicate RunEnabled<T>(es: seq<Entry<T>>, ops: seq<PoolOp<T>>)
    decreases |ops|
  {
    ops == [] || (PoolEnabled(ops[0], es) && RunEnabled(PoolStep(es, ops[0]), ops[1..]))
  }

  function PoolRun<T>(es: seq<Entry<T>>, ops: seq<PoolOp<T>>): seq<Entry<T>>
    requires RunEnabled(es, ops)
    decreases |ops|
  {
    if ops == [] then es else PoolRun(PoolStep(es, ops[0]), ops[1..])
  }

  /** Each operation changes the one array it is applied to, or adds one. */
  lemma StepMeaning<T>(es: seq<Entry<T>>, op: PoolOp<T>, l: nat)
    requires PoolEnabled(op, es) && l < |es|
    ensures var after := PoolStep(es, op);
            match op
            case On(k, o) =>
              && |after| == |es| && after[k].alive && after[k].items == Items(o, es[k].items)
              && (l != k ==> after[l] == es[l])
            case InsertArray(k, index, j) =>
              && |after| == |es| && after[k].alive
              && after[k].items == es[k].items[..index] + es[j].items + es[k].items[index..]
              && (l != k ==> after[l] == es[l])
            case Append(k, j) =>
              && |after| == |es| && after[k].alive && after[k].items == es[k].items + es[j].items
              && (l != k ==> after[l] == es[l])
            case Copy(k) =>
              && |after| == |es| + 1 && after[..|es|] == es
              && after[|es|].alive && after[|es|].items == es[k].items
            case Destroy(k) => |after| == |es| && !after[k].alive && (l != k ==> after[l] == es[l])
            case _ => |after| == |es| + 1 && after[..|es|] == es && after[|es|].alive && after[|es|].items == []
  {
  }

  /** A run does its operations one after another. */
  lemma {:induction false} RunsCompose<T>(es: seq<Entry<T>>, ops: seq<PoolOp<T>>, op: PoolOp<T>)
    requires RunEnabled(es, ops) && PoolEnabled(op, PoolRun(es, ops))
    ensures PoolRun(es, []) == es
    ensures RunEnabled(es, ops + [op]) && PoolRun(es, ops + [op]) == PoolStep(PoolRun(es, ops), op)
    decreases |ops|
  {
    if ops == [] {
      assert [op][1..] == [];
      assert [] + [op] == [op];
      assert RunEnabled(PoolStep(es, op), []);
    } else {
      RunsCompose(PoolStep(es, ops[0]), ops[1..], op);
      assert (ops + [op])[1..] == ops[1..] + [op];
    }
  }

  /** One more step of a history. */
  lemma ReachedStep(zeroed: bool, history: seq<Resize>, s: Shape, r: Resize)
    requires Reached(zeroed, history, s) && Sane(s) && Allowed(s, r)
    ensures Reached(zeroed, history + [r], After(s, r))
  {
    assert (history + [r])[..|history|] == history;
  }

  // ----- one array and its entry -----

  /** The array is what its entry says. */
  ghost predicate Matches<T(!new)>(a: Array<T>, e: Entry<T>)
    requires a.Valid()
    reads a, a.heap
  {
    Agrees(e.items, a.Contents()) && e.shape == a.Shape() && Reached(e.zeroed, e.history, e.shape)
  }

  method ApplyAddition<T(==, !new)>(a: Array<T>, op: ArrayOp<T>)
    requires op.Push? || op.Shift? || op.Insert?
    requires a.Valid() && Enabled(op, a.length) && Allowed(a.Shape(), ResizeOf(op))
    modifies a, a.heap
    ensures a.Valid() && a.Framed()
    ensures Realizes(op, old(a.Contents()), a.Contents())
    ensures a.Shape() == old(After(a.Shape(), ResizeOf(op)))
  {
    match op
    case Push(x) => a.Push(x);
    case Shift(x) => a.Shift(x);
    case Insert(i, x) => a.Insert(i, x);
  }

  method Apply<T(==, !new)>(a: Array<T>, op: ArrayOp<T>)
    requires a.Valid() && Enabled(op, a.length) && Allowed(a.Shape(), ResizeOf(op))
    modifies a, a.heap
    ensures a.Valid() && a.Framed()
    ensures Realizes(op, old(a.Contents()), a.Contents())
    ensures a.Shape() == old(After(a.Shape(), ResizeOf(op)))
  {
    match op
    case Remove(i) => a.Remove(i);
    case Pop => var c := a.Pop();
    case SetDim(n) => a.SetDim(n);
    case Reserve(n) => a.Reserve(n);
    case Zero(z) => a.Zero(z);
    case Set(i, x) => a.Set(i, x);
    case _ => ApplyAddition(a, op);
  }

  method Execute<T(==, !new)>(a: Array<T>, op: ArrayOp<T>, ghost e: Entry<T>)
    requires a.Valid() && Matches(a, e) && Enabled(op, |e.items|) && Possible(e, ResizeOf(op))
    modifies a, a.heap
    ensures a.Valid() && a.Framed() && Matches(a, EntryStep(e, op))
  {
    ReachedStep(e.zeroed, e.history, a.Shape(), ResizeOf(op));
    Apply(a, op);
    AgreesAfter(op, e.items, old(a.Contents()), a.Contents());
  }

  method ExecuteInsert<T(==, !new)>(a: Array<T>, index: nat, source: Array<T>, ghost e: Entry<T>, ghost f: Entry<T>)
    requires a.Valid() && source.Valid() && a.heap == source.heap && (a == source || a.Owned() !! source.Owned())
    requires Matches(a, e) && Matches(source, f) && index <= a.length && Possible(e, Grow(source.length))
    requires a == source ==> index == a.length || a.length == 0
    modifies a, a.heap
    ensures a.Valid() && a.Framed() && Matches(a, Inserted(e, index, f.items))
  {
    ReachedStep(e.zeroed, e.history, a.Shape(), Grow(source.length));
    AgreesAfterInsert(e.items, a.Contents(), index, f.items, source.Contents());
    a.InsertArray(index, source);
  }

  lemma KeysApart<T>(before: map<Block, seq<Cell<T>>>, after: map<Block, seq<Cell<T>>>, extra: set<Block>)
    requires after - extra == before && extra <= after.Keys
    ensures before.Keys + extra == after.Keys && before.Keys !! extra
  {
    assert (after - extra).Keys == after.Keys - extra;
  }

  class Pool<T(==, !new)> {
    const heap: Heap<T>
    var arrays: seq<Array<T>>
    ghost var entries: seq<Entry<T>>
    /** Which array each live block belongs to. */
    ghost var owner: map<Block, nat>
    /** Where each array is; so no array is in two places. */
    ghost var position: map<Array<T>, nat>

    constructor ()
      ensures Valid() && fresh(heap) && entries == []
    {
      heap := new Heap();
      arrays, entries, owner, position := [], [], map[], map[];
    }

    /** Array k is sound, is what its entry says, and owns the blocks recorded for it. */
    ghost predicate Good(k: nat)
      reads this, heap, arrays
    {
      && k < |arrays| && k < |entries|
      && arrays[k].heap == heap && arrays[k].Valid() && Matches(arrays[k], entries[k])
      && (forall b :: b in arrays[k].Owned() ==> b in owner && owner[b] == k)
    }

    /** Each live block outside `extra` belongs to exactly one live array. */
    ghost predicate ValidApart(extra: set<Block>)
      reads this, heap, arrays
    {
      && heap.Valid() && |arrays| == |entries|
      && owner.Keys + extra == heap.blocks.Keys && owner.Keys !! extra
      && (forall k :: 0 <= k < |arrays| ==> arrays[k] in position && position[arrays[k]] == k)
      && (forall k {:trigger Alive(entries, k)} :: Alive(entries, k) ==> Good(k))
      && (forall b :: b in owner ==> Alive(entries, owner[b]) && b in arrays[owner[b]].Owned())
    }

    ghost predicate Valid()
      reads this, heap, arrays
    {
      ValidApart({})
    }

    /** An operation on array k leaves every other array good. */
    twostate lemma OtherGood(new k: nat, new l: nat)
      requires k < |arrays| && l < |arrays| && k != l && arrays == old(arrays) && arrays[k] != arrays[l]
      requires old(Good(k)) && old(Good(l)) && arrays[k].heap == heap
      requires heap.Valid() && arrays[k].Framed() && unchanged(arrays[l])
      requires l < |entries| && entries[l] == old(entries[l])
      requires forall b :: b in arrays[l].Owned() ==> b in owner && owner[b] == l
      ensures Good(l)
    {
      arrays[k].OtherKept(arrays[l]);
    }

    /** The owners after array k has changed. */
    ghost function OwnerAfter(k: nat): map<Block, nat>
      requires k < |arrays|
      reads this, heap, arrays
    {
      map b | b in heap.blocks :: if b in arrays[k].Owned() || b !in owner then k else owner[b]
    }

    /** Blocks of other arrays stay where they were. */
    twostate lemma BlockStays(new k: nat, new b: Block)
      requires k < |arrays| && arrays == old(arrays) && arrays[k].heap == heap
      requires arrays[k].Framed() && (forall c :: c in old(arrays[k].Owned()) ==> c in old(owner) && old(owner)[c] == k)
      requires old(owner).Keys == old(heap.blocks).Keys && b in old(owner) && old(owner)[b] != k
      ensures b in heap.blocks && b !in arrays[k].Owned()
    {
      assert b in old(heap.blocks) - old(arrays[k].Owned());
      assert b in heap.blocks - arrays[k].Owned();
    }

    twostate lemma BlockWasThere(new k: nat, new b: Block)
      requires k < |arrays| && arrays == old(arrays) && arrays[k].heap == heap && arrays[k].Framed()
      requires b in heap.blocks && b !in arrays[k].Owned()
      ensures b in old(heap.blocks) && b !in old(arrays[k].Owned())
    {
      assert b in heap.blocks - arrays[k].Owned();
      assert b in old(heap.blocks) - old(arrays[k].Owned());
    }

    /** The owners as recorded after array k has changed. */
    twostate predicate OwnersUpdated(new k: nat)
      requires k < |arrays|
      reads this, heap, arrays
    {
      && owner.Keys == heap.blocks.Keys
      && forall b :: b in owner ==>
           owner[b] == if b in arrays[k].Owned() || b !in old(owner) then k else old(owner)[b]
    }

    twostate lemma OthersGood(new k: nat, new l: nat)
      requires old(Valid()) && Alive(old(entries), k) && Alive(old(entries), l) && k != l
      requires arrays == old(arrays) && heap.Valid() && arrays[k].Framed() && unchanged(arrays[l])
      requires OwnersUpdated(k) && |entries| == |old(entries)| && entries[l] == old(entries)[l]
      ensures Good(l)
    {
      assert old(Good(k)) && old(Good(l));
      forall b | b in arrays[l].Owned()
        ensures b in owner && owner[b] == l
      {
        BlockStays(k, b);
      }
      OtherGood(k, l);
    }

    twostate lemma OwnerIsAlive(new k: nat, new b: Block)
      requires old(Valid()) && Alive(old(entries), k) && Alive(entries, k) && |entries| == |old(entries)|
      requires arrays == old(arrays) && heap.Valid() && arrays[k].heap == heap && arrays[k].Framed()
      requires forall l :: 0 <= l < |arrays| && l != k ==> unchanged(arrays[l]) && entries[l] == old(entries)[l]
      requires OwnersUpdated(k) && b in owner
      ensures Alive(entries, owner[b]) && b in arrays[owner[b]].Owned()
    {
      if b !in arrays[k].Owned() {
        BlockWasThere(k, b);
        assert Alive(old(entries), owner[b]) && b in old(arrays[owner[b]].Owned());
      }
    }

    /** An operation on array k alone keeps the pool, once its entry and the owners are recorded. */
    twostate lemma PoolKept(new k: nat, new e: Entry<T>)
      requires old(Valid()) && Alive(old(entries), k) && arrays == old(arrays) && position == old(position)
      requires heap.Valid() && arrays[k].Valid() && arrays[k].Framed() && e.alive && Matches(arrays[k], e)
      requires forall l :: 0 <= l < |arrays| && l != k ==> unchanged(arrays[l])
      requires entries == old(entries)[k := e] && OwnersUpdated(k)
      ensures Valid()
    {
      assert old(Good(k));
      forall l | Alive(entries, l) && l != k
        ensures Good(l)
      {
        OthersGood(k, l);
      }
      forall b | b in owner
        ensures Alive(entries, owner[b]) && b in arrays[owner[b]].Owned()
      {
        OwnerIsAlive(k, b);
      }
      assert owner.Keys + {} == heap.blocks.Keys;
      assert Good(k);
    }

    /** Array k and the heap have changed; the pool's records have not yet. */
    twostate predicate Unrecorded(new k: nat)
      reads this, heap, arrays
    {
      && k < |arrays| && arrays == old(arrays) && entries == old(entries)
      && owner == old(owner) && position == old(position)
      && arrays[k].heap == heap && heap.Valid() && arrays[k].Valid() && arrays[k].Framed()
      && (forall l :: 0 <= l < |arrays| && l != k ==> unchanged(arrays[l]))
    }

    method PerformUnrecorded(k: nat, op: ArrayOp<T>)
      requires Valid() && PoolEnabled(On(k, op), entries)
      modifies heap, arrays
      ensures Unrecorded(k) && Matches(arrays[k], EntryStep(entries[k], op))
    {
      assert Good(k);
      Execute(arrays[k], op, entries[k]);
    }

    method Perform(k: nat, op: ArrayOp<T>)
      requires Valid() && PoolEnabled(On(k, op), entries)
      modifies this, heap, arrays
      ensures Valid() && arrays == old(arrays) && entries == PoolStep(old(entries), On(k, op))
    {
      ghost var e := EntryStep(entries[k], op);
      PerformUnrecorded(k, op);
      owner := OwnerAfter(k);
      entries := entries[k := e];
      PoolKept(k, e);
    }

    lemma OwnedApart(k: nat, j: nat)
      requires Valid() && Alive(entries, k) && Alive(entries, j)
      ensures Good(k) && Good(j)
      ensures k != j ==> arrays[k] != arrays[j] && arrays[k].Owned() !! arrays[j].Owned()
    {
    }

    method InsertUnrecorded(k: nat, index: nat, j: nat)
      requires Valid() && PoolEnabled(InsertArray(k, index, j), entries)
      modifies heap, arrays
      ensures Unrecorded(k) && Matches(arrays[k], Inserted(entries[k], index, entries[j].items))
    {
      OwnedApart(k, j);
      ExecuteInsert(arrays[k], index, arrays[j], entries[k], entries[j]);
    }

    method InsertFrom(k: nat, index: nat, j: nat)
      requires Valid() && PoolEnabled(InsertArray(k, index, j), entries)
      modifies this, heap, arrays
      ensures Valid() && arrays == old(arrays) && entries == PoolStep(old(entries), InsertArray(k, index, j))
    {
      ghost var e := Inserted(entries[k], index, entries[j].items);
      InsertUnrecorded(k, index, j);
      owner := OwnerAfter(k);
      entries := entries[k := e];
      PoolKept(k, e);
    }

    /** Recording something about one more array does not concern array l. */
    twostate lemma GoodStill(new l: nat)
      requires old(Good(l)) && l < |arrays| && arrays[l] == old(arrays[l])
      requires l < |entries| && entries[l] == old(entries[l])
      requires unchanged(heap) && unchanged(arrays[l])
      requires forall b :: b in old(owner) && old(owner)[b] == l ==> b in owner && owner[b] == l
      ensures Good(l)
    {
    }

    twostate lemma OwnerStill(new b: Block)
      requires b in old(owner) && b in owner && owner[b] == old(owner)[b]
      requires Alive(old(entries), owner[b]) && |old(entries)| == |old(arrays)| && b in old(arrays[owner[b]].Owned())
      requires owner[b] < |entries| && entries[owner[b]] == old(entries)[owner[b]]
      requires owner[b] < |arrays| && arrays[owner[b]] == old(arrays)[owner[b]] && unchanged(arrays[owner[b]])
      ensures Alive(entries, owner[b]) && b in arrays[owner[b]].Owned()
    {
    }

    /** Takes in a new array, whose blocks no array of the pool owns yet. */
    method Adopt(a: Array<T>, ghost e: Entry<T>)
      requires a.heap == heap && a.Valid() && ValidApart(a.Owned()) && a !in position
      requires e.alive && Matches(a, e)
      modifies this
      ensures Valid() && arrays == old(arrays) + [a] && entries == old(entries) + [e]
    {
      ghost var k := |arrays|;
      ghost var added: map<Block, nat> := map b | b in a.Owned() :: k;
      arrays := arrays + [a];
      entries := entries + [e];
      position := position[a := k];
      owner := owner + added;
      AdoptRecorded(a, e, added);
    }

    twostate lemma AdoptRecorded(a: Array<T>, new e: Entry<T>, new added: map<Block, nat>)
      requires old(ValidApart(a.Owned())) && a !in old(position) && a.heap == heap && a.Valid()
      requires e.alive && Matches(a, e) && unchanged(heap) && unchanged(a)
      requires forall l :: 0 <= l < |old(arrays)| ==> unchanged(old(arrays)[l])
      requires arrays == old(arrays) + [a] && entries == old(entries) + [e]
      requires position == old(position)[a := |old(arrays)|]
      requires added.Keys == a.Owned() && (forall b :: b in added ==> added[b] == |old(arrays)|)
      requires owner == old(owner) + added
      ensures Valid()
    {
      ghost var k := |old(arrays)|;
      assert owner.Keys + {} == heap.blocks.Keys;
      assert Good(k);
      forall l | Alive(entries, l) && l != k
        ensures Good(l)
      {
        assert Alive(old(entries), l);
        GoodStill(l);
      }
      forall b | b in owner
        ensures Alive(entries, owner[b]) && b in arrays[owner[b]].Owned()
      {
        if b !in added {
          ghost var l := old(owner)[b];
          assert Alive(old(entries), l) && arrays[l] == old(arrays)[l] && owner[b] == l;
          OwnerStill(b);
        }
      }
    }

    method AddNew()
      requires Valid()
      modifies this
      ensures Valid() && entries == PoolStep(old(entries), New)
      ensures |arrays| == |old(arrays)| + 1 && old(arrays) <= arrays && fresh(arrays[|old(arrays)|])
    {
      var a := new Array(heap);
      Adopt(a, NewEntry(false));
    }

    method AddZeroed(zeroBytes: T)
      requires Valid()
      modifies this
      ensures Valid() && entries == PoolStep(old(entries), NewZeroed(zeroBytes))
      ensures |arrays| == |old(arrays)| + 1 && old(arrays) <= arrays && fresh(arrays[|old(arrays)|])
    {
      var a := new Array.Zeroed(heap, zeroBytes);
      Adopt(a, NewEntry(true));
    }

    lemma CopyMatches(a: Array<T>, e: Entry<T>)
      requires a.Valid() && Agrees(e.items, a.Contents()) && a.Shape() == After(Start(false), Redim(|e.items|))
      requires Possible(NewEntry<T>(false), Redim(|e.items|))
      ensures Matches(a, CopyOf(e))
    {
      ReachedStep(false, [], Start(false), Redim(|e.items|));
    }

    /** Array k is copied; only new blocks appear. */
    method CopyUnrecorded(k: nat) returns (a: Array<T>)
      requires Valid() && PoolEnabled(Copy(k), entries)
      modifies heap
      ensures fresh(a) && a.heap == heap && a.Valid() && ValidApart(a.Owned()) && a !in position
      ensures Agrees(entries[k].items, a.Contents())
      ensures a.Shape() == After(Start(false), Redim(|entries[k].items|))
    {
      a := arrays[k].Copy();
      PoolWithMore(a.Owned());
    }

    /** New blocks that no array of the pool owns. */
    twostate lemma PoolWithMore(new extra: set<Block>)
      requires old(Valid()) && unchanged(this) && heap.Valid()
      requires forall l :: 0 <= l < |arrays| ==> unchanged(arrays[l])
      requires heap.blocks - extra == old(heap.blocks) && extra <= heap.blocks.Keys
      ensures ValidApart(extra)
    {
      KeysApart(old(heap.blocks), heap.blocks, extra);
      forall l | Alive(entries, l)
        ensures Good(l)
      {
        assert old(Good(l));
        GoodWithMore(l, extra);
      }
      forall b | b in owner
        ensures Alive(entries, owner[b]) && b in arrays[owner[b]].Owned()
      {
        OwnerStill(b);
      }
    }

    /** New blocks do not concern array l. */
    twostate lemma GoodWithMore(new l: nat, new extra: set<Block>)
      requires old(Good(l)) && unchanged(this) && unchanged(arrays[l]) && heap.Valid()
      requires heap.blocks - extra == old(heap.blocks)
      ensures Good(l)
    {
      forall b | b in old(heap.blocks)
        ensures b in heap.blocks && heap.blocks[b] == old(heap.blocks)[b]
      {
        assert b in heap.blocks - extra;
        assert (heap.blocks - extra)[b] == old(heap.blocks)[b];
      }
    }

    /** An array can always be copied. */
    lemma CopyIsEnabled(k: nat)
      requires Valid() && Alive(entries, k)
      ensures PoolEnabled(Copy(k), entries)
    {
      assert Good(k);
    }

    method CopyArray(k: nat)
      requires Valid() && PoolEnabled(Copy(k), entries)
      modifies this, heap
      ensures Valid() && entries == PoolStep(old(entries), Copy(k))
      ensures |arrays| == |old(arrays)| + 1 && old(arrays) <= arrays && fresh(arrays[|old(arrays)|])
    {
      var a := CopyUnrecorded(k);
      CopyMatches(a, entries[k]);
      Adopt(a, CopyOf(entries[k]));
    }

    /** The blocks of array k are gone; the pool's records are as they were. */
    twostate predicate Freed(new k: nat)
      reads this, heap, arrays
    {
      && k < |arrays| && arrays == old(arrays) && entries == old(entries)
      && owner == old(owner) && position == old(position)
      && heap.Valid() && heap.blocks == old(heap.blocks) - old(arrays[k].Owned())
      && (forall l :: 0 <= l < |arrays| ==> unchanged(arrays[l]))
    }

    method DestroyUnrecorded(k: nat)
      requires Valid() && Alive(entries, k)
      modifies heap
      ensures Freed(k)
    {
      assert Good(k);
      arrays[k].Destroy();
    }

    method DestroyArray(k: nat)
      requires Valid() && PoolEnabled(Destroy(k), entries)
      modifies this, heap
      ensures Valid() && arrays == old(arrays) && entries == PoolStep(old(entries), Destroy(k))
    {
      ghost var owned := arrays[k].Owned();
      DestroyUnrecorded(k);
      owner := owner - owned;
      entries := entries[k := entries[k].(alive := false)];
      DestroyRecorded(k, owned);
    }

    twostate lemma DestroyRecorded(new k: nat, new owned: set<Block>)
      requires old(Valid()) && Alive(old(entries), k) && arrays == old(arrays) && position == old(position)
      requires forall l :: 0 <= l < |arrays| ==> unchanged(arrays[l])
      requires owned == old(arrays[k].Owned()) && heap.Valid() && heap.blocks == old(heap.blocks) - owned
      requires owner == old(owner) - owned && entries == old(entries)[k := old(entries)[k].(alive := false)]
      ensures Valid()
    {
      assert owner.Keys + {} == heap.blocks.Keys;
      forall l | Alive(entries, l)
        ensures Good(l)
      {
        GoodWithLess(k, owned, l);
      }
      forall b | b in owner
        ensures Alive(entries, owner[b]) && b in arrays[owner[b]].Owned()
      {
        OwnerSurvives(k, owned, b);
      }
    }

    twostate lemma OwnerSurvives(new k: nat, new owned: set<Block>, new b: Block)
      requires old(Valid()) && Alive(old(entries), k) && arrays == old(arrays)
      requires forall l :: 0 <= l < |arrays| ==> unchanged(arrays[l])
      requires owned == old(arrays[k].Owned())
      requires owner == old(owner) - owned && entries == old(entries)[k := old(entries)[k].(alive := false)]
      requires b in owner
      ensures Alive(entries, owner[b]) && b in arrays[owner[b]].Owned()
    {
      ghost var l := old(owner)[b];
      assert Alive(old(entries), l) && owner[b] == l && l != k;
      OwnerStill(b);
    }

    /** Freeing the blocks of array k does not concern array l. */
    twostate lemma GoodWithLess(new k: nat, new owned: set<Block>, new l: nat)
      requires old(Valid()) && Alive(old(entries), k) && Alive(old(entries), l) && k != l && arrays == old(arrays)
      requires unchanged(arrays[l])
      requires |entries| == |arrays| && entries[l] == old(entries)[l] && heap.Valid()
      requires owned == old(arrays[k].Owned()) && heap.blocks == old(heap.blocks) - owned && owner == old(owner) - owned
      ensures Good(l)
    {
      assert old(Good(k)) && old(Good(l));
      assert arrays[l].Owned() == old(arrays[l].Owned());
      if arrays[l].capacity > SMALLARRAYCAP {
        assert arrays[l].storage.block in old(heap.blocks) - owned;
      }
    }

    /** One operation, whichever it is. */
    method Step(op: PoolOp<T>)
      requires Valid() && PoolEnabled(op, entries)
      modifies this, heap, arrays
      ensures Valid() && entries == PoolStep(old(entries), op)
      ensures old(arrays) <= arrays && forall k :: |old(arrays)| <= k < |arrays| ==> fresh(arrays[k])
    {
      match op
      case New => AddNew();
      case NewZeroed(z) => AddZeroed(z);
      case On(k, o) => Perform(k, o);
      case InsertArray(k, index, j) => InsertFrom(k, index, j);
      case Append(k, j) => assert Good(k); InsertFrom(k, arrays[k].length, j);
      case Copy(k) => CopyArray(k);
      case Destroy(k) => DestroyArray(k);
    }

    /** Any run of enabled operations: afterwards every live array holds what the same
        run makes of plain sequences, and the blocks are owned as Valid says. */
    method Run(ops: seq<PoolOp<T>>)
      requires Valid() && RunEnabled(entries, ops)
      modifies this, heap, arrays
      decreases |ops|
      ensures Valid() && entries == PoolRun(old(entries), ops)
      ensures old(arrays) <= arrays && forall k :: |old(arrays)| <= k < |arrays| ==> fresh(arrays[k])
    {
      if ops != [] {
        Step(ops[0]);
        Run(ops[1..]);
      }
    }

    /** Written out: a live array holds the elements of its plain counterpart, wherever
        they are defined. */
    lemma HoldsItems(k: nat)
      requires Valid() && k < |entries| && entries[k].alive
      ensures k < |arrays| && arrays[k].heap == heap && arrays[k].Valid() && arrays[k].length == |entries[k].items|
      ensures entries[k].shape.length == arrays[k].length && entries[k].shape.capacity == arrays[k].capacity
      ensures forall i :: 0 <= i < arrays[k].length && entries[k].items[i].Value? ==>
                arrays[k].Contents()[i] == entries[k].items[i]
    {
      assert Alive(entries, k) && Good(k);
    }

    /** And the ownership: a live array owns a block exactly when its capacity exceeds the
        inline one, the block has as many cells, each live block has such an owner, and no
        two arrays share one. */
    lemma StorageIsExact(k: nat)
      requires Valid() && k < |entries| && entries[k].alive
      ensures k < |arrays|
      ensures 1 < arrays[k].capacity ==>
                && arrays[k].storage.Pointer? && arrays[k].storage.block in heap.blocks
                && |heap.blocks[arrays[k].storage.block]| == arrays[k].capacity
      ensures arrays[k].capacity <= 1 ==> arrays[k].storage.Inline?
    {
      assert Alive(entries, k) && Good(k);
    }

    lemma NoSharedBlock(k: nat, j: nat)
      requires Valid() && k < |entries| && entries[k].alive && j < |entries| && entries[j].alive
      requires k != j && k < |arrays| && j < |arrays| && 1 < arrays[k].capacity && 1 < arrays[j].capacity
      ensures arrays[k].storage != arrays[j].storage
    {
      OwnedApart(k, j);
      StorageIsExact(k);
      StorageIsExact(j);
      assert arrays[k].storage.block in arrays[k].Owned() && arrays[j].storage.block in arrays[j].Owned();
    }

    lemma EveryBlockIsOwned(b: Block) returns (k: nat)
      requires Valid() && b in heap.blocks
      ensures k < |entries| && entries[k].alive && k < |arrays|
      ensures 1 < arrays[k].capacity && arrays[k].storage == Pointer(b)
    {
      assert b in owner.Keys + {};
      k := owner[b];
      assert Alive(entries, k) && b in arrays[k].Owned();
    }

    /** What the capacity results say about array k of any pool that a run has reached. */
    lemma CostOfArray(k: nat)
      requires Valid() && Alive(entries, k)
      ensures (forall r :: r in entries[k].history ==> r == Grow(1) || r == Drop || r == Touch) ==>
                arrays[k].relocated <= 4 * Additions(entries[k].history)
      ensures (forall r :: r in entries[k].history ==> !r.Room?) ==>
                2 * arrays[k].capacity <= Max(2, 3 * Peak(entries[k].history))
    {
      var e := entries[k];
      assert Good(k);
      if forall r :: r in e.history ==> r == Grow(1) || r == Drop || r == Touch {
        AmortisedCost(e.zeroed, e.history, arrays[k].Shape());
      }
      if forall r :: r in e.history ==> !r.Room? {
        CapacityBound(e.zeroed, e.history, arrays[k].Shape());
      }
    }

    /** When a run has destroyed every array, nothing is live, and every block that was
        ever allocated has been freed exactly once. */
    lemma NothingLeaks()
      requires Valid() && forall k :: !Alive(entries, k)
      ensures heap.blocks == map[]
      ensures forall b: Block :: heap.freed[b] == if b < heap.next then 1 else 0
    {
      assert owner == map[];
      assert heap.blocks.Keys == {};
    }
  }
}
