/**
 Capacity arithmetic of the array template, in its 32-bit fields, and what it
 means over whole runs: room, amortised cost and the bound on waste.
 */
module ArrayCapacity {

  const SMALLARRAYCAP: nat := 1
  const UINT32_MAX: nat := 0xFFFF_FFFF

  /** Assignment to a uint32_t. */
  function Wrap32(x: nat): (r: nat)
    ensures r <= UINT32_MAX
    ensures if x <= UINT32_MAX then r == x else r <= x - 0x1_0000_0000
  {
    x % 0x1_0000_0000
  }

  function Max(a: nat, b: nat): nat { if a < b then b else a }
  function Min(a: nat, b: nat): nat { if a < b then a else b }

  /** length, capacity (the field `allocated`), and the number of elements copied so far because of growth. */
  datatype Shape = Shape(length: nat, capacity: nat, relocated: nat)

  predicate Sane(s: Shape)
  {
    s.length <= s.capacity <= UINT32_MAX
  }

  /** A constructed array, or one that somebody memset to zero. */
  function Start(zeroed: bool): Shape
  {
    Shape(0, if zeroed then 0 else SMALLARRAYCAP, 0)
  }

  /** The value `reserve` stores into `allocated`. */
  function Reserved(length: nat, capacity: nat, nentries: nat): nat
    requires length <= capacity
  {
    if capacity - length >= nentries then capacity
    else if capacity == 0 then if nentries <= SMALLARRAYCAP then SMALLARRAYCAP else Wrap32(nentries)
    else if capacity <= SMALLARRAYCAP then Wrap32(length + nentries)
    else if nentries > length / 2 then Wrap32(length + Wrap32(nentries))
    else Wrap32(length + length / 2)
  }

  /** The elements `reserve` copies: the inline element when it leaves the header,
      the whole old block when it reallocates. */
  function Relocation(length: nat, capacity: nat, nentries: nat): nat
    requires length <= capacity
  {
    if capacity - length >= nentries || capacity == 0 then 0
    else if capacity <= SMALLARRAYCAP then length
    else capacity
  }

  /** Either there is room already, or the new capacity is representable. */
  predicate Fits(length: nat, capacity: nat, nentries: nat)
    requires length <= capacity
  {
    || capacity - length >= nentries
    || length + (if capacity <= SMALLARRAYCAP then nentries else Max(nentries, length / 2)) <= UINT32_MAX
  }

  /** `reserve` makes room exactly when the new capacity fits 32 bits; then it never shrinks. */
  lemma ReserveMakesRoom(length: nat, capacity: nat, nentries: nat)
    requires length <= capacity <= UINT32_MAX
    ensures Reserved(length, capacity, nentries) >= length + nentries <==> Fits(length, capacity, nentries)
    ensures Fits(length, capacity, nentries) ==> Reserved(length, capacity, nentries) >= capacity
  {
  }

  /** `reserve` leaves a sound buffer: there is room, or what is allocated instead is still
      large enough to count as a heap block. A capacity that truncates to 0 or 1 makes
      `data()` read the bytes of the block's pointer as the inline element. */
  predicate Reservable(length: nat, capacity: nat, nentries: nat)
    requires length <= capacity
  {
    Fits(length, capacity, nentries) || SMALLARRAYCAP < Reserved(length, capacity, nentries)
  }

  /** What `setDim` can be asked for: a dimension that fits, or one beyond 32 bits, which
      is truncated together with the capacity. */
  predicate Settable(length: nat, capacity: nat, newdim: nat)
    requires length <= capacity
  {
    || newdim <= length
    || Fits(length, capacity, newdim - length)
    || (UINT32_MAX < newdim && SMALLARRAYCAP < Reserved(length, capacity, newdim - length))
  }

  /** The capacity that `setDim` leaves. */
  function DimCapacity(length: nat, capacity: nat, newdim: nat): nat
    requires length <= capacity
  {
    if length < newdim then Reserved(length, capacity, newdim - length) else capacity
  }

  /** Reserving room for nentries allocates a block. */
  predicate Allocates(length: nat, capacity: nat, nentries: nat)
    requires length <= capacity
  {
    capacity - length < nentries && !(capacity == 0 && nentries <= SMALLARRAYCAP)
  }

  lemma WrapTwice(a: nat, b: nat)
    ensures Wrap32(a + Wrap32(b)) == Wrap32(a + b)
  {
    var q := b / 0x1_0000_0000;
    assert a + b == a + Wrap32(b) + q * 0x1_0000_0000;
  }

  /** A dimension beyond 32 bits is truncated to one for which the new capacity suffices. */
  lemma TruncatedDimension(length: nat, capacity: nat, newdim: nat)
    requires length <= capacity <= UINT32_MAX < newdim
    ensures !Fits(length, capacity, newdim - length)
    ensures var c := Reserved(length, capacity, newdim - length);
            Wrap32(newdim) <= c && (c == Wrap32(newdim) || c < length)
  {
    var n := newdim - length;
    WrapTwice(length, n);
    if 1 < capacity && n <= length / 2 {
      assert Wrap32(length + length / 2) == length + length / 2 - 0x1_0000_0000;
      assert Wrap32(newdim) == newdim - 0x1_0000_0000;
    }
  }

  /** `setDim` leaves a sound array, whose length is within its capacity and whose storage
      is where `data()` looks for it, exactly when the dimension is settable. */
  lemma SettableIsSound(length: nat, capacity: nat, newdim: nat)
    requires length <= capacity <= UINT32_MAX
    ensures var c := DimCapacity(length, capacity, newdim);
            && Wrap32(newdim) <= c
            && (length < newdim && Allocates(length, capacity, newdim - length) ==> SMALLARRAYCAP < c)
            <==> Settable(length, capacity, newdim)
  {
    if length < newdim {
      ReserveMakesRoom(length, capacity, newdim - length);
      if UINT32_MAX < newdim {
        TruncatedDimension(length, capacity, newdim);
      }
    }
  }

  /** `reserve` itself leaves a sound array exactly when its buffer is sound and the
      elements still fit. */
  lemma ReservableIsSound(length: nat, capacity: nat, nentries: nat)
    requires length <= capacity <= UINT32_MAX
    ensures var c := Reserved(length, capacity, nentries);
            && length <= c
            && (Allocates(length, capacity, nentries) ==> SMALLARRAYCAP < c)
            <==> Reservable(length, capacity, nentries) && length <= c
  {
    ReserveMakesRoom(length, capacity, nentries);
  }

  /** It gives the array the dimension asked for exactly when that fits 32 bits. */
  lemma DimensionIsReached(length: nat, capacity: nat, newdim: nat)
    requires length <= capacity <= UINT32_MAX
    ensures Wrap32(newdim) == newdim <= DimCapacity(length, capacity, newdim)
            <==> (length < newdim ==> Fits(length, capacity, newdim - length))
  {
    if length < newdim {
      ReserveMakesRoom(length, capacity, newdim - length);
    }
  }

  /** Adding one element to a full array stays within 32 bits up to length 2863311530. */
  lemma LargestSingleGrowth(length: nat)
    requires 1 < length <= UINT32_MAX
    ensures Fits(length, length, 1) <==> length <= 2863311530
  {
  }

  // ----- runs -----

  /** What an operation does to the shape. */
  datatype Resize = Grow(count: nat) | Drop | Redim(dim: nat) | Room(nentries: nat) | Touch

  predicate Allowed(s: Shape, r: Resize)
    requires Sane(s)
  {
    match r
    case Grow(n) => Fits(s.length, s.capacity, n)
    case Drop => 0 < s.length
    case Redim(d) => Settable(s.length, s.capacity, d)
    case Room(n) =>
      Reservable(s.length, s.capacity, n) && s.length <= Reserved(s.length, s.capacity, n)
    case Touch => true
  }

  function AfterReserve(s: Shape, nentries: nat): Shape
    requires s.length <= s.capacity
  {
    s.(capacity := Reserved(s.length, s.capacity, nentries),
       relocated := s.relocated + Relocation(s.length, s.capacity, nentries))
  }

  function After(s: Shape, r: Resize): (t: Shape)
    requires Sane(s) && Allowed(s, r)
    ensures Sane(t)
  {
    match r
    case Grow(n) =>
      ReserveMakesRoom(s.length, s.capacity, n);
      AfterReserve(s, n).(length := s.length + n)
    case Drop => s.(length := s.length - 1)
    case Redim(d) =>
      SettableIsSound(s.length, s.capacity, d);
      (if s.length < d then AfterReserve(s, d - s.length) else s).(length := Wrap32(d))
    case Room(n) => AfterReserve(s, n)
    case Touch => s
  }

  /** t is reached from a start state by the operations of the history. */
  ghost predicate Reached(zeroed: bool, history: seq<Resize>, t: Shape)
  {
    if history == [] then t == Start(zeroed)
    else
      exists s :: Reached(zeroed, history[..|history| - 1], s) && Sane(s)
        && Allowed(s, history[|history| - 1]) && t == After(s, history[|history| - 1])
  }

  ghost predicate SingleSteps(history: seq<Resize>)
  {
    forall r :: r in history ==> r == Grow(1) || r.Drop? || r.Touch?
  }

  ghost function Additions(history: seq<Resize>): nat
  {
    if history == [] then 0
    else Additions(history[..|history| - 1]) + if history[|history| - 1].Grow? then 1 else 0
  }

  /** Work paid for in advance. The factor 3 on the capacity also pays at odd lengths,
      where growth by length / 2 is least. */
  function Potential(s: Shape): nat
  {
    if 4 * s.length <= 3 * s.capacity then 0 else 4 * s.length - 3 * s.capacity
  }

  lemma {:induction false} AmortisedWithPotential(zeroed: bool, history: seq<Resize>, t: Shape)
    requires Reached(zeroed, history, t) && SingleSteps(history)
    ensures Sane(t) && t.relocated + Potential(t) <= 4 * Additions(history)
  {
    if history != [] {
      var init, last := history[..|history| - 1], history[|history| - 1];
      var s :| Reached(zeroed, init, s) && Sane(s) && Allowed(s, last) && t == After(s, last);
      AmortisedWithPotential(zeroed, init, s);
      if last == Grow(1) {
        GrowthIsPaidFor(s);
      }
    }
  }

  lemma GrowthIsPaidFor(s: Shape)
    requires Sane(s) && Allowed(s, Grow(1))
    ensures var t := After(s, Grow(1));
            t.relocated + Potential(t) <= s.relocated + Potential(s) + 4
  {
  }

  /** Additions are counted one by one. */
  lemma {:induction false} AdditionsAreCounted(history: seq<Resize>)
    ensures Additions(history) == |set i | 0 <= i < |history| && history[i].Grow? :: i|
  {
    var all := set i | 0 <= i < |history| && history[i].Grow? :: i;
    if history == [] {
      assert all == {};
    } else {
      var init, n := history[..|history| - 1], |history| - 1;
      AdditionsAreCounted(init);
      var before := set i | 0 <= i < |init| && init[i].Grow? :: i;
      assert all == before + if history[n].Grow? then {n} else {};
    }
  }

  /** n additions, mixed with any pops, removes and stores, copy at most 4n elements. */
  lemma AmortisedCost(zeroed: bool, history: seq<Resize>, t: Shape)
    requires Reached(zeroed, history, t)
    requires forall r :: r in history ==> r == Grow(1) || r == Drop || r == Touch
    ensures t.relocated <= 4 * Additions(history)
  {
    AmortisedWithPotential(zeroed, history, t);
  }

  /** The longest the array has been. */
  ghost function Peak(history: seq<Resize>): nat
  {
    if history == [] then 0
    else Max(Peak(history[..|history| - 1]), LengthAfter(history))
  }

  /** It is the length after some part of the history, and no length was greater. */
  lemma {:induction false} PeakIsGreatest(history: seq<Resize>, n: nat) returns (p: nat)
    requires n <= |history|
    ensures p <= |history| && Peak(history) == LengthAfter(history[..p])
    ensures LengthAfter(history[..n]) <= Peak(history)
    decreases |history|
  {
    if history == [] {
      p := 0;
    } else {
      var init := history[..|history| - 1];
      p := PeakIsGreatest(init, if n < |history| then n else 0);
      assert history[..|history|] == history && init[..p] == history[..p];
      if n < |history| {
        assert init[..n] == history[..n];
      }
      if Peak(history) == LengthAfter(history) {
        p := |history|;
      }
    }
  }

  ghost function LengthAfter(history: seq<Resize>): nat
  {
    if history == [] then 0
    else
      var before := LengthAfter(history[..|history| - 1]);
      match history[|history| - 1]
      case Grow(n) => before + n
      case Drop => if before == 0 then 0 else before - 1
      case Redim(d) => Wrap32(d)
      case Room(_) => before
      case Touch => before
  }

  /** What fits is not wrapped, so growth stays within 1.5 times the new length. */
  lemma GrowthIsModest(length: nat, capacity: nat, nentries: nat)
    requires length <= capacity <= UINT32_MAX && Fits(length, capacity, nentries)
    ensures var c := Reserved(length, capacity, nentries);
            c == capacity || c <= 1 || 2 * c <= 3 * (length + nentries)
  {
    if capacity - length < nentries && 1 < capacity {
      var c := length + Max(nentries, length / 2);
      assert Wrap32(c) == c && Wrap32(nentries) == nentries;
    }
  }

  /** And it is at least half of the old length, rounded down, so that it pays. */
  lemma GrowthIsGenerous(length: nat, capacity: nat, nentries: nat)
    requires length <= capacity <= UINT32_MAX && Fits(length, capacity, nentries)
    requires 1 < capacity && capacity - length < nentries
    ensures 2 * Reserved(length, capacity, nentries) + 1 >= 3 * length
  {
  }

  lemma DimensionIsModest(length: nat, capacity: nat, newdim: nat)
    requires length <= capacity <= UINT32_MAX && Settable(length, capacity, newdim)
    ensures var c := DimCapacity(length, capacity, newdim);
            c == capacity || c <= 1 || 2 * c <= 3 * Max(length, Wrap32(newdim))
  {
    if UINT32_MAX < newdim {
      TruncatedDimension(length, capacity, newdim);
    } else if length < newdim {
      GrowthIsModest(length, capacity, newdim - length);
    }
  }

  lemma CapacityStep(s: Shape, r: Resize, peak: nat)
    requires Sane(s) && Allowed(s, r) && !r.Room?
    requires s.length <= peak && 2 * s.capacity <= Max(2, 3 * peak)
    ensures 2 * After(s, r).capacity <= Max(2, 3 * Max(peak, After(s, r).length))
  {
    match r
    case Grow(n) => GrowthIsModest(s.length, s.capacity, n);
    case Redim(d) => DimensionIsModest(s.length, s.capacity, d);
    case Drop =>
    case Touch =>
  }

  /** Without explicit reserve calls, capacity is at most 1.5 times the peak length. */
  lemma {:induction false} CapacityBound(zeroed: bool, history: seq<Resize>, t: Shape)
    requires Reached(zeroed, history, t)
    requires forall r :: r in history ==> !r.Room?
    ensures Sane(t) && t.length == LengthAfter(history) <= Peak(history)
    ensures 2 * t.capacity <= Max(2, 3 * Peak(history))
  {
    if history != [] {
      var init, last := history[..|history| - 1], history[|history| - 1];
      var s :| Reached(zeroed, init, s) && Sane(s) && Allowed(s, last) && t == After(s, last);
      assert last in history;
      CapacityBound(zeroed, init, s);
      CapacityStep(s, last, Peak(init));
      assert t.length == LengthAfter(history);
    }
  }
}
