/**
 Rotation of machine words, on numbers. A rotation by `count` is `count` rotations by
 one bit; the special-instruction preambles rotate a register by counts that add up
 to a multiple of the word width.
 */
module Rotation {

  import opened Powers

  /** The top bit moves to the bottom. */
  function RotateOnce(x: nat, width: nat): nat
    requires 0 < width
  {
    var half := Pow2(width - 1);
    if x < half then 2 * x else 2 * (x - half) + 1
  }

  function RotateLeft(x: nat, count: nat, width: nat): nat
    requires 0 < width
  {
    if count == 0 then x else RotateOnce(RotateLeft(x, count - 1, width), width)
  }

  /** The bottom bit moves to the top. */
  function RightOnce(x: nat, width: nat): nat
    requires 0 < width
  {
    x / 2 + if x % 2 == 0 then 0 else Pow2(width - 1)
  }

  function RotateRight(x: nat, count: nat, width: nat): nat
    requires 0 < width
    decreases count
  {
    if count == 0 then x else RotateRight(RightOnce(x, width), count - 1, width)
  }

  lemma {:induction false} RotateStaysWord(x: nat, count: nat, width: nat)
    requires 0 < width && x < Pow2(width)
    ensures RotateLeft(x, count, width) < Pow2(width)
  {
    if count > 0 {
      RotateStaysWord(x, count - 1, width);
    }
  }

  lemma {:induction false} RotateTwice(x: nat, j: nat, k: nat, width: nat)
    requires 0 < width
    ensures RotateLeft(RotateLeft(x, j, width), k, width) == RotateLeft(x, j + k, width)
  {
    if k > 0 {
      RotateTwice(x, j, k - 1, width);
    }
  }

  lemma ProductBelow(low: nat, d: nat, h: nat, p: nat)
    requires low < d && h < p
    ensures low * p + h < d * p
  {
    assert (low + 1) * p <= d * p;
    assert (low + 1) * p == low * p + p;
  }

  /** One more rotation by one bit, for the word h:b:low with b a single bit. */
  lemma RotateBit(h: nat, b: nat, low: nat, d: nat, p: nat, twice: nat)
    requires h < p && b <= 1 && low < d && twice == 2 * p
    ensures var y := (b * d + low) * p + h;
            (if y < d * p then 2 * y else 2 * (y - d * p) + 1) == low * twice + (2 * h + b)
  {
    ProductBelow(low, d, h, p);
    if b == 1 {
      assert (d + low) * p == d * p + low * p;
    }
    assert low * twice == 2 * (low * p);
  }

  /** The bit b of h:b goes over to the low part, which has one bit more then. */
  lemma Regroup(h: nat, b: nat, low: nat, d: nat, twice: nat)
    requires b <= 1 && low < d && twice == 2 * d
    ensures (2 * h + b) * d == h * twice + b * d && b * d + low < twice
  {
    assert (2 * h + b) * d == 2 * (h * d) + b * d;
    assert h * twice == 2 * (h * d);
  }

  lemma LastBit(x: nat, count: nat, width: nat, y: nat, half: nat)
    requires 0 < count && 0 < width && RotateLeft(x, count - 1, width) == y && Pow2(width - 1) == half
    ensures RotateLeft(x, count, width) == if y < half then 2 * y else 2 * (y - half) + 1
  {
  }

  lemma {:induction false} WordSwaps(x: nat, width: nat, high: nat, low: nat, count: nat, rest: nat)
    requires x == high * Pow2(rest) + low && 0 < width == count + rest
    requires high < Pow2(count) && low < Pow2(rest)
    ensures RotateLeft(x, count, width) == low * Pow2(count) + high
    decreases count
  {
    if count > 0 {
      var h, b := high / 2, high % 2;
      var d, p := Pow2(rest), Pow2(count - 1);
      Regroup(h, b, low, d, Pow2(rest + 1));
      WordSwaps(x, width, h, b * d + low, count - 1, rest + 1);
      assert Pow2(width - 1) == d * p by { Pow2Add(rest, count - 1); }
      LastBit(x, count, width, (b * d + low) * p + h, d * p);
      RotateBit(h, b, low, d, p, Pow2(count));
    }
  }

  /** The word high:low, of count and rest bits, rotates to low:high. */
  lemma RotateSwaps(high: nat, low: nat, count: nat, rest: nat)
    requires 0 < count + rest && high < Pow2(count) && low < Pow2(rest)
    ensures RotateLeft(high * Pow2(rest) + low, count, count + rest) == low * Pow2(count) + high
  {
    WordSwaps(high * Pow2(rest) + low, count + rest, high, low, count, rest);
  }

  /** Going once around changes nothing. */
  lemma RotateAround(x: nat, width: nat)
    requires 0 < width && x < Pow2(width)
    ensures RotateLeft(x, width, width) == x
  {
    RotateSwaps(x, 0, width, 0);
  }

  lemma {:induction false} RotateTurns(x: nat, turns: nat, count: nat, width: nat)
    requires 0 < width && x < Pow2(width)
    ensures RotateLeft(x, turns * width + count, width) == RotateLeft(x, count, width)
  {
    if turns > 0 {
      var rest := (turns - 1) * width + count;
      assert turns * width + count == width + rest;
      RotateTwice(x, width, rest, width);
      RotateAround(x, width);
      RotateTurns(x, turns - 1, count, width);
    }
  }

  /** Counts matter modulo the width only. */
  lemma RotateModulo(x: nat, count: nat, width: nat)
    requires 0 < width && x < Pow2(width)
    ensures RotateLeft(x, count, width) == RotateLeft(x, count % width, width)
  {
    assert count == count / width * width + count % width;
    RotateTurns(x, count / width, count % width, width);
  }

  lemma BottomBitBack(x: nat, half: nat)
    requires x < 2 * half
    ensures var y := if x < half then 2 * x else 2 * (x - half) + 1;
            y / 2 + (if y % 2 == 0 then 0 else half) == x
  {
  }

  lemma RightUndoesOne(x: nat, width: nat)
    requires 0 < width && x < Pow2(width)
    ensures RightOnce(RotateOnce(x, width), width) == x
  {
    BottomBitBack(x, Pow2(width - 1));
  }

  /** Rotating to the right undoes rotating to the left. */
  lemma {:induction false} RightUndoesLeft(x: nat, count: nat, width: nat)
    requires 0 < width && x < Pow2(width)
    ensures RotateRight(RotateLeft(x, count, width), count, width) == x
  {
    if count > 0 {
      var y := RotateLeft(x, count - 1, width);
      RotateStaysWord(x, count - 1, width);
      RightUndoesOne(y, width);
      RightUndoesLeft(x, count - 1, width);
    }
  }

  /** Rotating to the right is rotating to the left by the rest of the width. */
  lemma RightIsLeft(x: nat, count: nat, width: nat)
    requires 0 < width && x < Pow2(width) && count <= width
    ensures RotateRight(x, count, width) == RotateLeft(x, width - count, width)
  {
    RotateStaysWord(x, width - count, width);
    RotateTwice(x, width - count, count, width);
    RotateAround(x, width);
    RightUndoesLeft(RotateLeft(x, width - count, width), count, width);
  }

  // ----- sequences of rotations -----

  function Sum(counts: seq<nat>): nat
  {
    if counts == [] then 0 else Sum(counts[..|counts| - 1]) + counts[|counts| - 1]
  }

  function RotateAll(x: nat, counts: seq<nat>, width: nat): nat
    requires 0 < width
  {
    if counts == [] then x
    else RotateLeft(RotateAll(x, counts[..|counts| - 1], width), counts[|counts| - 1], width)
  }

  lemma {:induction false} RotateAllIsSum(x: nat, counts: seq<nat>, width: nat)
    requires 0 < width
    ensures RotateAll(x, counts, width) == RotateLeft(x, Sum(counts), width)
  {
    if counts != [] {
      var init := counts[..|counts| - 1];
      RotateAllIsSum(x, init, width);
      RotateTwice(x, Sum(init), counts[|counts| - 1], width);
    }
  }

  /** A sequence of rotations adds its counts modulo the width; it is the identity
      whenever they add up to a multiple of it. */
  lemma RotationsAddUp(x: nat, counts: seq<nat>, width: nat)
    requires 0 < width && x < Pow2(width)
    ensures RotateAll(x, counts, width) == RotateLeft(x, Sum(counts) % width, width)
    ensures Sum(counts) % width == 0 ==> RotateAll(x, counts, width) == x
  {
    RotateAllIsSum(x, counts, width);
    RotateModulo(x, Sum(counts), width);
  }

  function RotateAllRight(x: nat, counts: seq<nat>, width: nat): nat
    requires 0 < width
  {
    if counts == [] then x
    else RotateRight(RotateAllRight(x, counts[..|counts| - 1], width), counts[|counts| - 1], width)
  }

  predicate Within(counts: seq<nat>, width: nat)
  {
    forall i :: 0 <= i < |counts| ==> counts[i] <= width
  }

  /** How far a sequence of rotations to the right goes to the left. */
  function LeftTurn(counts: seq<nat>, width: nat): nat
    requires Within(counts, width)
  {
    if counts == [] then 0 else LeftTurn(counts[..|counts| - 1], width) + (width - counts[|counts| - 1])
  }

  lemma {:induction false} LeftTurnCompletes(counts: seq<nat>, width: nat)
    requires Within(counts, width)
    ensures LeftTurn(counts, width) + Sum(counts) == |counts| * width
  {
    if counts != [] {
      LeftTurnCompletes(counts[..|counts| - 1], width);
      assert |counts| * width == (|counts| - 1) * width + width;
    }
  }

  lemma {:induction false} RightsAreOneLeft(x: nat, counts: seq<nat>, width: nat)
    requires 0 < width && x < Pow2(width) && Within(counts, width)
    ensures RotateAllRight(x, counts, width) == RotateLeft(x, LeftTurn(counts, width), width)
  {
    if counts != [] {
      var init, last := counts[..|counts| - 1], counts[|counts| - 1];
      var turned := LeftTurn(init, width);
      RightsAreOneLeft(x, init, width);
      RotateStaysWord(x, turned, width);
      RightIsLeft(RotateLeft(x, turned, width), last, width);
      RotateTwice(x, turned, width - last, width);
    }
  }

  lemma TimesOrder(a: nat, b: nat, width: nat)
    requires 0 < width
    ensures a < b <==> a * width < b * width
  {
    assert b * width - a * width == (b - a) * width;
  }

  lemma TurnsLeft(rest: nat, n: nat, turns: nat, width: nat) returns (k: nat)
    requires 0 < width && rest + turns * width == n * width
    ensures rest == k * width
  {
    TimesOrder(n, turns, width);
    k := n - turns;
    assert k * width == n * width - turns * width;
  }

  /** To the right as well, counts that add up to full turns are the identity. */
  lemma RightRotationsAddUp(x: nat, counts: seq<nat>, turns: nat, width: nat)
    requires 0 < width && x < Pow2(width) && Within(counts, width)
    requires Sum(counts) == turns * width
    ensures RotateAllRight(x, counts, width) == x
  {
    LeftTurnCompletes(counts, width);
    var k := TurnsLeft(LeftTurn(counts, width), |counts|, turns, width);
    RotateTurns(x, k, 0, width);
    RightsAreOneLeft(x, counts, width);
  }

  lemma SumOfFour(a: nat, b: nat, c: nat, d: nat)
    ensures Sum([a, b, c, d]) == a + b + c + d
  {
    assert [a, b, c, d][..3] == [a, b, c] && [a, b, c][..2] == [a, b] && [a, b][..1] == [a] && [a][..0] == [];
    assert Sum([a]) == a && Sum([a, b]) == a + b;
  }

  /** Two full turns in four rotations, to either side. */
  lemma FourRotations(x: nat, a: nat, b: nat, c: nat, d: nat, width: nat)
    requires 0 < width && x < Pow2(width) && a + b + c + d == 2 * width
    ensures RotateAll(x, [a, b, c, d], width) == x
    ensures a <= width && b <= width && c <= width && d <= width ==> RotateAllRight(x, [a, b, c, d], width) == x
  {
    SumOfFour(a, b, c, d);
    RotateAllIsSum(x, [a, b, c, d], width);
    RotateTurns(x, 2, 0, width);
    if a <= width && b <= width && c <= width && d <= width {
      RightRotationsAddUp(x, [a, b, c, d], 2, width);
    }
  }

  /** The 32-bit preambles, x86 and ppc32 to the left and arm to the right, leave their register alone. */
  lemma Preambles32AreIdentity(x: nat)
    requires x < Pow2(32)
    ensures RotateAll(x, [3, 13, 29, 19], 32) == x && RotateAllRight(x, [3, 13, 29, 19], 32) == x
  {
    FourRotations(x, 3, 13, 29, 19, 32);
  }

  /** The 64-bit preambles, amd64 and ppc64 to the left and arm64 to the right with the last
      two counts exchanged, leave their register alone. */
  lemma Preambles64AreIdentity(x: nat)
    requires x < Pow2(64)
    ensures RotateAll(x, [3, 13, 61, 51], 64) == x && RotateAllRight(x, [3, 13, 51, 61], 64) == x
  {
    FourRotations(x, 3, 13, 61, 51, 64);
    FourRotations(x, 3, 13, 51, 61, 64);
  }
}
