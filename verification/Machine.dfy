/**
 The instructions that the hidden-call sequences are made of, on registers and
 memory. Memory holds one word at each word-aligned address.
 */
module Machine {
  import opened Powers
  import opened Rotation

  /** On x86 the first eight are the 32-bit registers and the others do not occur. */
  datatype Reg = AX | BX | CX | DX | SI | DI | BP | SP | R8 | R9 | R10 | R11 | R12 | R13 | R14 | R15

  datatype Arch = X86 | Amd64

  function Width(arch: Arch): nat { if arch.X86? then 32 else 64 }
  function WordBytes(arch: Arch): nat { if arch.X86? then 4 else 8 }
  function Modulus(arch: Arch): nat { if arch.X86? then 0x1_0000_0000 else 0x1_0000_0000_0000_0000 }

  /** The immediates that occur fit a byte. */
  type Immediate = i: nat | i < 256

  datatype Instr =
    | Mov(src: Reg, dst: Reg)
    | Load(offset: nat, base: Reg, dst: Reg)
    | Push(offset: nat, base: Reg)
    | AlignDown16(dst: Reg)
    | Sub(imm: Immediate, dst: Reg)
    | Rol(count: nat, dst: Reg)
    | XchgSelf(dst: Reg)

  datatype State = State(regs: map<Reg, nat>, mem: map<nat, nat>)
  {
    function Get(r: Reg): nat { if r in regs then regs[r] else 0 }
    function Set(r: Reg, v: nat): State { this.(regs := regs[r := v]) }
    /** Memory that was never written holds unspecified words, here zero. */
    function At(a: nat): nat { if a in mem then mem[a] else 0 }
    function Store(a: nat, v: nat): State { this.(mem := mem[a := v]) }
  }

  /** Every register is there, and all registers and memory hold words. */
  ghost predicate Sane(arch: Arch, s: State)
  {
    && (forall r: Reg :: r in s.regs && s.regs[r] < Modulus(arch))
    && (forall a :: a in s.mem ==> s.mem[a] < Modulus(arch))
  }

  // Immediates and displacements are below the modulus, so one correction wraps.

  function WrapSub(a: nat, b: nat, arch: Arch): nat
    requires b < Modulus(arch)
  {
    if b <= a then a - b else a + Modulus(arch) - b
  }

  function Address(s: State, base: Reg, offset: nat, arch: Arch): nat
  {
    var a := s.Get(base) + offset;
    if a < Modulus(arch) then a else a - Modulus(arch)
  }

  function Step(arch: Arch, i: Instr, s: State): State
  {
    match i
    case Mov(src, dst) => s.Set(dst, s.Get(src))
    case Load(offset, base, dst) => s.Set(dst, s.At(Address(s, base, offset, arch)))
    case Push(offset, base) =>
      var v := s.At(Address(s, base, offset, arch));
      var sp := WrapSub(s.Get(SP), WordBytes(arch), arch);
      s.Set(SP, sp).Store(sp, v)
    case AlignDown16(dst) => s.Set(dst, s.Get(dst) - s.Get(dst) % 16)
    case Sub(imm, dst) => s.Set(dst, WrapSub(s.Get(dst), imm, arch))
    case Rol(count, dst) => s.Set(dst, RotateLeft(s.Get(dst), count, Width(arch)))
    case XchgSelf(dst) => s.Set(dst, s.Get(dst))
  }

  function Exec(arch: Arch, p: seq<Instr>, s: State): State
  {
    if p == [] then s else Exec(arch, p[1..], Step(arch, p[0], s))
  }

  /** Every instruction keeps words words. */
  lemma StepSane(arch: Arch, i: Instr, s: State)
    requires Sane(arch, s)
    ensures Sane(arch, Step(arch, i, s))
  {
    match i
    case Rol(count, dst) =>
      PowersAreModuli();
      RotateStaysWord(s.Get(dst), count, Width(arch));
    case _ =>
  }

  lemma {:induction false} ExecSane(arch: Arch, p: seq<Instr>, s: State)
    requires Sane(arch, s)
    ensures Sane(arch, Exec(arch, p, s))
  {
    if p != [] {
      StepSane(arch, p[0], s);
      ExecSane(arch, p[1..], Step(arch, p[0], s));
    }
  }

  lemma {:induction false} ExecConcat(arch: Arch, p: seq<Instr>, q: seq<Instr>, s: State)
    ensures Exec(arch, p + q, s) == Exec(arch, q, Exec(arch, p, s))
  {
    if p == [] {
      assert p + q == q;
    } else {
      assert (p + q)[1..] == p[1..] + q && (p + q)[0] == p[0];
      ExecConcat(arch, p[1..], q, Step(arch, p[0], s));
    }
  }

  /** The and-mask of the alignment instruction, 0x...f0 in either width, is what
      AlignDown16 computes. */
  lemma AndMaskAligns(x: bv64, y: bv32)
    ensures x & 0xffff_ffff_ffff_fff0 == x - x % 16
    ensures y & 0xffff_fff0 == y - y % 16
  {
  }

  /** In numbers: the greatest multiple of 16 that is not above. */
  lemma AlignRoundsDown(arch: Arch, r: Reg, s: State)
    ensures var y := Step(arch, AlignDown16(r), s).Get(r);
            y % 16 == 0 && y <= s.Get(r) < y + 16
  {
  }

  /** A word high:low, of count bits and the rest, is rotated to low:high. */
  lemma RolExchanges(arch: Arch, count: nat, rest: nat, high: nat, low: nat, r: Reg, s: State)
    requires count + rest == (if arch.X86? then 32 else 64) && high < Pow2(count) && low < Pow2(rest)
    requires s.Get(r) == high * Pow2(rest) + low
    ensures Step(arch, Rol(count, r), s) == s.Set(r, low * Pow2(count) + high)
  {
    RotateSwaps(high, low, count, rest);
  }

  // ----- the preamble -----

  function Preamble(arch: Arch): seq<Instr>
  {
    if arch.X86? then [Rol(3, DI), Rol(13, DI), Rol(29, DI), Rol(19, DI)]
    else [Rol(3, DI), Rol(13, DI), Rol(61, DI), Rol(51, DI)]
  }

  lemma PowersAreModuli()
    ensures Pow2(32) == Modulus(X86) && Pow2(64) == Modulus(Amd64)
  {
    Pow2At32();
    Pow2At64();
  }

  lemma RolStep(arch: Arch, x: nat, counts: seq<nat>, c: nat, rest: seq<Instr>, s: State)
    ensures Exec(arch, [Rol(c, DI)] + rest, s.Set(DI, RotateAll(x, counts, Width(arch)))) ==
            Exec(arch, rest, s.Set(DI, RotateAll(x, counts + [c], Width(arch))))
  {
    var p := [Rol(c, DI)] + rest;
    assert p[1..] == rest && (counts + [c])[..|counts|] == counts;
    var before := s.Set(DI, RotateAll(x, counts, Width(arch)));
    var after := s.Set(DI, RotateAll(x, counts + [c], Width(arch)));
    assert Step(arch, p[0], before) == after;
  }

  lemma FourRols(arch: Arch, a: nat, b: nat, c: nat, d: nat, s: State)
    requires DI in s.regs
    ensures Exec(arch, [Rol(a, DI), Rol(b, DI), Rol(c, DI), Rol(d, DI)], s) ==
            s.Set(DI, RotateAll(s.Get(DI), [a, b, c, d], Width(arch)))
  {
    var x := s.Get(DI);
    assert s.Set(DI, RotateAll(x, [], Width(arch))) == s by { assert s.regs[DI := x] == s.regs; }
    RolStep(arch, x, [], a, [Rol(b, DI), Rol(c, DI), Rol(d, DI)], s);
    RolStep(arch, x, [a], b, [Rol(c, DI), Rol(d, DI)], s);
    RolStep(arch, x, [a, b], c, [Rol(d, DI)], s);
    RolStep(arch, x, [a, b, c], d, [], s);
    assert [] + [a] == [a] && [a] + [b] == [a, b] && [a, b] + [c] == [a, b, c] && [a, b, c] + [d] == [a, b, c, d];
    assert [Rol(a, DI)] + [Rol(b, DI), Rol(c, DI), Rol(d, DI)] == [Rol(a, DI), Rol(b, DI), Rol(c, DI), Rol(d, DI)];
    assert [Rol(b, DI)] + [Rol(c, DI), Rol(d, DI)] == [Rol(b, DI), Rol(c, DI), Rol(d, DI)];
    assert [Rol(c, DI)] + [Rol(d, DI)] == [Rol(c, DI), Rol(d, DI)] && [Rol(d, DI)] + [] == [Rol(d, DI)];
  }

  /** The preamble is the identity on every machine state. */
  lemma PreambleIsNop(arch: Arch, s: State)
    requires Sane(arch, s)
    ensures Exec(arch, Preamble(arch), s) == s
    ensures Preamble(arch) == if arch.X86? then [Rol(3, DI), Rol(13, DI), Rol(29, DI), Rol(19, DI)]
                              else [Rol(3, DI), Rol(13, DI), Rol(61, DI), Rol(51, DI)]
  {
    PowersAreModuli();
    var x := s.Get(DI);
    assert DI in s.regs;
    if arch.X86? {
      FourRols(arch, 3, 13, 29, 19, s);
      Preambles32AreIdentity(x);
    } else {
      FourRols(arch, 3, 13, 61, 51, s);
      Preambles64AreIdentity(x);
    }
    assert s.regs[DI := x] == s.regs;
  }

  /** Preamble and marker: what the processor executes where Valgrind sees a request. */
  function Marked(arch: Arch, marker: Reg): seq<Instr>
  {
    Preamble(arch) + [XchgSelf(marker)]
  }

  lemma MarkedText(arch: Arch, marker: Reg)
    ensures Marked(arch, marker) ==
            if arch.X86? then [Rol(3, DI), Rol(13, DI), Rol(29, DI), Rol(19, DI), XchgSelf(marker)]
            else [Rol(3, DI), Rol(13, DI), Rol(61, DI), Rol(51, DI), XchgSelf(marker)]
  {
  }

  lemma MarkedIsNop(arch: Arch, marker: Reg, s: State)
    requires Sane(arch, s)
    ensures Exec(arch, Marked(arch, marker), s) == s
  {
    ExecConcat(arch, Preamble(arch), [XchgSelf(marker)], s);
    PreambleIsNop(arch, s);
    assert [XchgSelf(marker)][1..] == [];
    assert marker in s.regs;
    assert s.regs[marker := s.Get(marker)] == s.regs;
  }

  // ----- client requests on a real processor -----

  /** The request with NVALGRIND defined. */
  function NoValgrindRequest(default: nat): nat { default }

  /** The asm of a native request, with the argument block at `args`: it returns the
      default, as NVALGRIND does, and leaves every register and all memory as they were. */
  lemma NativeRequestReturnsDefault(arch: Arch, default: nat, args: nat, s: State)
    requires Sane(arch, s) && default < Modulus(arch) && args < Modulus(arch)
    ensures var before := s.Set(AX, args).Set(DX, default);
            var after := Exec(arch, Marked(arch, BX), before);
            after == before && after.Get(DX) == NoValgrindRequest(default) == default
  {
    MarkedIsNop(arch, BX, s.Set(AX, args).Set(DX, default));
  }

  // ----- the processor, in place -----

  class Cpu {
    const arch: Arch
    var regs: map<Reg, nat>
    var mem: map<nat, nat>

    constructor (arch: Arch, s: State)
      ensures this.arch == arch && Snapshot() == s
    {
      this.arch := arch;
      regs, mem := s.regs, s.mem;
    }

    function Snapshot(): State
      reads this
    {
      State(regs, mem)
    }

    method Execute(p: seq<Instr>)
      modifies this
      ensures Snapshot() == Exec(arch, p, old(Snapshot()))
    {
      for i := 0 to |p|
        invariant Exec(arch, p[i..], Snapshot()) == Exec(arch, p, old(Snapshot()))
      {
        assert p[i..][1..] == p[i + 1..];
        var s := Step(arch, p[i], Snapshot());
        regs, mem := s.regs, s.mem;
      }
    }
  }
}
