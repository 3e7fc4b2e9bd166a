/**
 The CALL_FN_W sequences for amd64 and x86 as programs: the texts of the macros, the
 general text that they are instances of, and what executing its parts does.
 */
module CallSequence {
  import opened Common
  import opened Machine

  // ----- the macro texts -----

  /** What distinguishes the macros: the pad below the aligned stack pointer, the
      offsets pushed and the argument registers loaded, in program order. */
  datatype Text = Text(pad: Immediate, pushes: seq<nat>, loads: seq<(nat, Reg)>)

  /** The immediate of the sub instruction, 0 where there is none. */
  function MacroPad(arch: Arch, arity: nat): Immediate
    requires arity <= 12
  {
    if arch.X86? then
      match arity
      case 0 => 0 case 1 => 12 case 2 => 8 case 3 => 4
      case 4 => 0 case 5 => 12 case 6 => 8 case 7 => 4
      case 8 => 0 case 9 => 12 case 10 => 8 case 11 => 4
      case _ => 0
    else
      match arity
      case 7 => 136 case 9 => 136 case 11 => 136
      case _ => 128
  }

  // The pushes and loads of arity 12; a smaller arity has the last ones only.
  const X86_PUSHES: seq<nat> := [48, 44, 40, 36, 32, 28, 24, 20, 16, 12, 8, 4]
  const AMD64_PUSHES: seq<nat> := [96, 88, 80, 72, 64, 56]
  const AMD64_LOADS: seq<(nat, Reg)> := [(48, R9), (40, R8), (32, CX), (24, DX), (16, SI), (8, DI)]

  function MacroText(arch: Arch, arity: nat): Text
    requires arity <= 12
  {
    if arch.X86? then Text(MacroPad(arch, arity), X86_PUSHES[12 - arity..], [])
    else if arity <= 6 then Text(MacroPad(arch, arity), [], AMD64_LOADS[6 - arity..])
    else Text(MacroPad(arch, arity), AMD64_PUSHES[12 - arity..], AMD64_LOADS)
  }

  function Pushes(offsets: seq<nat>): seq<Instr>
  {
    if offsets == [] then [] else [Push(offsets[0], AX)] + Pushes(offsets[1..])
  }

  function Loads(loads: seq<(nat, Reg)>): seq<Instr>
  {
    if loads == [] then [] else [Load(loads[0].0, AX, loads[0].1)] + Loads(loads[1..])
  }

  /** The register that keeps the original stack pointer across the call. */
  function Keeper(arch: Arch): Reg { if arch.X86? then DI else R14 }

  /** VALGRIND_CFI_PROLOGUE, where the compiler supports it: cfa is its operand register. */
  function Prologue(cfa: Option<Reg>): seq<Instr>
  {
    match cfa
    case None => []
    case Some(r) => [Mov(BP, R15), Mov(r, BP)]
  }

  function Align(arch: Arch): seq<Instr>
  {
    [Mov(SP, Keeper(arch)), AlignDown16(SP)]
  }

  function Pad(t: Text): seq<Instr>
  {
    if t.pad == 0 then [] else [Sub(t.pad, SP)]
  }

  function FromPushes(arch: Arch, t: Text): seq<Instr>
  {
    Pushes(t.pushes) + (Loads(t.loads) + ([Load(0, AX, AX)] + Marked(arch, DX)))
  }

  /** Everything up to the hidden call. */
  function BeforeCall(arch: Arch, t: Text, cfa: Option<Reg>): seq<Instr>
  {
    Prologue(cfa) + (Align(arch) + (Pad(t) + FromPushes(arch, t)))
  }

  /** Everything after it. */
  function AfterCall(arch: Arch, cfa: Option<Reg>): seq<Instr>
  {
    [Mov(Keeper(arch), SP)] + if cfa.None? then [] else [Mov(R15, BP)]
  }

  /** What comes last before the call is the load of its target and what Valgrind looks for. */
  lemma CallIsMarked(arch: Arch, t: Text, cfa: Option<Reg>)
    ensures var p := BeforeCall(arch, t, cfa);
            6 <= |p| && p[|p| - 6] == Load(0, AX, AX) && p[|p| - 5..] == Marked(arch, DX)
  {
  }

  // ----- what the texts have in common -----

  function Bytes(arch: Arch, words: nat): nat { if arch.X86? then 4 * words else 8 * words }

  function RedZone(arch: Arch): nat { if arch.X86? then 0 else 128 }

  /** How many arguments travel in registers. */
  function InRegisters(arch: Arch, arity: nat): nat
  {
    if arch.X86? then 0 else if arity < 6 then arity else 6
  }

  /** The register of argument k, counted from 1. */
  function ArgReg(k: nat): Reg
    requires 1 <= k <= 6
  {
    match k case 1 => DI case 2 => SI case 3 => DX case 4 => CX case 5 => R8 case 6 => R9
  }

  /** The offsets of arguments hi down to lo + 1. */
  function Offsets(arch: Arch, hi: nat, lo: nat): (s: seq<nat>)
    requires lo <= hi
    ensures |s| == hi - lo && forall i :: 0 <= i < hi - lo ==> s[i] == Bytes(arch, hi - i)
  {
    if hi == lo then [] else [Bytes(arch, hi)] + Offsets(arch, hi - 1, lo)
  }

  /** The loads of arguments m down to 1. */
  function ArgLoads(m: nat): (s: seq<(nat, Reg)>)
    requires m <= 6
    ensures |s| == m && forall i :: 0 <= i < m ==> s[i] == (8 * (m - i), ArgReg(m - i))
  {
    if m == 0 then [] else [(8 * m, ArgReg(m))] + ArgLoads(m - 1)
  }

  function GeneratedPad(arch: Arch, pushed: nat): Immediate
  {
    if arch.X86? then 4 * ((4 - pushed % 4) % 4) else 128 + 8 * (pushed % 2)
  }

  /** The text for any arity: the arguments beyond the registers are pushed last to
      first, the others loaded last to first; the pad aligns the stack below the red zone. */
  function Generated(arch: Arch, arity: nat): Text
  {
    var m := InRegisters(arch, arity);
    Text(GeneratedPad(arch, arity - m), Offsets(arch, arity, m), ArgLoads(m))
  }

  /** Each of the 26 macros is the instance of the general text. */
  lemma MacrosAreGenerated(arch: Arch, arity: nat)
    requires arity <= 12
    ensures MacroText(arch, arity) == Generated(arch, arity)
  {
    var m := InRegisters(arch, arity);
    PushesMatch(arity);
    LoadsMatch(m);
    PadMatches(arch, arity);
  }

  lemma PadMatches(arch: Arch, arity: nat)
    requires arity <= 12
    ensures MacroPad(arch, arity) == GeneratedPad(arch, arity - InRegisters(arch, arity))
  {
  }

  /** The pad covers the red zone and makes the stack pointer at the call a multiple of 16. */
  lemma PadAligns(arch: Arch, pushed: nat)
    ensures (GeneratedPad(arch, pushed) + Bytes(arch, pushed)) % 16 == 0
    ensures RedZone(arch) <= GeneratedPad(arch, pushed) < RedZone(arch) + 16
  {
    if arch.X86? {
      WordsFillUp(pushed / 4, pushed % 4);
    } else {
      PairsFillUp(pushed / 2, pushed % 2);
    }
  }

  lemma WordsFillUp(fours: nat, rest: nat)
    requires rest < 4
    ensures (4 * ((4 - rest) % 4) + 4 * (4 * fours + rest)) % 16 == 0
  {
    assert 4 * ((4 - rest) % 4) + 4 * (4 * fours + rest) == 16 * (fours + if rest == 0 then 0 else 1);
  }

  lemma PairsFillUp(twos: nat, rest: nat)
    requires rest < 2
    ensures (128 + 8 * rest + 8 * (2 * twos + rest)) % 16 == 0
  {
    assert 128 + 8 * rest + 8 * (2 * twos + rest) == 16 * (8 + twos + rest);
  }

  lemma PushesMatch(arity: nat)
    requires arity <= 12
    ensures X86_PUSHES[12 - arity..] == Offsets(X86, arity, 0)
    ensures 6 <= arity ==> AMD64_PUSHES[12 - arity..] == Offsets(Amd64, arity, 6)
  {
    assert forall i :: 0 <= i < 12 ==> X86_PUSHES[i] == 4 * (12 - i);
    assert forall i :: 0 <= i < 6 ==> AMD64_PUSHES[i] == 8 * (12 - i);
  }

  lemma LoadsMatch(m: nat)
    requires m <= 6
    ensures AMD64_LOADS[6 - m..] == ArgLoads(m)
  {
    forall i | 0 <= i < 6
      ensures AMD64_LOADS[i] == (8 * (6 - i), ArgReg(6 - i))
    {
      LoadAt(i);
    }
  }

  lemma LoadAt(i: nat)
    requires i < 6
    ensures AMD64_LOADS[i] == (8 * (6 - i), ArgReg(6 - i))
  {
  }

  // ----- executing the parts -----

  /** The state after pushing arguments hi down to lo + 1. */
  function Pushed(arch: Arch, hi: nat, lo: nat, s: State): State
    requires lo <= hi
  {
    if hi == lo then s else Pushed(arch, hi - 1, lo, Step(arch, Push(Bytes(arch, hi), AX), s))
  }

  lemma {:induction false} ExecPushes(arch: Arch, hi: nat, lo: nat, s: State)
    requires lo <= hi
    ensures Exec(arch, Pushes(Offsets(arch, hi, lo)), s) == Pushed(arch, hi, lo, s)
  {
    if hi > lo {
      var rest := Offsets(arch, hi - 1, lo);
      assert ([Bytes(arch, hi)] + rest)[1..] == rest;
      var p := [Push(Bytes(arch, hi), AX)] + Pushes(rest);
      assert p[1..] == Pushes(rest);
      ExecPushes(arch, hi - 1, lo, Step(arch, Push(Bytes(arch, hi), AX), s));
    }
  }

  lemma PushOne(arch: Arch, hi: nat, s: State)
    requires Bytes(arch, 1) <= s.Get(SP) && s.Get(AX) + Bytes(arch, hi) < Modulus(arch)
    ensures var u := Step(arch, Push(Bytes(arch, hi), AX), s);
            && u.regs == s.regs[SP := s.Get(SP) - Bytes(arch, 1)]
            && u.At(u.Get(SP)) == s.At(s.Get(AX) + Bytes(arch, hi))
            && (forall a: nat :: a != u.Get(SP) ==> u.At(a) == s.At(a))
  {
  }

  ghost predicate Pushable(arch: Arch, hi: nat, lo: nat, s: State)
  {
    && SP in s.regs && lo <= hi && Bytes(arch, hi - lo) <= s.Get(SP)
    && s.Get(SP) <= s.Get(AX) && s.Get(AX) + Bytes(arch, hi) < Modulus(arch)
  }

  lemma {:induction false} PushedRegs(arch: Arch, hi: nat, lo: nat, s: State)
    requires Pushable(arch, hi, lo, s)
    ensures Pushed(arch, hi, lo, s).regs == s.regs[SP := s.Get(SP) - Bytes(arch, hi - lo)]
    decreases hi
  {
    if hi == lo {
      assert s.regs[SP := s.Get(SP)] == s.regs;
    } else {
      PushOne(arch, hi, s);
      PushedRegs(arch, hi - 1, lo, Step(arch, Push(Bytes(arch, hi), AX), s));
    }
  }

  /** Nothing is written but the words between the new stack pointer and the old. */
  lemma {:induction false} PushedElsewhere(arch: Arch, hi: nat, lo: nat, s: State, a: nat)
    requires Pushable(arch, hi, lo, s) && (a < s.Get(SP) - Bytes(arch, hi - lo) || s.Get(SP) <= a)
    ensures Pushed(arch, hi, lo, s).At(a) == s.At(a)
    decreases hi
  {
    if hi > lo {
      PushOne(arch, hi, s);
      PushedElsewhere(arch, hi - 1, lo, Step(arch, Push(Bytes(arch, hi), AX), s), a);
    }
  }

  /** Argument k, read at `from`, lies at its place `to` on the stack. */
  lemma {:induction false} PushedArgument(arch: Arch, hi: nat, lo: nat, s: State, k: nat, from: nat, to: nat)
    requires Pushable(arch, hi, lo, s) && lo < k <= hi
    requires from == s.Get(AX) + Bytes(arch, k) && to == s.Get(SP) - Bytes(arch, hi - k + 1)
    ensures Pushed(arch, hi, lo, s).At(to) == s.At(from)
    decreases hi
  {
    var u := Step(arch, Push(Bytes(arch, hi), AX), s);
    PushOne(arch, hi, s);
    if k == hi {
      PushedElsewhere(arch, hi - 1, lo, u, to);
    } else {
      PushedArgument(arch, hi - 1, lo, u, k, from, to);
    }
  }

  /** The state after loading arguments m down to 1 into their registers. */
  function Loaded(m: nat, s: State): State
    requires m <= 6
  {
    if m == 0 then s else Loaded(m - 1, Step(Amd64, Load(8 * m, AX, ArgReg(m)), s))
  }

  lemma {:induction false} ExecLoads(m: nat, s: State)
    requires m <= 6
    ensures Exec(Amd64, Loads(ArgLoads(m)), s) == Loaded(m, s)
  {
    if m > 0 {
      var rest := ArgLoads(m - 1);
      assert ([(8 * m, ArgReg(m))] + rest)[1..] == rest;
      var p := [Load(8 * m, AX, ArgReg(m))] + Loads(rest);
      assert p[1..] == Loads(rest);
      ExecLoads(m - 1, Step(Amd64, Load(8 * m, AX, ArgReg(m)), s));
    }
  }

  predicate IsArgReg(r: Reg)
  {
    r.DI? || r.SI? || r.DX? || r.CX? || r.R8? || r.R9?
  }

  /** The loads write argument registers only. */
  lemma {:induction false} LoadedOther(m: nat, s: State, r: Reg)
    requires m <= 6 && !IsArgReg(r)
    ensures Loaded(m, s).mem == s.mem && Loaded(m, s).Get(r) == s.Get(r)
  {
    if m > 0 {
      LoadedOther(m - 1, Step(Amd64, Load(8 * m, AX, ArgReg(m)), s), r);
    }
  }

  /** Arguments 1 to m reach their registers. */
  lemma {:induction false} LoadedArgument(m: nat, s: State, k: nat)
    requires m <= 6 && 1 <= k <= 6 && s.Get(AX) + 8 * m < Modulus(Amd64)
    ensures Loaded(m, s).Get(ArgReg(k)) == if k <= m then s.At(s.Get(AX) + 8 * k) else s.Get(ArgReg(k))
  {
    if m > 0 {
      var u := Step(Amd64, Load(8 * m, AX, ArgReg(m)), s);
      assert u == s.Set(ArgReg(m), s.At(s.Get(AX) + 8 * m));
      LoadedArgument(m - 1, u, k);
    }
  }

  // ----- the whole sequence -----

  /** The state after the prologue and the alignment. */
  function Aligned(arch: Arch, cfa: Option<Reg>, s: State): State
  {
    var t := if cfa.None? then s else s.Set(R15, s.Get(BP)).Set(BP, s.Set(R15, s.Get(BP)).Get(cfa.value));
    var u := t.Set(Keeper(arch), t.Get(SP));
    u.Set(SP, u.Get(SP) - u.Get(SP) % 16)
  }

  function Padded(arch: Arch, arity: nat, cfa: Option<Reg>, s: State): State
  {
    var t := Aligned(arch, cfa, s);
    t.Set(SP, WrapSub(t.Get(SP), Generated(arch, arity).pad, arch))
  }

  function PassedArgs(arch: Arch, arity: nat, cfa: Option<Reg>, s: State): State
  {
    var m := InRegisters(arch, arity);
    var t := Pushed(arch, arity, m, Padded(arch, arity, cfa, s));
    if arch.X86? then t else Loaded(m, t)
  }

  /** The state at the hidden call. */
  function AtCall(arch: Arch, arity: nat, cfa: Option<Reg>, s: State): State
  {
    Step(arch, Load(0, AX, AX), PassedArgs(arch, arity, cfa, s))
  }

  lemma ExecTwo(arch: Arch, i: Instr, j: Instr, s: State)
    ensures Exec(arch, [i, j], s) == Step(arch, j, Step(arch, i, s))
  {
    assert [i, j][1..] == [j] && [j][1..] == [];
    assert Exec(arch, [j], Step(arch, i, s)) == Exec(arch, [], Step(arch, j, Step(arch, i, s)));
  }

  lemma ExecAlign(arch: Arch, cfa: Option<Reg>, s: State)
    ensures Exec(arch, Prologue(cfa) + Align(arch), s) == Aligned(arch, cfa, s)
  {
    ExecConcat(arch, Prologue(cfa), Align(arch), s);
    if cfa.Some? {
      ExecTwo(arch, Mov(BP, R15), Mov(cfa.value, BP), s);
    }
    ExecTwo(arch, Mov(SP, Keeper(arch)), AlignDown16(SP), Exec(arch, Prologue(cfa), s));
  }

  lemma ExecPad(arch: Arch, t: Text, s: State)
    requires SP in s.regs
    ensures Exec(arch, Pad(t), s) == s.Set(SP, WrapSub(s.Get(SP), t.pad, arch))
  {
    if t.pad == 0 {
      assert s.regs[SP := s.Get(SP)] == s.regs;
    } else {
      assert Pad(t)[1..] == [];
    }
  }

  /** One part of a program, its effect known. */
  lemma ExecPart(arch: Arch, p: seq<Instr>, rest: seq<Instr>, s: State, t: State)
    requires Sane(arch, s) && Exec(arch, p, s) == t
    ensures Sane(arch, t) && Exec(arch, p + rest, s) == Exec(arch, rest, t)
  {
    ExecConcat(arch, p, rest, s);
    ExecSane(arch, p, s);
  }

  lemma ExecFromPushes(arch: Arch, arity: nat, cfa: Option<Reg>, s: State)
    requires Sane(arch, Padded(arch, arity, cfa, s))
    ensures Exec(arch, FromPushes(arch, Generated(arch, arity)), Padded(arch, arity, cfa, s))
            == AtCall(arch, arity, cfa, s)
    ensures Sane(arch, AtCall(arch, arity, cfa, s))
  {
    var t, m := Generated(arch, arity), InRegisters(arch, arity);
    var load, marked := [Load(0, AX, AX)], Marked(arch, DX);
    var padded := Padded(arch, arity, cfa, s);
    var pushed := Pushed(arch, arity, m, padded);
    var passed := PassedArgs(arch, arity, cfa, s);
    ExecPushes(arch, arity, m, padded);
    ExecPart(arch, Pushes(t.pushes), Loads(t.loads) + (load + marked), padded, pushed);
    if arch.Amd64? {
      ExecLoads(m, pushed);
    }
    ExecPart(arch, Loads(t.loads), load + marked, pushed, passed);
    assert load[1..] == [];
    ExecPart(arch, load, marked, passed, AtCall(arch, arity, cfa, s));
    MarkedIsNop(arch, DX, AtCall(arch, arity, cfa, s));
  }

  /** The sequence of any arity brings the machine into the state AtCall. */
  lemma ExecBefore(arch: Arch, arity: nat, cfa: Option<Reg>, s: State)
    requires Sane(arch, s)
    ensures Exec(arch, BeforeCall(arch, Generated(arch, arity), cfa), s) == AtCall(arch, arity, cfa, s)
    ensures Sane(arch, AtCall(arch, arity, cfa, s))
  {
    var t := Generated(arch, arity);
    var rest := FromPushes(arch, t);
    var start := Prologue(cfa) + Align(arch);
    assert BeforeCall(arch, t, cfa) == start + (Pad(t) + rest);
    ExecAlign(arch, cfa, s);
    ExecPart(arch, start, Pad(t) + rest, s, Aligned(arch, cfa, s));
    ExecPad(arch, t, Aligned(arch, cfa, s));
    ExecPart(arch, Pad(t), rest, Aligned(arch, cfa, s), Padded(arch, arity, cfa, s));
    ExecFromPushes(arch, arity, cfa, s);
  }

  /** What the last instructions make of the state after the call. */
  function Restored(arch: Arch, cfa: Option<Reg>, t: State): State
  {
    var u := t.Set(SP, t.Get(Keeper(arch)));
    if cfa.None? then u else u.Set(BP, u.Get(R15))
  }

  lemma ExecAfter(arch: Arch, cfa: Option<Reg>, t: State)
    ensures Exec(arch, AfterCall(arch, cfa), t) == Restored(arch, cfa, t)
  {
    if cfa.None? {
      assert AfterCall(arch, cfa) == [Mov(Keeper(arch), SP)];
      assert [Mov(Keeper(arch), SP)][1..] == [];
    } else {
      assert AfterCall(arch, cfa) == [Mov(Keeper(arch), SP), Mov(R15, BP)];
      ExecTwo(arch, Mov(Keeper(arch), SP), Mov(R15, BP), t);
    }
  }
}
