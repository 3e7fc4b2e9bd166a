/**
 What the hidden-call sequences guarantee: they align the stack, step clear of the red
 zone, pass the arguments where the ABI wants them, and put everything back. The AMD64
 obligations are those of sections 3.2.2 and 3.2.3 of the System V AMD64 ABI.
 */
module HiddenCall {
  import opened CallSequence
  import opened Common
  import opened Machine

  // ----- what holds at the call and after it -----

  /** Where the compiler may keep the CFA operand: any general register that the
      sequence neither uses nor lists as trashed. */
  ghost predicate CfaOperand(arch: Arch, cfa: Option<Reg>)
  {
    cfa.Some? ==> arch.Amd64? && cfa.value in {BX, BP, R12, R13}
  }

  /** The argument vector lies in the caller's frame or red zone, and the stack has room. */
  predicate Roomy(arch: Arch, arity: nat, sp: nat, argvec: nat)
  {
    && sp - RedZone(arch) <= argvec
    && argvec + Bytes(arch, arity) < Modulus(arch)
    && RedZone(arch) + 32 + Bytes(arch, arity) <= sp
  }

  ghost predicate Ready(arch: Arch, arity: nat, s: State)
  {
    Sane(arch, s) && Roomy(arch, arity, s.Get(SP), s.Get(AX))
  }

  /** Word k of the argument vector: the target for 0, argument k otherwise. */
  function Word(arch: Arch, s: State, k: nat): nat
  {
    s.At(s.Get(AX) + Bytes(arch, k))
  }

  /** Word j from the top of the stack. */
  function StackWord(arch: Arch, c: State, j: nat): nat
  {
    c.At(c.Get(SP) + Bytes(arch, j))
  }

  /** The registers that the prologue and the alignment use to put things aside. */
  predicate SetAside(arch: Arch, cfa: Option<Reg>, r: Reg)
  {
    r == Keeper(arch) || (cfa.Some? && (r == BP || r == R15))
  }

  /** The state t after the alignment, compared with the initial state s. */
  ghost predicate AlignedFrom(arch: Arch, cfa: Option<Reg>, s: State, t: State)
  {
    && t.mem == s.mem && SP in t.regs
    && t.Get(SP) == s.Get(SP) - s.Get(SP) % 16
    && t.Get(Keeper(arch)) == s.Get(SP)
    && (cfa.Some? ==> t.Get(R15) == s.Get(BP) && t.Get(BP) == s.Get(cfa.value))
    && (forall r :: r != SP && !SetAside(arch, cfa, r) ==> t.Get(r) == s.Get(r))
  }

  lemma AlignedFacts(arch: Arch, cfa: Option<Reg>, s: State)
    requires Sane(arch, s) && CfaOperand(arch, cfa)
    ensures AlignedFrom(arch, cfa, s, Aligned(arch, cfa, s))
  {
  }

  lemma DropStaysAligned(sp: nat, pad: nat, bytes: nat)
    requires (pad + bytes) % 16 == 0 && pad + bytes <= sp
    ensures pad + bytes <= sp - sp % 16 && (sp - sp % 16 - pad - bytes) % 16 == 0
  {
    var q, d := sp / 16, (pad + bytes) / 16;
    assert sp - sp % 16 == 16 * q && pad + bytes == 16 * d;
    assert 16 * q - 16 * d == 16 * (q - d);
  }

  /** Where the stack pointer goes: below the red zone, with room for the pushes, and
      so that it ends up aligned. */
  lemma PadFacts(arch: Arch, arity: nat, sp: nat)
    requires RedZone(arch) + 32 + Bytes(arch, arity) <= sp < Modulus(arch)
    ensures var pushed := arity - InRegisters(arch, arity);
            var q := WrapSub(sp - sp % 16, GeneratedPad(arch, pushed), arch);
            q <= sp - RedZone(arch) && Bytes(arch, pushed) <= q && (q - Bytes(arch, pushed)) % 16 == 0
  {
    var pushed := arity - InRegisters(arch, arity);
    PadAligns(arch, pushed);
    DropStaysAligned(sp, GeneratedPad(arch, pushed), Bytes(arch, pushed));
  }

  /** The state p before the pushes, compared with the initial state s. */
  ghost predicate ReadyToPush(arch: Arch, arity: nat, cfa: Option<Reg>, s: State, p: State)
  {
    var pushed := arity - InRegisters(arch, arity);
    && p.mem == s.mem && SP in p.regs
    && p.Get(SP) <= s.Get(SP) - RedZone(arch)
    && Bytes(arch, pushed) <= p.Get(SP)
    && (p.Get(SP) - Bytes(arch, pushed)) % 16 == 0
    && p.Get(Keeper(arch)) == s.Get(SP)
    && (cfa.Some? ==> p.Get(R15) == s.Get(BP) && p.Get(BP) == s.Get(cfa.value))
    && (forall r :: r != SP && !SetAside(arch, cfa, r) ==> p.Get(r) == s.Get(r))
  }

  lemma PaddedFrom(arch: Arch, arity: nat, cfa: Option<Reg>, s: State, t: State, q: nat)
    requires CfaOperand(arch, cfa) && AlignedFrom(arch, cfa, s, t)
    requires var pushed := arity - InRegisters(arch, arity);
             q <= s.Get(SP) - RedZone(arch) && Bytes(arch, pushed) <= q && (q - Bytes(arch, pushed)) % 16 == 0
    ensures ReadyToPush(arch, arity, cfa, s, t.Set(SP, q))
  {
    var p := t.Set(SP, q);
    assert forall r :: r != SP ==> p.Get(r) == t.Get(r);
  }

  lemma PaddedFacts(arch: Arch, arity: nat, cfa: Option<Reg>, s: State)
    requires Ready(arch, arity, s) && CfaOperand(arch, cfa)
    ensures ReadyToPush(arch, arity, cfa, s, Padded(arch, arity, cfa, s))
  {
    AlignedFacts(arch, cfa, s);
    PadFacts(arch, arity, s.Get(SP));
    var t := Aligned(arch, cfa, s);
    PaddedFrom(arch, arity, cfa, s, t, WrapSub(t.Get(SP), Generated(arch, arity).pad, arch));
  }

  /** What the callee and the rest of the sequence find at the call. */
  ghost predicate CallFacts(arch: Arch, arity: nat, s: State, c: State)
  {
    var m := InRegisters(arch, arity);
    && c.Get(SP) % 16 == 0
    && c.Get(SP) + Bytes(arch, arity - m) <= s.Get(SP) - RedZone(arch)
    && c.Get(AX) == Word(arch, s, 0)
    && (forall k :: 1 <= k <= m ==> c.Get(ArgReg(k)) == Word(arch, s, k))
    && (forall j :: 0 <= j < arity - m ==> StackWord(arch, c, j) == Word(arch, s, m + 1 + j))
    && (forall a: nat :: a < c.Get(SP) || s.Get(SP) - RedZone(arch) <= a ==> c.At(a) == s.At(a))
  }

  /** The registers that the sequence itself writes before the call. */
  predicate Touched(arch: Arch, cfa: Option<Reg>, r: Reg)
  {
    r == AX || r == SP || SetAside(arch, cfa, r) || (arch.Amd64? && IsArgReg(r))
  }

  /** What the sequence has put aside, and what it has not touched. With a prologue the
      frame pointer holds the CFA operand during the call, for the unwinder to find. */
  ghost predicate Kept(arch: Arch, cfa: Option<Reg>, s: State, c: State)
  {
    && c.Get(Keeper(arch)) == s.Get(SP)
    && (cfa.Some? ==> c.Get(R15) == s.Get(BP) && c.Get(BP) == s.Get(cfa.value))
    && (forall r :: !Touched(arch, cfa, r) ==> c.Get(r) == s.Get(r))
  }

  /** The stack after the pushes. */
  ghost predicate StackFacts(arch: Arch, arity: nat, s: State, p: State, t: State)
  {
    var m := InRegisters(arch, arity);
    && SP in p.regs && Bytes(arch, arity - m) <= p.Get(SP)
    && t.regs == p.regs[SP := p.Get(SP) - Bytes(arch, arity - m)]
    && t.Get(SP) % 16 == 0
    && t.Get(SP) + Bytes(arch, arity - m) <= s.Get(SP) - RedZone(arch)
    && (forall j :: 0 <= j < arity - m ==> StackWord(arch, t, j) == Word(arch, s, m + 1 + j))
    && (forall a: nat :: a < t.Get(SP) || s.Get(SP) - RedZone(arch) <= a ==> t.At(a) == s.At(a))
  }

  /** The state t after the pushes. */
  ghost predicate HasPushed(arch: Arch, arity: nat, p: State, t: State)
  {
    var m := InRegisters(arch, arity);
    && t == Pushed(arch, arity, m, p)
    && SP in t.regs && t.Get(SP) == p.Get(SP) - Bytes(arch, arity - m)
  }

  lemma ReadyIsPushable(arch: Arch, arity: nat, cfa: Option<Reg>, s: State, p: State)
    requires Ready(arch, arity, s) && CfaOperand(arch, cfa) && ReadyToPush(arch, arity, cfa, s, p)
    ensures Pushable(arch, arity, InRegisters(arch, arity), p) && p.Get(AX) == s.Get(AX)
  {
  }

  lemma BytesAddUp(arch: Arch, m: nat, n: nat)
    ensures Bytes(arch, m + n) == Bytes(arch, m) + Bytes(arch, n)
  {
  }

  /** Argument k is word j of the stack. */
  lemma PassedOnStack(arch: Arch, arity: nat, cfa: Option<Reg>, s: State, p: State, t: State, j: nat, k: nat)
    requires Ready(arch, arity, s) && CfaOperand(arch, cfa) && ReadyToPush(arch, arity, cfa, s, p)
    requires HasPushed(arch, arity, p, t)
    requires k == InRegisters(arch, arity) + 1 + j <= arity
    ensures StackWord(arch, t, j) == Word(arch, s, k)
  {
    var from, to := s.Get(AX) + Bytes(arch, k), t.Get(SP) + Bytes(arch, j);
    ReadyIsPushable(arch, arity, cfa, s, p);
    BytesAddUp(arch, j, arity - k + 1);
    assert p.At(from) == s.At(from);
    PushedArgument(arch, arity, InRegisters(arch, arity), p, k, from, to);
  }

  lemma PassedWords(arch: Arch, arity: nat, cfa: Option<Reg>, s: State, p: State, t: State)
    requires Ready(arch, arity, s) && CfaOperand(arch, cfa) && ReadyToPush(arch, arity, cfa, s, p)
    requires HasPushed(arch, arity, p, t)
    ensures var m := InRegisters(arch, arity);
            forall j :: 0 <= j < arity - m ==> StackWord(arch, t, j) == Word(arch, s, m + 1 + j)
  {
    var m := InRegisters(arch, arity);
    forall j | 0 <= j < arity - m
      ensures StackWord(arch, t, j) == Word(arch, s, m + 1 + j)
    {
      PassedOnStack(arch, arity, cfa, s, p, t, j, m + 1 + j);
    }
  }

  lemma PassedElsewhere(arch: Arch, arity: nat, cfa: Option<Reg>, s: State, p: State, t: State)
    requires Ready(arch, arity, s) && CfaOperand(arch, cfa) && ReadyToPush(arch, arity, cfa, s, p)
    requires HasPushed(arch, arity, p, t)
    ensures forall a: nat :: a < t.Get(SP) || s.Get(SP) - RedZone(arch) <= a ==> t.At(a) == s.At(a)
  {
    ReadyIsPushable(arch, arity, cfa, s, p);
    forall a: nat | a < t.Get(SP) || s.Get(SP) - RedZone(arch) <= a
      ensures t.At(a) == s.At(a)
    {
      PushedElsewhere(arch, arity, InRegisters(arch, arity), p, a);
    }
  }

  lemma PassedStack(arch: Arch, arity: nat, cfa: Option<Reg>, s: State, p: State)
    requires Ready(arch, arity, s) && CfaOperand(arch, cfa) && ReadyToPush(arch, arity, cfa, s, p)
    ensures StackFacts(arch, arity, s, p, Pushed(arch, arity, InRegisters(arch, arity), p))
  {
    var m := InRegisters(arch, arity);
    var t := Pushed(arch, arity, m, p);
    ReadyIsPushable(arch, arity, cfa, s, p);
    PushedRegs(arch, arity, m, p);
    PassedWords(arch, arity, cfa, s, p, t);
    PassedElsewhere(arch, arity, cfa, s, p, t);
  }

  /** The pushes keep what was put aside and what was not touched. */
  lemma PushesKeep(arch: Arch, arity: nat, cfa: Option<Reg>, s: State, p: State, t: State)
    requires CfaOperand(arch, cfa) && ReadyToPush(arch, arity, cfa, s, p) && t.regs == p.regs[SP := t.Get(SP)]
    ensures t.Get(AX) == s.Get(AX) && Kept(arch, cfa, s, t)
  {
    assert forall r :: r != SP ==> t.Get(r) == p.Get(r);
  }

  lemma SameStack(arch: Arch, c: State, t: State)
    requires c.mem == t.mem && c.Get(SP) == t.Get(SP)
    ensures forall j: nat {:trigger StackWord(arch, c, j)} :: StackWord(arch, c, j) == StackWord(arch, t, j)
  {
  }

  /** On x86 all arguments are on the stack. */
  lemma X86Call(arity: nat, s: State, p: State, t: State)
    requires Ready(X86, arity, s) && t.Get(AX) == s.Get(AX) && Kept(X86, None, s, t) && StackFacts(X86, arity, s, p, t)
    ensures var c := Step(X86, Load(0, AX, AX), t);
            CallFacts(X86, arity, s, c) && Kept(X86, None, s, c)
  {
    SameStack(X86, Step(X86, Load(0, AX, AX), t), t);
  }

  /** The loads disturb neither the stack nor the other registers. */
  lemma LoadsKeep(m: nat, cfa: Option<Reg>, s: State, t: State)
    requires m <= 6 && Kept(Amd64, cfa, s, t)
    ensures Kept(Amd64, cfa, s, Step(Amd64, Load(0, AX, AX), Loaded(m, t)))
  {
    LoadedOther(m, t, R14);
    LoadedOther(m, t, R15);
    LoadedOther(m, t, BP);
    var c := Step(Amd64, Load(0, AX, AX), Loaded(m, t));
    forall r | !Touched(Amd64, cfa, r)
      ensures c.Get(r) == s.Get(r)
    {
      LoadedOther(m, t, r);
    }
  }

  lemma LoadsPassOne(m: nat, k: nat, s: State, t: State)
    requires 1 <= k <= m <= 6 && s.Get(AX) + 8 * m < Modulus(Amd64)
    requires t.Get(AX) == s.Get(AX) && t.At(s.Get(AX) + 8 * k) == s.At(s.Get(AX) + 8 * k)
    ensures Step(Amd64, Load(0, AX, AX), Loaded(m, t)).Get(ArgReg(k)) == Word(Amd64, s, k)
  {
    LoadedArgument(m, t, k);
    assert ArgReg(k) != AX;
  }

  lemma TargetLoaded(m: nat, s: State, t: State)
    requires m <= 6 && s.Get(AX) < Modulus(Amd64) && t.Get(AX) == s.Get(AX) && t.At(s.Get(AX)) == s.At(s.Get(AX))
    ensures var c := Step(Amd64, Load(0, AX, AX), Loaded(m, t));
            c.Get(AX) == Word(Amd64, s, 0) && c.Get(SP) == t.Get(SP) && c.mem == t.mem
  {
    LoadedOther(m, t, AX);
    LoadedOther(m, t, SP);
  }

  /** On amd64 the first six are loaded into registers. */
  lemma LoadsPass(arity: nat, s: State, p: State, t: State)
    requires Ready(Amd64, arity, s) && t.Get(AX) == s.Get(AX) && StackFacts(Amd64, arity, s, p, t)
    ensures CallFacts(Amd64, arity, s, Step(Amd64, Load(0, AX, AX), Loaded(InRegisters(Amd64, arity), t)))
  {
    var m := InRegisters(Amd64, arity);
    TargetLoaded(m, s, t);
    SameStack(Amd64, Step(Amd64, Load(0, AX, AX), Loaded(m, t)), t);
    forall k | 1 <= k <= m
      ensures Step(Amd64, Load(0, AX, AX), Loaded(m, t)).Get(ArgReg(k)) == Word(Amd64, s, k)
    {
      LoadsPassOne(m, k, s, t);
    }
  }

  lemma AtTheCall(arch: Arch, arity: nat, cfa: Option<Reg>, s: State)
    requires Ready(arch, arity, s) && CfaOperand(arch, cfa)
    ensures var c := AtCall(arch, arity, cfa, s);
            CallFacts(arch, arity, s, c) && Kept(arch, cfa, s, c)
  {
    var p := Padded(arch, arity, cfa, s);
    PaddedFacts(arch, arity, cfa, s);
    PassedStack(arch, arity, cfa, s, p);
    var t := Pushed(arch, arity, InRegisters(arch, arity), p);
    PushesKeep(arch, arity, cfa, s, p, t);
    if arch.X86? {
      X86Call(arity, s, p, t);
    } else {
      LoadsPass(arity, s, p, t);
      LoadsKeep(InRegisters(Amd64, arity), cfa, s, t);
    }
  }

  /** A callee that respects the ABI returns with the stack pointer and the
      callee-saved registers as they were. */
  ghost predicate Returns(arch: Arch, c: State, t: State)
  {
    && t.Get(SP) == c.Get(SP) && t.Get(BX) == c.Get(BX) && t.Get(BP) == c.Get(BP)
    && (arch.X86? ==> t.Get(SI) == c.Get(SI) && t.Get(DI) == c.Get(DI))
    && (arch.Amd64? ==>
          t.Get(R12) == c.Get(R12) && t.Get(R13) == c.Get(R13) && t.Get(R14) == c.Get(R14) && t.Get(R15) == c.Get(R15))
  }

  /** The registers that the asm statement declares trashed; on x86 those from R8 on do
      not occur. */
  predicate Trashed(arch: Arch, r: Reg)
  {
    match r
    case CX => true
    case DX => true
    case DI => true
    case SI => arch.Amd64?
    case R8 => true case R9 => true case R10 => true case R11 => true
    case R14 => true case R15 => true
    case _ => arch.X86? && (r.R12? || r.R13?)
  }

  lemma RestoredRegister(arch: Arch, cfa: Option<Reg>, t: State, r: Reg)
    ensures Restored(arch, cfa, t).Get(r) ==
            if r == SP then t.Get(Keeper(arch)) else if r == BP && cfa.Some? then t.Get(R15) else t.Get(r)
  {
  }

  /** The registers that the callee and the two last instructions leave alone. */
  lemma RegisterRestored(arch: Arch, cfa: Option<Reg>, s: State, c: State, t: State, r: Reg)
    requires CfaOperand(arch, cfa) && Kept(arch, cfa, s, c) && Returns(arch, c, t)
    requires r != AX && !Trashed(arch, r)
    ensures Restored(arch, cfa, t).Get(r) == s.Get(r)
  {
    RestoredRegister(arch, cfa, t, r);
    if r == SP {
      assert t.Get(Keeper(arch)) == c.Get(Keeper(arch));
    } else if r != BP {
      assert !Touched(arch, cfa, r) && t.Get(r) == c.Get(r);
    }
  }

  lemma RegistersRestored(arch: Arch, cfa: Option<Reg>, s: State, c: State, t: State)
    requires CfaOperand(arch, cfa) && Kept(arch, cfa, s, c) && Returns(arch, c, t)
    ensures forall r :: r != AX && !Trashed(arch, r) ==> Restored(arch, cfa, t).Get(r) == s.Get(r)
  {
    forall r | r != AX && !Trashed(arch, r)
      ensures Restored(arch, cfa, t).Get(r) == s.Get(r)
    {
      RegisterRestored(arch, cfa, s, c, t, r);
    }
  }

  /** What the rest of the sequence makes of the state t that the callee leaves. */
  lemma AfterTheCall(arch: Arch, cfa: Option<Reg>, s: State, c: State, t: State)
    requires CfaOperand(arch, cfa) && Kept(arch, cfa, s, c) && Returns(arch, c, t)
    ensures var u := Exec(arch, AfterCall(arch, cfa), t);
            && u.Get(AX) == t.Get(AX) && u.mem == t.mem
            && (forall r :: r != AX && !Trashed(arch, r) ==> u.Get(r) == s.Get(r))
  {
    ExecAfter(arch, cfa, t);
    RegistersRestored(arch, cfa, s, c, t);
    RestoredRegister(arch, cfa, t, AX);
  }

  lemma MacroFacts(arch: Arch, arity: nat, cfa: Option<Reg>, s: State)
    requires arity <= 12 && Ready(arch, arity, s) && CfaOperand(arch, cfa)
    ensures var c := Exec(arch, BeforeCall(arch, MacroText(arch, arity), cfa), s);
            CallFacts(arch, arity, s, c) && Kept(arch, cfa, s, c)
  {
    MacrosAreGenerated(arch, arity);
    ExecBefore(arch, arity, cfa, s);
    AtTheCall(arch, arity, cfa, s);
  }

  /** The callee wrote nothing above its stack arguments. */
  ghost predicate LeavesCallerStack(arch: Arch, arity: nat, c: State, t: State)
  {
    forall a: nat :: c.Get(SP) + Bytes(arch, arity - InRegisters(arch, arity)) <= a ==> t.At(a) == c.At(a)
  }

  /** Then it did not reach the red zone either, because that lies above. */
  lemma RedZoneSurvives(arch: Arch, arity: nat, s: State, c: State, t: State)
    requires CallFacts(arch, arity, s, c) && LeavesCallerStack(arch, arity, c, t)
    ensures forall a: nat :: s.Get(SP) - RedZone(arch) <= a ==> t.At(a) == s.At(a)
  {
  }

  /** The contract of every CALL_FN_W macro, from every machine state and for every
      callee that respects the ABI. At the call the stack is aligned, and it and its
      arguments lie below the red zone; the target and all arguments are where the ABI
      wants them, and neither the red zone nor the caller's memory has been written.
      Afterwards only declared registers and the result differ, memory is as the callee
      left it, and the red zone and all above are as at the start unless the callee wrote
      above its stack arguments. */
  lemma HiddenCallContract(arch: Arch, arity: nat, cfa: Option<Reg>, s: State, t: State)
    requires arity <= 12 && Ready(arch, arity, s) && CfaOperand(arch, cfa)
    requires Returns(arch, Exec(arch, BeforeCall(arch, MacroText(arch, arity), cfa), s), t)
    ensures var c := Exec(arch, BeforeCall(arch, MacroText(arch, arity), cfa), s);
            && CallFacts(arch, arity, s, c)
            && (cfa.Some? ==> c.Get(BP) == s.Get(cfa.value))
    ensures var u := Exec(arch, AfterCall(arch, cfa), t);
            && u.Get(AX) == t.Get(AX) && u.mem == t.mem
            && (forall r :: r != AX && !Trashed(arch, r) ==> u.Get(r) == s.Get(r))
    ensures LeavesCallerStack(arch, arity, Exec(arch, BeforeCall(arch, MacroText(arch, arity), cfa), s), t) ==>
              forall a: nat :: s.Get(SP) - RedZone(arch) <= a ==> Exec(arch, AfterCall(arch, cfa), t).At(a) == s.At(a)
  {
    var c := Exec(arch, BeforeCall(arch, MacroText(arch, arity), cfa), s);
    MacroFacts(arch, arity, cfa, s);
    AfterTheCall(arch, cfa, s, c, t);
    if LeavesCallerStack(arch, arity, c, t) {
      RedZoneSurvives(arch, arity, s, c, t);
    }
  }

  // ----- the contract, written out for each processor -----

  /** What the target finds on amd64: the arguments in rdi, rsi, rdx, rcx, r8, r9 and then
      ascending stack words, all below the 128-byte red zone. */
  lemma Amd64Delivery(arity: nat, s: State, c: State)
    requires CallFacts(Amd64, arity, s, c)
    ensures c.Get(SP) % 16 == 0 && c.Get(AX) == s.At(s.Get(AX))
    ensures 1 <= arity ==> c.Get(DI) == s.At(s.Get(AX) + 8)
    ensures 2 <= arity ==> c.Get(SI) == s.At(s.Get(AX) + 16)
    ensures 3 <= arity ==> c.Get(DX) == s.At(s.Get(AX) + 24)
    ensures 4 <= arity ==> c.Get(CX) == s.At(s.Get(AX) + 32)
    ensures 5 <= arity ==> c.Get(R8) == s.At(s.Get(AX) + 40)
    ensures 6 <= arity ==> c.Get(R9) == s.At(s.Get(AX) + 48)
    ensures forall j :: 0 <= j < arity - 6 ==> c.At(c.Get(SP) + 8 * j) == s.At(s.Get(AX) + 8 * (7 + j))
    ensures c.Get(SP) + (if arity <= 6 then 0 else 8 * (arity - 6)) <= s.Get(SP) - 128
    ensures forall a: nat :: a < c.Get(SP) || s.Get(SP) - 128 <= a ==> c.At(a) == s.At(a)
  {
    assert 1 <= arity ==> c.Get(ArgReg(1)) == Word(Amd64, s, 1);
    assert 2 <= arity ==> c.Get(ArgReg(2)) == Word(Amd64, s, 2);
    assert 3 <= arity ==> c.Get(ArgReg(3)) == Word(Amd64, s, 3);
    assert 4 <= arity ==> c.Get(ArgReg(4)) == Word(Amd64, s, 4);
    assert 5 <= arity ==> c.Get(ArgReg(5)) == Word(Amd64, s, 5);
    assert 6 <= arity ==> c.Get(ArgReg(6)) == Word(Amd64, s, 6);
    forall j | 0 <= j < arity - 6
      ensures c.At(c.Get(SP) + 8 * j) == s.At(s.Get(AX) + 8 * (7 + j))
    {
      assert StackWord(Amd64, c, j) == Word(Amd64, s, 7 + j);
    }
  }

  /** On x86 all arguments are in ascending stack words. */
  lemma X86Delivery(arity: nat, s: State, c: State)
    requires CallFacts(X86, arity, s, c)
    ensures c.Get(SP) % 16 == 0 && c.Get(AX) == s.At(s.Get(AX))
    ensures forall k :: 1 <= k <= arity ==> c.At(c.Get(SP) + 4 * (k - 1)) == s.At(s.Get(AX) + 4 * k)
    ensures c.Get(SP) + 4 * arity <= s.Get(SP)
    ensures forall a: nat :: a < c.Get(SP) || s.Get(SP) <= a ==> c.At(a) == s.At(a)
  {
    forall k | 1 <= k <= arity
      ensures c.At(c.Get(SP) + 4 * (k - 1)) == s.At(s.Get(AX) + 4 * k)
    {
      assert StackWord(X86, c, k - 1) == Word(X86, s, k);
    }
  }

  /** The contract with nothing abbreviated, on amd64: s is the state before the macro, c the
      one at the hidden call, t the one that the callee leaves and u the one at the end. */
  lemma Amd64Contract(arch: Arch, arity: nat, cfa: Option<Reg>, s: State, c: State, t: State, u: State)
    requires arch.Amd64? && arity <= 12 && cfa in {None, Some(BX), Some(BP), Some(R12), Some(R13)}
    requires forall r: Reg :: r in s.regs && s.regs[r] < 0x1_0000_0000_0000_0000
    requires forall a :: a in s.mem ==> s.mem[a] < 0x1_0000_0000_0000_0000
    requires s.Get(SP) - 128 <= s.Get(AX) && s.Get(AX) + 8 * arity < 0x1_0000_0000_0000_0000
    requires 160 + 8 * arity <= s.Get(SP)
    requires c == Exec(arch, BeforeCall(arch, MacroText(arch, arity), cfa), s)
    requires t.Get(SP) == c.Get(SP) && t.Get(BX) == c.Get(BX) && t.Get(BP) == c.Get(BP)
    requires t.Get(R12) == c.Get(R12) && t.Get(R13) == c.Get(R13)
    requires t.Get(R14) == c.Get(R14) && t.Get(R15) == c.Get(R15)
    requires u == Exec(arch, AfterCall(arch, cfa), t)
    ensures c.Get(SP) % 16 == 0 && c.Get(AX) == s.At(s.Get(AX))
    ensures 1 <= arity ==> c.Get(DI) == s.At(s.Get(AX) + 8)
    ensures 2 <= arity ==> c.Get(SI) == s.At(s.Get(AX) + 16)
    ensures 3 <= arity ==> c.Get(DX) == s.At(s.Get(AX) + 24)
    ensures 4 <= arity ==> c.Get(CX) == s.At(s.Get(AX) + 32)
    ensures 5 <= arity ==> c.Get(R8) == s.At(s.Get(AX) + 40)
    ensures 6 <= arity ==> c.Get(R9) == s.At(s.Get(AX) + 48)
    ensures forall j :: 0 <= j < arity - 6 ==> c.At(c.Get(SP) + 8 * j) == s.At(s.Get(AX) + 8 * (7 + j))
    ensures c.Get(SP) + (if arity <= 6 then 0 else 8 * (arity - 6)) <= s.Get(SP) - 128
    ensures forall a: nat :: a < c.Get(SP) || s.Get(SP) - 128 <= a ==> c.At(a) == s.At(a)
    ensures cfa.Some? ==> c.Get(BP) == s.Get(cfa.value)
    ensures u.Get(AX) == t.Get(AX) && u.mem == t.mem
    ensures u.Get(SP) == s.Get(SP) && u.Get(BP) == s.Get(BP) && u.Get(BX) == s.Get(BX)
    ensures u.Get(R12) == s.Get(R12) && u.Get(R13) == s.Get(R13)
  {
    assert Ready(arch, arity, s) && CfaOperand(arch, cfa) by { Amd64Ready(arch, arity, cfa, s); }
    assert Returns(arch, c, t);
    assert CallFacts(arch, arity, s, c) && Kept(arch, cfa, s, c) by { MacroFacts(arch, arity, cfa, s); }
    AfterTheCall(arch, cfa, s, c, t);
    Amd64Restored(arch, s, u);
    Amd64Delivery(arity, s, c);
  }

  lemma Amd64Ready(arch: Arch, arity: nat, cfa: Option<Reg>, s: State)
    requires arch.Amd64? && cfa in {None, Some(BX), Some(BP), Some(R12), Some(R13)}
    requires forall r: Reg :: r in s.regs && s.regs[r] < 0x1_0000_0000_0000_0000
    requires forall a :: a in s.mem ==> s.mem[a] < 0x1_0000_0000_0000_0000
    requires s.Get(SP) - 128 <= s.Get(AX) && s.Get(AX) + 8 * arity < 0x1_0000_0000_0000_0000
    requires 160 + 8 * arity <= s.Get(SP)
    ensures Ready(arch, arity, s) && CfaOperand(arch, cfa)
  {
  }

  lemma Amd64Restored(arch: Arch, s: State, u: State)
    requires arch.Amd64? && forall r :: r != AX && !Trashed(arch, r) ==> u.Get(r) == s.Get(r)
    ensures u.Get(SP) == s.Get(SP) && u.Get(BP) == s.Get(BP) && u.Get(BX) == s.Get(BX)
    ensures u.Get(R12) == s.Get(R12) && u.Get(R13) == s.Get(R13)
  {
  }

  /** And on x86. */
  lemma X86Contract(arch: Arch, arity: nat, s: State, c: State, t: State, u: State)
    requires arch.X86? && arity <= 12
    requires forall r: Reg :: r in s.regs && s.regs[r] < 0x1_0000_0000
    requires forall a :: a in s.mem ==> s.mem[a] < 0x1_0000_0000
    requires s.Get(SP) <= s.Get(AX) && s.Get(AX) + 4 * arity < 0x1_0000_0000 && 32 + 4 * arity <= s.Get(SP)
    requires c == Exec(arch, BeforeCall(arch, MacroText(arch, arity), None), s)
    requires t.Get(SP) == c.Get(SP) && t.Get(BX) == c.Get(BX) && t.Get(BP) == c.Get(BP)
    requires t.Get(SI) == c.Get(SI) && t.Get(DI) == c.Get(DI)
    requires u == Exec(arch, AfterCall(arch, None), t)
    ensures c.Get(SP) % 16 == 0 && c.Get(AX) == s.At(s.Get(AX))
    ensures forall k :: 1 <= k <= arity ==> c.At(c.Get(SP) + 4 * (k - 1)) == s.At(s.Get(AX) + 4 * k)
    ensures c.Get(SP) + 4 * arity <= s.Get(SP)
    ensures forall a: nat :: a < c.Get(SP) || s.Get(SP) <= a ==> c.At(a) == s.At(a)
    ensures u.Get(AX) == t.Get(AX) && u.mem == t.mem
    ensures u.Get(SP) == s.Get(SP) && u.Get(BP) == s.Get(BP) && u.Get(BX) == s.Get(BX) && u.Get(SI) == s.Get(SI)
  {
    assert Ready(arch, arity, s) && CfaOperand(arch, None);
    assert Returns(arch, c, t);
    assert CallFacts(arch, arity, s, c) && Kept(arch, None, s, c) by { MacroFacts(arch, arity, None, s); }
    AfterTheCall(arch, None, s, c, t);
    X86Restored(arch, s, u);
    X86Delivery(arity, s, c);
  }

  lemma X86Restored(arch: Arch, s: State, u: State)
    requires arch.X86? && forall r :: r != AX && !Trashed(arch, r) ==> u.Get(r) == s.Get(r)
    ensures u.Get(SP) == s.Get(SP) && u.Get(BP) == s.Get(BP) && u.Get(BX) == s.Get(BX) && u.Get(SI) == s.Get(SI)
  {
  }

  // ----- the macro on a processor -----

  /** The assignments to _argvec: the target, then the arguments. */
  method FillArgvec(cpu: Cpu, argvec: nat, words: seq<nat>)
    requires Sane(cpu.arch, cpu.Snapshot()) && forall i :: 0 <= i < |words| ==> words[i] < Modulus(cpu.arch)
    modifies cpu
    ensures Sane(cpu.arch, cpu.Snapshot()) && cpu.regs == old(cpu.regs)
    ensures forall k :: 0 <= k < |words| ==> cpu.Snapshot().At(argvec + Bytes(cpu.arch, k)) == words[k]
    ensures forall a: nat :: a < argvec || argvec + Bytes(cpu.arch, |words|) <= a ==>
              cpu.Snapshot().At(a) == old(cpu.Snapshot()).At(a)
  {
    for i := 0 to |words|
      invariant Sane(cpu.arch, cpu.Snapshot()) && cpu.regs == old(cpu.regs)
      invariant forall k :: 0 <= k < i ==> cpu.Snapshot().At(argvec + Bytes(cpu.arch, k)) == words[k]
      invariant forall a: nat :: a < argvec || argvec + Bytes(cpu.arch, i) <= a ==>
                  cpu.Snapshot().At(a) == old(cpu.Snapshot()).At(a)
    {
      cpu.mem := cpu.mem[argvec + Bytes(cpu.arch, i) := words[i]];
    }
  }

  /** Fills the argument vector and points the accumulator at it. */
  method LoadArgvec(cpu: Cpu, argvec: nat, nraddr: nat, args: seq<nat>)
    requires Sane(cpu.arch, cpu.Snapshot()) && nraddr < Modulus(cpu.arch) && argvec < Modulus(cpu.arch)
    requires forall i :: 0 <= i < |args| ==> args[i] < Modulus(cpu.arch)
    modifies cpu
    ensures Sane(cpu.arch, cpu.Snapshot()) && cpu.regs == old(cpu.regs)[AX := argvec]
    ensures Word(cpu.arch, cpu.Snapshot(), 0) == nraddr
    ensures forall k :: 1 <= k <= |args| ==> Word(cpu.arch, cpu.Snapshot(), k) == args[k - 1]
  {
    var words := [nraddr] + args;
    FillArgvec(cpu, argvec, words);
    cpu.regs := cpu.regs[AX := argvec];
    forall k | 0 <= k < |words|
      ensures Word(cpu.arch, cpu.Snapshot(), k) == words[k]
    {
    }
  }

  /** The words of the argument vector are delivered as the ABI wants them. */
  ghost predicate Delivered(arch: Arch, nraddr: nat, args: seq<nat>, c: State)
  {
    var m := InRegisters(arch, |args|);
    && c.Get(SP) % 16 == 0
    && c.Get(AX) == nraddr
    && (forall k :: 1 <= k <= m ==> c.Get(ArgReg(k)) == args[k - 1])
    && (forall j :: 0 <= j < |args| - m ==> StackWord(arch, c, j) == args[m + j])
  }

  lemma FactsDeliver(arch: Arch, nraddr: nat, args: seq<nat>, s: State, c: State)
    requires CallFacts(arch, |args|, s, c)
    requires Word(arch, s, 0) == nraddr && forall k :: 1 <= k <= |args| ==> Word(arch, s, k) == args[k - 1]
    ensures Delivered(arch, nraddr, args, c)
  {
  }

  lemma DeliveredAmd64(nraddr: nat, args: seq<nat>, c: State)
    requires |args| <= 12 && Delivered(Amd64, nraddr, args, c)
    ensures 1 <= |args| ==> c.Get(DI) == args[0]
    ensures 2 <= |args| ==> c.Get(SI) == args[1]
    ensures 3 <= |args| ==> c.Get(DX) == args[2]
    ensures 4 <= |args| ==> c.Get(CX) == args[3]
    ensures 5 <= |args| ==> c.Get(R8) == args[4]
    ensures 6 <= |args| ==> c.Get(R9) == args[5]
    ensures forall j :: 6 <= j < |args| ==> c.At(c.Get(SP) + 8 * (j - 6)) == args[j]
  {
    assert 1 <= |args| ==> c.Get(ArgReg(1)) == args[1 - 1];
    assert 2 <= |args| ==> c.Get(ArgReg(2)) == args[2 - 1];
    assert 3 <= |args| ==> c.Get(ArgReg(3)) == args[3 - 1];
    assert 4 <= |args| ==> c.Get(ArgReg(4)) == args[4 - 1];
    assert 5 <= |args| ==> c.Get(ArgReg(5)) == args[5 - 1];
    assert 6 <= |args| ==> c.Get(ArgReg(6)) == args[6 - 1];
    forall j | 6 <= j < |args|
      ensures c.At(c.Get(SP) + 8 * (j - 6)) == args[j]
    {
      assert StackWord(Amd64, c, j - 6) == args[6 + (j - 6)];
    }
  }

  lemma DeliveredX86(nraddr: nat, args: seq<nat>, c: State)
    requires Delivered(X86, nraddr, args, c)
    ensures forall j :: 0 <= j < |args| ==> c.At(c.Get(SP) + 4 * j) == args[j]
  {
    forall j | 0 <= j < |args|
      ensures c.At(c.Get(SP) + 4 * j) == args[j]
    {
      assert StackWord(X86, c, j) == args[0 + j];
    }
  }

  method Begin(cpu: Cpu, argvec: nat, nraddr: nat, args: seq<nat>, cfa: Option<Reg>)
    requires |args| <= 12 && nraddr < Modulus(cpu.arch) && argvec < Modulus(cpu.arch)
    requires forall i :: 0 <= i < |args| ==> args[i] < Modulus(cpu.arch)
    requires Sane(cpu.arch, cpu.Snapshot()) && Roomy(cpu.arch, |args|, cpu.Snapshot().Get(SP), argvec)
    requires CfaOperand(cpu.arch, cfa)
    modifies cpu
    ensures Delivered(cpu.arch, nraddr, args, cpu.Snapshot())
  {
    LoadArgvec(cpu, argvec, nraddr, args);
    ghost var s := cpu.Snapshot();
    cpu.Execute(BeforeCall(cpu.arch, MacroText(cpu.arch, |args|), cfa));
    MacroFacts(cpu.arch, |args|, cfa, s);
    FactsDeliver(cpu.arch, nraddr, args, s, cpu.Snapshot());
  }

  /** The words delivered, register by register. */
  ghost predicate FoundBy(arch: Arch, nraddr: nat, args: seq<nat>, c: State)
  {
    && c.Get(SP) % 16 == 0 && c.Get(AX) == nraddr
    && (arch.Amd64? ==>
          && (1 <= |args| ==> c.Get(DI) == args[0])
          && (2 <= |args| ==> c.Get(SI) == args[1])
          && (3 <= |args| ==> c.Get(DX) == args[2])
          && (4 <= |args| ==> c.Get(CX) == args[3])
          && (5 <= |args| ==> c.Get(R8) == args[4])
          && (6 <= |args| ==> c.Get(R9) == args[5])
          && (forall j :: 6 <= j < |args| ==> c.At(c.Get(SP) + 8 * (j - 6)) == args[j]))
    && (arch.X86? ==> forall j :: 0 <= j < |args| ==> c.At(c.Get(SP) + 4 * j) == args[j])
  }

  lemma DeliveredIsFound(arch: Arch, nraddr: nat, args: seq<nat>, c: State)
    requires |args| <= 12 && Delivered(arch, nraddr, args, c)
    ensures FoundBy(arch, nraddr, args, c)
  {
    if arch.Amd64? {
      DeliveredAmd64(nraddr, args, c);
    } else {
      DeliveredX86(nraddr, args, c);
    }
  }

  /** CALL_FN_W up to the hidden call: what is given to the macro is what the target finds. */
  method BeginCall(cpu: Cpu, argvec: nat, nraddr: nat, args: seq<nat>, cfa: Option<Reg>)
    requires |args| <= 12 && nraddr < Modulus(cpu.arch) && argvec < Modulus(cpu.arch)
    requires forall i :: 0 <= i < |args| ==> args[i] < Modulus(cpu.arch)
    requires Sane(cpu.arch, cpu.Snapshot()) && Roomy(cpu.arch, |args|, cpu.Snapshot().Get(SP), argvec)
    requires CfaOperand(cpu.arch, cfa)
    modifies cpu
    ensures FoundBy(cpu.arch, nraddr, args, cpu.Snapshot())
  {
    Begin(cpu, argvec, nraddr, args, cfa);
    DeliveredIsFound(cpu.arch, nraddr, args, cpu.Snapshot());
  }
}
