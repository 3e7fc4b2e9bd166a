/**
 A class and its first bases, down to a class without one: the uncached
 definition of vtables, class by class.
 */
module InheritanceChain {
  import opened Common
  import opened VtableLayout

  /** Every class reached through a first base is itself a class of the program. */
  ghost predicate Closed(prog: Program)
  {
    forall c {:trigger FirstBase(prog[c])} ::
      c in prog && FirstBase(prog[c]).Some? ==> FirstBase(prog[c]).value in prog
  }

  /** hs runs from a class without a base down to its last class, base by base. */
  ghost predicate IsChain(prog: Program, hs: seq<Hash>)
  {
    |hs| > 0 && hs[|hs| - 1] in prog &&
    match FirstBase(prog[hs[|hs| - 1]])
    case None => |hs| == 1
    case Some(b) => |hs| > 1 && hs[|hs| - 2] == b && IsChain(prog, hs[..|hs| - 1])
  }

  function Children(prog: Program, c: Hash): seq<Child>
  {
    if c in prog then prog[c] else []
  }

  ghost function ChainMethods(prog: Program, hs: seq<Hash>): seq<Function>
  {
    if hs == [] then []
    else ChainMethods(prog, hs[..|hs| - 1]) + Virtuals(Children(prog, hs[|hs| - 1]))
  }

  ghost function ChainTable(prog: Program, hs: seq<Hash>): seq<Slot>
  {
    Table(ChainMethods(prog, hs), |ChainMethods(prog, hs)|)
  }

  /** A class has at most one chain. */
  lemma {:induction false} ChainIsUnique(prog: Program, hs: seq<Hash>, ks: seq<Hash>)
    requires IsChain(prog, hs) && IsChain(prog, ks) && hs[|hs| - 1] == ks[|ks| - 1]
    ensures hs == ks
    decreases |hs|
  {
    if |hs| > 1 {
      ChainIsUnique(prog, hs[..|hs| - 1], ks[..|ks| - 1]);
      assert hs == hs[..|hs| - 1] + [hs[|hs| - 1]] && ks == ks[..|ks| - 1] + [ks[|ks| - 1]];
    }
  }

  lemma {:induction false} ChainPrefix(prog: Program, hs: seq<Hash>, j: nat)
    requires IsChain(prog, hs) && 0 < j <= |hs|
    ensures IsChain(prog, hs[..j])
    decreases |hs|
  {
    if j < |hs| {
      ChainPrefix(prog, hs[..|hs| - 1], j);
      assert hs[..|hs| - 1][..j] == hs[..j];
    } else {
      assert hs[..j] == hs;
    }
  }

  lemma ChainHasNoRepeat(prog: Program, hs: seq<Hash>)
    requires IsChain(prog, hs)
    ensures hs[|hs| - 1] !in hs[..|hs| - 1]
  {
    if hs[|hs| - 1] in hs[..|hs| - 1] {
      var i :| 0 <= i < |hs| - 1 && hs[i] == hs[|hs| - 1];
      ChainPrefix(prog, hs, i + 1);
      ChainIsUnique(prog, hs[..i + 1], hs);
    }
  }

  /** Every class ranks above its first base. */
  ghost predicate Acyclic(prog: Program, rank: map<Hash, nat>)
  {
    && prog.Keys <= rank.Keys
    && forall d {:trigger FirstBase(prog[d])} ::
         d in prog && FirstBase(prog[d]).Some? && FirstBase(prog[d]).value in prog
         ==> rank[FirstBase(prog[d]).value] < rank[d]
  }

  /** In an acyclic program every class has a chain. */
  lemma {:induction false} AcyclicHasChain(prog: Program, rank: map<Hash, nat>, c: Hash) returns (hs: seq<Hash>)
    requires Closed(prog) && c in prog && Acyclic(prog, rank)
    ensures IsChain(prog, hs) && hs[|hs| - 1] == c
    decreases rank[c]
  {
    match FirstBase(prog[c])
    case None => hs := [c];
    case Some(b) =>
      var base := AcyclicHasChain(prog, rank, b);
      hs := base + [c];
      assert hs[..|hs| - 1] == base;
  }

  // ----- what clang reports, class by class -----

  function Repeat(value: nat, times: nat): (s: seq<nat>)
    ensures |s| == times && forall i :: 0 <= i < times ==> s[i] == value
  {
    if times == 0 then [] else Repeat(value, times - 1) + [value]
  }

  /** For each method of the chain, where the methods of its class start. */
  ghost function ClassStarts(prog: Program, hs: seq<Hash>): (lo: seq<nat>)
    ensures |lo| == |ChainMethods(prog, hs)|
  {
    if hs == [] then []
    else
      var init := hs[..|hs| - 1];
      ClassStarts(prog, init) + Repeat(|ChainMethods(prog, init)|, |Virtuals(Children(prog, hs[|hs| - 1]))|)
  }

  ghost predicate ChainReported(prog: Program, hs: seq<Hash>)
  {
    WellReported(ChainMethods(prog, hs), ClassStarts(prog, hs))
  }

  lemma {:induction false} MethodsOfPrefix(prog: Program, hs: seq<Hash>, j: nat)
    requires j <= |hs|
    ensures ChainMethods(prog, hs[..j]) <= ChainMethods(prog, hs)
    ensures ClassStarts(prog, hs[..j]) <= ClassStarts(prog, hs)
    decreases |hs|
  {
    if j < |hs| {
      MethodsOfPrefix(prog, hs[..|hs| - 1], j);
      assert hs[..|hs| - 1][..j] == hs[..j];
    } else {
      assert hs[..j] == hs;
    }
  }

  /** The table of a base class is the table of the chain's methods up to that class. */
  lemma TableOfBase(prog: Program, hs: seq<Hash>, j: nat)
    requires j <= |hs|
    ensures |ChainMethods(prog, hs[..j])| <= |ChainMethods(prog, hs)|
    ensures ChainTable(prog, hs[..j]) == Table(ChainMethods(prog, hs), |ChainMethods(prog, hs[..j])|)
  {
    MethodsOfPrefix(prog, hs, j);
    var base := ChainMethods(prog, hs[..j]);
    TableOfPrefix(base, ChainMethods(prog, hs), |base|);
  }

  /** Class j of the chain declares method k. */
  ghost predicate Declares(prog: Program, hs: seq<Hash>, j: nat, k: nat)
    requires j < |hs|
  {
    |ChainMethods(prog, hs[..j])| <= k < |ChainMethods(prog, hs[..j + 1])|
  }

  /** The methods that class j declares after k do not start beyond k. */
  lemma DeclaredBounds(prog: Program, hs: seq<Hash>, j: nat, k: nat)
    requires j < |hs| && Declares(prog, hs, j, k)
    ensures |ChainMethods(prog, hs[..j + 1])| <= |ChainMethods(prog, hs)|
    ensures forall q :: k < q < |ChainMethods(prog, hs[..j + 1])| ==> ClassStarts(prog, hs)[q] <= k
  {
    MethodsOfPrefix(prog, hs, j + 1);
    assert hs[..j + 1][..j] == hs[..j];
  }

  /** Dispatch through a base class: slot i of class j and slot i of the most derived
      class belong to one introduced method, and each holds that method's most derived
      overrider as seen from its own class. */
  lemma DispatchThroughBase(prog: Program, hs: seq<Hash>, j: nat, i: nat)
    requires ChainReported(prog, hs)
    requires j <= |hs| && i < |ChainTable(prog, hs[..j])|
    ensures var ms, m := ChainMethods(prog, hs), |ChainMethods(prog, hs[..j])|;
            && m <= |ms|
            && i < |Introduced(ms, m)| && i < |Introduced(ms, |ms|)| && i < |ChainTable(prog, hs)|
            && var r := Introduced(ms, m)[i];
            && Introduced(ms, |ms|)[i] == r
            && ChainTable(prog, hs[..j])[i].mangled == ms[MostDerived(ms, m, r)].mangled
            && ChainTable(prog, hs)[i].mangled == ms[MostDerived(ms, |ms|, r)].mangled
  {
    TableOfBase(prog, hs, j);
    var ms := ChainMethods(prog, hs);
    SlotStability(ms, ClassStarts(prog, hs), |ChainMethods(prog, hs[..j])|, |ms|, i);
  }

  lemma ShorterChain(prog: Program, hs: seq<Hash>, i: nat, j: nat)
    requires i <= j <= |hs|
    ensures |ChainMethods(prog, hs[..i])| <= |ChainMethods(prog, hs[..j])|
  {
    MethodsOfPrefix(prog, hs[..j], i);
    assert hs[..j][..i] == hs[..i];
  }

  lemma IndexOfDeclared(prog: Program, hs: seq<Hash>, a: nat, b: nat, k: nat)
    requires ChainReported(prog, hs)
    requires a <= b < |hs| && k < |ChainMethods(prog, hs)|
    requires Declares(prog, hs, b, k) && Declares(prog, hs, a, Root(ChainMethods(prog, hs), k))
    ensures var ms := ChainMethods(prog, hs);
            var m, n := |ChainMethods(prog, hs[..a + 1])|, |ChainMethods(prog, hs[..b + 1])|;
            && m <= n <= |ms|
            && var i := FindSlot(Table(ms, n), [ms[k].mangled]);
            && 0 <= i
            && Table(ms, n)[i] == Slot(ms[k].mangled, ms[k].spelling)
            && i == FindSlot(Table(ms, m), [ms[Root(ms, k)].mangled])
  {
    var ms, lo := ChainMethods(prog, hs), ClassStarts(prog, hs);
    var m, n := |ChainMethods(prog, hs[..a + 1])|, |ChainMethods(prog, hs[..b + 1])|;
    assert m <= n by { ShorterChain(prog, hs, a + 1, b + 1); }
    assert n <= |ms| && forall q :: k < q < n ==> lo[q] <= k by {
      DeclaredBounds(prog, hs, b, k);
    }
    assert forall q :: Root(ms, k) < q < m ==> lo[q] <= Root(ms, k) by {
      DeclaredBounds(prog, hs, a, Root(ms, k));
    }
    assert Root(ms, k) < m && k < n;
    OverrideKeepsIndex(ms, lo, k, m, n);
  }

  /** Every method of a chain is declared by one of its classes. */
  lemma {:induction false} DeclaringClass(prog: Program, hs: seq<Hash>, k: nat) returns (j: nat)
    requires k < |ChainMethods(prog, hs)|
    ensures j < |hs| && Declares(prog, hs, j, k)
    decreases |hs|
  {
    var init := hs[..|hs| - 1];
    if k < |ChainMethods(prog, init)| {
      j := DeclaringClass(prog, init, k);
      assert init[..j] == hs[..j] && init[..j + 1] == hs[..j + 1];
    } else {
      j := |hs| - 1;
      assert hs[..j + 1] == hs;
    }
  }

  /** The root of a method is declared by the same class or by one before it. */
  lemma IntroducingClass(prog: Program, hs: seq<Hash>, b: nat, k: nat) returns (a: nat)
    requires b < |hs| && Declares(prog, hs, b, k) && k < |ChainMethods(prog, hs)|
    ensures a <= b && Declares(prog, hs, a, Root(ChainMethods(prog, hs), k))
  {
    a := DeclaringClass(prog, hs, Root(ChainMethods(prog, hs), k));
    if b < a {
      ShorterChain(prog, hs, b + 1, a);
    }
  }

  /** Index lookup agrees with the layout: method k, declared by class b, is found in
      the table of b at its own entry, and its index is the one that its root gets in
      the class a that introduced it. */
  lemma IndexAgreesWithLayout(prog: Program, hs: seq<Hash>, b: nat, k: nat) returns (a: nat)
    requires ChainReported(prog, hs)
    requires b < |hs| && Declares(prog, hs, b, k)
    ensures var ms := ChainMethods(prog, hs);
            && k < |ms| && a <= b && Declares(prog, hs, a, Root(ms, k))
            && var i := FindSlot(ChainTable(prog, hs[..b + 1]), [ms[k].mangled]);
            && 0 <= i
            && ChainTable(prog, hs[..b + 1])[i] == Slot(ms[k].mangled, ms[k].spelling)
            && i == FindSlot(ChainTable(prog, hs[..a + 1]), [ms[Root(ms, k)].mangled])
  {
    TableOfBase(prog, hs, b + 1);
    a := IntroducingClass(prog, hs, b, k);
    TableOfBase(prog, hs, a + 1);
    IndexOfDeclared(prog, hs, a, b, k);
  }

  /** Where the methods of the last class stand among those of the chain. */
  lemma LastClassMethod(prog: Program, hs: seq<Hash>, v: nat)
    requires IsChain(prog, hs) && v < |Virtuals(prog[hs[|hs| - 1]])|
    ensures var ms, k := ChainMethods(prog, hs), |ChainMethods(prog, hs[..|hs| - 1])| + v;
            && k < |ms| && ms[k] == Virtuals(prog[hs[|hs| - 1]])[v]
            && forall q :: k < q < |ms| ==> ClassStarts(prog, hs)[q] <= k
  {
    assert hs[..|hs|] == hs;
    DeclaredBounds(prog, hs, |hs| - 1, |ChainMethods(prog, hs[..|hs| - 1])| + v);
  }

  /** A method of the chain is among the virtual ones of the class that declares it. */
  lemma DeclaredMethod(prog: Program, hs: seq<Hash>, j: nat, k: nat)
    requires j < |hs| && Declares(prog, hs, j, k) && k < |ChainMethods(prog, hs)|
    ensures ChainMethods(prog, hs)[k] in Virtuals(Children(prog, hs[j]))
  {
    MethodsOfPrefix(prog, hs, j + 1);
    assert hs[..j + 1][..j] == hs[..j];
    var own := Virtuals(Children(prog, hs[j]));
    assert ChainMethods(prog, hs)[k] == own[k - |ChainMethods(prog, hs[..j])|];
  }

  /** Every slot of a class names a method that some class of its chain declares virtual. */
  lemma SlotsNameVirtualMethods(prog: Program, hs: seq<Hash>, i: nat) returns (j: nat, fn: Function)
    requires IsChain(prog, hs) && i < |ChainTable(prog, hs)|
    ensures j < |hs| && hs[j] in prog && Method(fn) in prog[hs[j]] && fn.isVirtual
    ensures ChainTable(prog, hs)[i] == Slot(fn.mangled, fn.spelling)
  {
    var ms := ChainMethods(prog, hs);
    var k := SlotHoldsMethod(ms, |ms|, i);
    fn := ms[k];
    j := DeclaringClass(prog, hs, k);
    DeclaredMethod(prog, hs, j, k);
    ChainPrefix(prog, hs, j + 1);
    VirtualsAreExact(Children(prog, hs[j]), fn);
  }
}
