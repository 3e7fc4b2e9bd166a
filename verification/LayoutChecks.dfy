/**
 Which of a class's virtual methods get a vtable check, and against which slot.
 */
module LayoutChecks {
  import opened Common
  import opened VtableLayout
  import opened InheritanceChain

  /** How many of the methods share a name. */
  function Declarations(ms: seq<Function>, name: string): nat
  {
    if ms == [] then 0
    else Declarations(ms[1..], name) + if ms[0].spelling == name then 1 else 0
  }

  /** Once means that no other method has the name. */
  lemma {:induction false} DeclaredOnce(ms: seq<Function>, v: nat)
    requires v < |ms|
    ensures Declarations(ms, ms[v].spelling) == 1 <==>
            forall w :: 0 <= w < |ms| && w != v ==> ms[w].spelling != ms[v].spelling
  {
    var name := ms[v].spelling;
    if v == 0 {
      NotDeclared(ms[1..], name);
      assert forall w :: 0 < w < |ms| ==> ms[w] == ms[1..][w - 1];
    } else {
      DeclaredOnce(ms[1..], v - 1);
      assert ms[v] == ms[1..][v - 1];
      DeclaredSomewhere(ms[1..], v - 1);
      assert forall w :: 0 < w < |ms| ==> ms[w] == ms[1..][w - 1];
      assert forall w :: 0 <= w < |ms| - 1 ==> ms[1..][w] == ms[w + 1];
    }
  }

  lemma {:induction false} NotDeclared(ms: seq<Function>, name: string)
    ensures Declarations(ms, name) == 0 <==> forall w :: 0 <= w < |ms| ==> ms[w].spelling != name
  {
    if ms != [] {
      NotDeclared(ms[1..], name);
      assert forall w :: 0 < w < |ms| ==> ms[w] == ms[1..][w - 1];
      assert forall w :: 0 <= w < |ms| - 1 ==> ms[1..][w] == ms[w + 1];
    }
  }

  lemma DeclaredSomewhere(ms: seq<Function>, v: nat)
    requires v < |ms|
    ensures 0 < Declarations(ms, ms[v].spelling)
  {
    NotDeclared(ms, ms[v].spelling);
  }

  /** The check emitted for one method of a class whose virtual methods are ms. */
  function CheckOf(vtable: seq<Slot>, ms: seq<Function>, m: Function): seq<(string, int)>
  {
    var i := FindSlot(vtable, [m.mangled]);
    if Declarations(ms, m.spelling) == 1 && 0 <= i then [(m.spelling, i)] else []
  }

  /** The checks for the first n of a class's virtual methods. */
  function VtableChecks(vtable: seq<Slot>, ms: seq<Function>, n: nat): seq<(string, int)>
    requires n <= |ms|
  {
    if n == 0 then [] else VtableChecks(vtable, ms, n - 1) + CheckOf(vtable, ms, ms[n - 1])
  }

  /** The emitted list contains the check of each method, and nothing else. */
  lemma {:induction false} ChecksAreExact(vtable: seq<Slot>, ms: seq<Function>, n: nat, check: (string, int))
    requires n <= |ms|
    ensures check in VtableChecks(vtable, ms, n) <==> exists v: nat | v < n :: CheckOf(vtable, ms, ms[v]) == [check]
  {
    if n > 0 {
      ChecksAreExact(vtable, ms, n - 1, check);
      var last := CheckOf(vtable, ms, ms[n - 1]);
      assert check in last <==> last == [check];
    }
  }

  /** Spelled out: a check names a method that shares its name with no other, and the
      first slot that holds the method. */
  lemma ChecksSpelledOut(vtable: seq<Slot>, ms: seq<Function>, check: (string, int))
    ensures check in VtableChecks(vtable, ms, |ms|) <==>
            exists v: nat | v < |ms| :: ms[v].spelling == check.0
              && (forall w :: 0 <= w < |ms| && w != v ==> ms[w].spelling != check.0)
              && 0 <= check.1 < |vtable| && vtable[check.1].mangled == ms[v].mangled
              && (forall i :: 0 <= i < check.1 ==> vtable[i].mangled != ms[v].mangled)
  {
    ChecksAreExact(vtable, ms, |ms|, check);
    forall v: nat | v < |ms|
      ensures CheckOf(vtable, ms, ms[v]) == [check] <==>
              && ms[v].spelling == check.0
              && (forall w :: 0 <= w < |ms| && w != v ==> ms[w].spelling != check.0)
              && 0 <= check.1 < |vtable| && vtable[check.1].mangled == ms[v].mangled
              && (forall i :: 0 <= i < check.1 ==> vtable[i].mangled != ms[v].mangled)
    {
      CheckSpelledOut(vtable, ms, v, check);
    }
  }

  lemma CheckSpelledOut(vtable: seq<Slot>, ms: seq<Function>, v: nat, check: (string, int))
    requires v < |ms|
    ensures CheckOf(vtable, ms, ms[v]) == [check] <==>
            && ms[v].spelling == check.0
            && (forall w :: 0 <= w < |ms| && w != v ==> ms[w].spelling != check.0)
            && 0 <= check.1 < |vtable| && vtable[check.1].mangled == ms[v].mangled
            && (forall i :: 0 <= i < check.1 ==> vtable[i].mangled != ms[v].mangled)
  {
    DeclaredOnce(ms, v);
    var i := FindSlot(vtable, [ms[v].mangled]);
    assert CheckOf(vtable, ms, ms[v]) == [check] <==>
           Declarations(ms, ms[v].spelling) == 1 && 0 <= i && check == (ms[v].spelling, i);
  }

  /** No check is emitted for a name that two methods share. */
  lemma OverloadedIsNotChecked(vtable: seq<Slot>, ms: seq<Function>, p: nat, q: nat, check: (string, int))
    requires p < q < |ms| && ms[p].spelling == ms[q].spelling && check in VtableChecks(vtable, ms, |ms|)
    ensures check.0 != ms[p].spelling
  {
    ChecksSpelledOut(vtable, ms, check);
  }

  /** The checks stand in the order of the methods. */
  lemma {:induction false} ChecksGrow(vtable: seq<Slot>, ms: seq<Function>, m: nat, n: nat)
    requires m <= n <= |ms|
    ensures VtableChecks(vtable, ms, m) <= VtableChecks(vtable, ms, n)
  {
    if m < n {
      ChecksGrow(vtable, ms, m, n - 1);
    }
  }

  lemma {:induction false} CheckComesFrom(vtable: seq<Slot>, ms: seq<Function>, n: nat, i: nat) returns (v: nat)
    requires n <= |ms| && i < |VtableChecks(vtable, ms, n)|
    ensures v < n && CheckOf(vtable, ms, ms[v]) == [VtableChecks(vtable, ms, n)[i]]
  {
    var before := VtableChecks(vtable, ms, n - 1);
    if i < |before| {
      v := CheckComesFrom(vtable, ms, n - 1, i);
    } else {
      v := n - 1;
    }
  }

  /** And no name is checked twice. */
  lemma {:induction false} ChecksAreDistinct(vtable: seq<Slot>, ms: seq<Function>, n: nat, i: nat, j: nat)
    requires n <= |ms| && i < j < |VtableChecks(vtable, ms, n)|
    ensures VtableChecks(vtable, ms, n)[i].0 != VtableChecks(vtable, ms, n)[j].0
  {
    var before := VtableChecks(vtable, ms, n - 1);
    if j < |before| {
      ChecksAreDistinct(vtable, ms, n - 1, i, j);
    } else {
      var v := CheckComesFrom(vtable, ms, n - 1, i);
      assert VtableChecks(vtable, ms, n)[j].0 == ms[n - 1].spelling;
      DeclaredOnce(ms, v);
    }
  }

  lemma CheckIsEmitted(vtable: seq<Slot>, ms: seq<Function>, n: nat, v: nat)
    requires v < n <= |ms|
    ensures forall check :: CheckOf(vtable, ms, ms[v]) == [check] ==> check in VtableChecks(vtable, ms, n)
  {
    forall check | CheckOf(vtable, ms, ms[v]) == [check]
      ensures check in VtableChecks(vtable, ms, n)
    {
      ChecksAreExact(vtable, ms, n, check);
    }
  }

  /** The check of method k names the slot of the method at the root of its overrides. */
  ghost predicate CheckedAtRoot(vtable: seq<Slot>, own: seq<Function>, ms: seq<Function>, k: nat)
    requires k < |ms|
  {
    exists i: nat | i < |Introduced(ms, |ms|)| ::
      && Introduced(ms, |ms|)[i] == Root(ms, k)
      && CheckOf(vtable, own, ms[k]) == [(ms[k].spelling, i)]
  }

  /** A method that is found and whose name is not overloaded is checked. */
  lemma DeclaredMethodIsChecked(ms: seq<Function>, lo: seq<nat>, own: seq<Function>, k: nat)
    requires WellReported(ms, lo) && k < |ms| && Declarations(own, ms[k].spelling) == 1
    requires forall q :: k < q < |ms| ==> lo[q] <= k
    ensures CheckedAtRoot(Table(ms, |ms|), own, ms, k)
  {
    DeclaredMethodIndex(ms, lo, k, |ms|);
  }

  /** In a well-reported chain every method that the last class declares virtual has a slot. */
  lemma VirtualMethodHasSlot(prog: Program, hs: seq<Hash>, fn: Function)
    requires IsChain(prog, hs) && ChainReported(prog, hs)
    requires Method(fn) in prog[hs[|hs| - 1]] && fn.isVirtual
    ensures Slot(fn.mangled, fn.spelling) in ChainTable(prog, hs)
  {
    var ms, own := ChainMethods(prog, hs), Virtuals(prog[hs[|hs| - 1]]);
    VirtualsAreExact(prog[hs[|hs| - 1]], fn);
    var v :| 0 <= v < |own| && own[v] == fn;
    var k := |ChainMethods(prog, hs[..|hs| - 1])| + v;
    LastClassMethod(prog, hs, v);
    DeclaredMethodIndex(ms, ClassStarts(prog, hs), k, |ms|);
  }

  /** In a well-reported chain, a method of the last class whose name is not overloaded
      there is always checked, against the slot of the method it overrides at the root. */
  lemma UniqueMethodIsChecked(prog: Program, hs: seq<Hash>, v: nat)
    requires IsChain(prog, hs) && ChainReported(prog, hs) && v < |Virtuals(prog[hs[|hs| - 1]])|
    requires Declarations(Virtuals(prog[hs[|hs| - 1]]), Virtuals(prog[hs[|hs| - 1]])[v].spelling) == 1
    ensures var ms, k := ChainMethods(prog, hs), |ChainMethods(prog, hs[..|hs| - 1])| + v;
            && k < |ms| && ms[k] == Virtuals(prog[hs[|hs| - 1]])[v]
            && CheckedAtRoot(ChainTable(prog, hs), Virtuals(prog[hs[|hs| - 1]]), ms, k)
  {
    var ms, own, k := ChainMethods(prog, hs), Virtuals(prog[hs[|hs| - 1]]), |ChainMethods(prog, hs[..|hs| - 1])| + v;
    LastClassMethod(prog, hs, v);
    assert CheckedAtRoot(Table(ms, |ms|), own, ms, k) by {
      DeclaredMethodIsChecked(ms, ClassStarts(prog, hs), own, k);
    }
  }
}
