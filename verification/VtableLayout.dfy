/**
 Vtable layout of a single-inheritance chain, as plain functions.

 A chain of classes is flattened into the list of its virtual methods, root
 class first.  Most functions take that list `ms` and a bound `n`, and speak
 about the first `n` methods: a bound at a class boundary is a base class.
 */
module VtableLayout {

  import opened Common

  datatype Function = Function(mangled: string, spelling: string, isVirtual: bool, overridden: seq<string>)

  /** What the layout code distinguishes among the children of a class cursor.
      A base specifier carries the definition it resolves to, if there is one. */
  datatype Child = BaseSpecifier(definition: Option<Hash>) | Method(fn: Function) | OtherChild

  datatype Slot = Slot(mangled: string, spelling: string)

  /** Every class definition of the translation unit, with its children in order. */
  type Program = map<Hash, seq<Child>>

  // ----- the layout rules -----

  /** The definition named by the first base specifier; later bases are ignored. */
  function FirstBase(children: seq<Child>): Option<Hash>
  {
    if children == [] then None
    else if children[0].BaseSpecifier? then children[0].definition
    else FirstBase(children[1..])
  }

  /** It is that of the first child that is a base specifier at all. */
  lemma {:induction false} FirstBaseIsFirst(children: seq<Child>, p: nat)
    requires p <= |children| && forall q :: 0 <= q < p ==> !children[q].BaseSpecifier?
    ensures p == |children| ==> FirstBase(children) == None
    ensures p < |children| && children[p].BaseSpecifier? ==> FirstBase(children) == children[p].definition
  {
    if 0 < p {
      FirstBaseIsFirst(children[1..], p - 1);
    }
  }

  predicate IsVirtual(child: Child) { child.Method? && child.fn.isVirtual }

  function Virtuals(children: seq<Child>): seq<Function>
  {
    if children == [] then []
    else
      var last := children[|children| - 1];
      Virtuals(children[..|children| - 1]) + if IsVirtual(last) then [last.fn] else []
  }

  /** Exactly the methods declared virtual. */
  lemma {:induction false} VirtualsAreExact(children: seq<Child>, fn: Function)
    ensures fn in Virtuals(children) <==> Method(fn) in children && fn.isVirtual
  {
    if children != [] {
      VirtualsAreExact(children[..|children| - 1], fn);
      assert children == children[..|children| - 1] + [children[|children| - 1]];
    }
  }

  /** Each of them once. */
  lemma {:induction false} VirtualsAreCounted(children: seq<Child>)
    ensures |Virtuals(children)| ==
            |set p | 0 <= p < |children| && children[p].Method? && children[p].fn.isVirtual :: p|
  {
    var all := set p | 0 <= p < |children| && children[p].Method? && children[p].fn.isVirtual :: p;
    if children == [] {
      assert all == {};
    } else {
      var init, n := children[..|children| - 1], |children| - 1;
      VirtualsAreCounted(init);
      var before := set p | 0 <= p < |init| && init[p].Method? && init[p].fn.isVirtual :: p;
      assert forall p :: 0 <= p < n ==> init[p] == children[p];
      assert all == before + if children[n].Method? && children[n].fn.isVirtual then {n} else {};
    }
  }

  /** In the order of their declarations. */
  lemma {:induction false} VirtualsInOrder(children: seq<Child>, p: nat, q: nat, f: Function, g: Function)
    returns (v: nat, w: nat)
    requires p < q < |children| && children[p] == Method(f) && children[q] == Method(g)
    requires f.isVirtual && g.isVirtual
    ensures v < w < |Virtuals(children)| && Virtuals(children)[v] == f && Virtuals(children)[w] == g
    decreases |children|
  {
    var init := children[..|children| - 1];
    if q < |init| {
      v, w := VirtualsInOrder(init, p, q, f, g);
    } else {
      VirtualsAreExact(init, f);
      assert init[p] == Method(f);
      v :| 0 <= v < |Virtuals(init)| && Virtuals(init)[v] == f;
      w := |Virtuals(init)|;
    }
  }

  /** The first slot whose method is named, or -1. */
  function FindSlot(vtable: seq<Slot>, names: seq<string>): (i: int)
    ensures -1 <= i < |vtable|
    ensures 0 <= i ==> vtable[i].mangled in names
    ensures forall j :: 0 <= j < (if i < 0 then |vtable| else i) ==> vtable[j].mangled !in names
  {
    if vtable == [] then -1
    else if vtable[0].mangled in names then 0
    else
      var i := FindSlot(vtable[1..], names);
      if i < 0 then -1 else i + 1
  }

  /** An override takes over the slot it names; anything else opens a new slot. */
  function Place(vtable: seq<Slot>, m: Function): seq<Slot>
  {
    var i := FindSlot(vtable, m.overridden);
    var slot := Slot(m.mangled, m.spelling);
    if 0 <= i then vtable[i := slot] else vtable + [slot]
  }

  function Extend(vtable: seq<Slot>, ms: seq<Function>): seq<Slot>
  {
    if ms == [] then vtable else Place(Extend(vtable, ms[..|ms| - 1]), ms[|ms| - 1])
  }

  /** The table after the first n methods of a chain. */
  function Table(ms: seq<Function>, n: nat): seq<Slot>
    requires n <= |ms|
  {
    if n == 0 then [] else Place(Table(ms, n - 1), ms[n - 1])
  }

  lemma {:induction false} ExtendContinuesTable(ms: seq<Function>, more: seq<Function>)
    ensures Extend(Table(ms, |ms|), more) == Table(ms + more, |ms + more|)
  {
    if more == [] {
      assert ms + more == ms;
    } else {
      var init := more[..|more| - 1];
      ExtendContinuesTable(ms, init);
      TableOfPrefix(ms + init, ms + more, |ms + init|);
    }
  }

  lemma {:induction false} TableOfPrefix(ms: seq<Function>, all: seq<Function>, n: nat)
    requires n <= |ms| && ms <= all
    ensures Table(ms, n) == Table(all, n)
  {
    if n > 0 {
      TableOfPrefix(ms, all, n - 1);
    }
  }

  /** Every slot holds one of the methods. */
  lemma {:induction false} SlotHoldsMethod(ms: seq<Function>, n: nat, i: nat) returns (k: nat)
    requires n <= |ms| && i < |Table(ms, n)|
    ensures k < n && Table(ms, n)[i] == Slot(ms[k].mangled, ms[k].spelling)
  {
    var before := Table(ms, n - 1);
    if i < |before| && Table(ms, n)[i] == before[i] {
      k := SlotHoldsMethod(ms, n - 1, i);
    } else {
      k := n - 1;
    }
  }

  // ----- overriding, defined without tables -----

  /** The latest of the first n methods that is named, or -1. */
  function LatestNamed(ms: seq<Function>, n: nat, names: seq<string>): (p: int)
    requires n <= |ms|
    ensures -1 <= p < n
  {
    if n == 0 then -1
    else if ms[n - 1].mangled in names then n - 1
    else LatestNamed(ms, n - 1, names)
  }

  lemma {:induction false} LatestNamedIsLatest(ms: seq<Function>, n: nat, names: seq<string>)
    requires n <= |ms|
    ensures var p := LatestNamed(ms, n, names);
            && (0 <= p ==> ms[p].mangled in names)
            && forall q :: p < q < n ==> ms[q].mangled !in names
  {
    if n > 0 && ms[n - 1].mangled !in names {
      LatestNamedIsLatest(ms, n - 1, names);
    }
  }

  /** The method that method k overrides, or -1 when k introduces a new one. */
  function Parent(ms: seq<Function>, k: nat): (p: int)
    requires k < |ms|
    ensures -1 <= p < k
  {
    LatestNamed(ms, k, ms[k].overridden)
  }

  /** The method at the start of k's chain of overrides. */
  function Root(ms: seq<Function>, k: nat): (r: nat)
    requires k < |ms|
    ensures r <= k && Parent(ms, r) == -1
  {
    var p := Parent(ms, k);
    if p < 0 then k else Root(ms, p)
  }

  /** The methods among the first n that override nothing, in declaration order. */
  function Introduced(ms: seq<Function>, n: nat): (r: seq<nat>)
    requires n <= |ms|
    ensures forall i :: 0 <= i < |r| ==> r[i] < n && Parent(ms, r[i]) == -1
  {
    if n == 0 then []
    else Introduced(ms, n - 1) + if Parent(ms, n - 1) == -1 then [n - 1] else []
  }

  /** The most derived overrider of method r among the first n. */
  function MostDerived(ms: seq<Function>, n: nat, r: nat): (k: nat)
    requires r < n <= |ms| && Parent(ms, r) == -1
    ensures k < n && Root(ms, k) == r
  {
    if Root(ms, n - 1) == r then n - 1 else MostDerived(ms, n - 1, r)
  }

  lemma {:induction false} MostDerivedIsLatest(ms: seq<Function>, n: nat, r: nat, q: nat)
    requires r < n <= |ms| && Parent(ms, r) == -1 && q < n && Root(ms, q) == r
    ensures q <= MostDerived(ms, n, r)
  {
    if Root(ms, n - 1) != r {
      assert q < n - 1;
      MostDerivedIsLatest(ms, n - 1, r, q);
    } else {
      assert MostDerived(ms, n, r) == n - 1;
    }
  }

  /** Every introduced method has exactly one place among the introduced ones. */
  lemma {:induction false} PlaceOf(ms: seq<Function>, n: nat, r: nat) returns (s: nat)
    requires r < n <= |ms| && Parent(ms, r) == -1
    ensures s < |Introduced(ms, n)| && Introduced(ms, n)[s] == r
    ensures forall j :: 0 <= j < |Introduced(ms, n)| && Introduced(ms, n)[j] == r ==> j == s
  {
    if r == n - 1 {
      s := |Introduced(ms, n - 1)|;
    } else {
      s := PlaceOf(ms, n - 1, r);
    }
  }

  /** No method is introduced twice. */
  lemma DistinctIntroduced(ms: seq<Function>, n: nat, i: nat, j: nat)
    requires n <= |ms| && i < |Introduced(ms, n)| && j < |Introduced(ms, n)| && i != j
    ensures Introduced(ms, n)[i] != Introduced(ms, n)[j]
  {
    var place := PlaceOf(ms, n, Introduced(ms, n)[i]);
  }

  /** What clang reports for method k of a class whose own methods start at lo:
      a method that overrides names exactly one earlier method, declared in a
      proper base class, and that one is the current overrider of its root.
      Mangled names are unique. */
  ghost predicate ClangReports(ms: seq<Function>, k: nat, lo: nat)
    requires k < |ms|
  {
    && (forall q :: 0 <= q < k ==> ms[q].mangled != ms[k].mangled)
    && (forall q :: 0 <= q < k && ms[q].mangled in ms[k].overridden ==> q == Parent(ms, k))
    && Parent(ms, k) < lo
    && (0 <= Parent(ms, k) ==> MostDerived(ms, k, Root(ms, Parent(ms, k))) == Parent(ms, k))
    && (ms[k].overridden != [] ==> 0 <= Parent(ms, k))
  }

  /** lo(k) is the first method of the class that declares method k. */
  ghost predicate WellReported(ms: seq<Function>, lo: seq<nat>)
  {
    && |lo| == |ms|
    && (forall k {:trigger ClangReports(ms, k, lo[k])} :: 0 <= k < |ms| ==> lo[k] <= k && ClangReports(ms, k, lo[k]))
  }

  // ----- the layout theorem -----

  /** Slot i belongs to the i-th introduced method and holds its most derived overrider. */
  ghost predicate Holds(ms: seq<Function>, n: nat, slot: Slot, r: nat)
    requires r < n <= |ms| && Parent(ms, r) == -1
  {
    var m := ms[MostDerived(ms, n, r)];
    slot == Slot(m.mangled, m.spelling)
  }

  ghost predicate LaidOut(ms: seq<Function>, n: nat)
    requires n <= |ms|
  {
    && |Table(ms, n)| == |Introduced(ms, n)|
    && forall i :: 0 <= i < |Table(ms, n)| ==> Holds(ms, n, Table(ms, n)[i], Introduced(ms, n)[i])
  }

  lemma {:induction false} TableIsLaidOut(ms: seq<Function>, lo: seq<nat>, n: nat)
    requires WellReported(ms, lo) && n <= |ms|
    ensures LaidOut(ms, n)
  {
    if n > 0 {
      TableIsLaidOut(ms, lo, n - 1);
      MethodKeepsLayout(ms, n, lo[n - 1]);
    }
  }

  lemma MethodKeepsLayout(ms: seq<Function>, n: nat, lo: nat)
    requires 0 < n <= |ms| && LaidOut(ms, n - 1) && ClangReports(ms, n - 1, lo)
    ensures LaidOut(ms, n)
  {
    if 0 <= Parent(ms, n - 1) {
      OverrideKeepsLayout(ms, n, lo);
    } else {
      IntroductionKeepsLayout(ms, n);
    }
  }

  lemma IntroductionKeepsLayout(ms: seq<Function>, n: nat)
    requires 0 < n <= |ms| && LaidOut(ms, n - 1) && Parent(ms, n - 1) == -1
    ensures LaidOut(ms, n)
  {
    var k := n - 1;
    var t, r := Table(ms, k), Introduced(ms, k);
    LatestNamedIsLatest(ms, k, ms[k].overridden);
    forall i | 0 <= i < |t|
      ensures t[i].mangled !in ms[k].overridden && Holds(ms, n, t[i], r[i])
    {
      assert Holds(ms, k, t[i], r[i]);
    }
    assert Table(ms, n) == t + [Slot(ms[k].mangled, ms[k].spelling)];
  }

  lemma HoldsStill(ms: seq<Function>, n: nat, slot: Slot, r: nat)
    requires r < n - 1 < |ms| && Parent(ms, r) == -1 && Holds(ms, n - 1, slot, r) && Root(ms, n - 1) != r
    ensures Holds(ms, n, slot, r)
  {
  }

  lemma HoldsNewest(ms: seq<Function>, n: nat, r: nat)
    requires r < n <= |ms| && Parent(ms, r) == -1 && Root(ms, n - 1) == r
    ensures Holds(ms, n, Slot(ms[n - 1].mangled, ms[n - 1].spelling), r)
  {
  }

  lemma SlotAfterOverride(ms: seq<Function>, n: nat, s: nat, i: nat)
    requires 0 < n <= |ms| && LaidOut(ms, n - 1)
    requires s == FindSlot(Table(ms, n - 1), ms[n - 1].overridden) && Introduced(ms, n - 1)[s] == Root(ms, n - 1)
    requires i < |Table(ms, n - 1)|
    ensures Holds(ms, n, Table(ms, n)[i], Introduced(ms, n - 1)[i])
  {
    var r := Introduced(ms, n - 1)[i];
    if i == s {
      HoldsNewest(ms, n, r);
    } else {
      DistinctIntroduced(ms, n - 1, s, i);
      assert Holds(ms, n - 1, Table(ms, n - 1)[i], r);
      HoldsStill(ms, n, Table(ms, n - 1)[i], r);
    }
  }

  /** An override goes into the slot of its root, and into no other. */
  lemma OverrideKeepsLayout(ms: seq<Function>, n: nat, lo: nat)
    requires 0 < n <= |ms| && LaidOut(ms, n - 1) && ClangReports(ms, n - 1, lo) && 0 <= Parent(ms, n - 1)
    ensures LaidOut(ms, n)
  {
    OverrideTakesRootSlot(ms, n - 1, lo);
    var s := FindSlot(Table(ms, n - 1), ms[n - 1].overridden);
    forall i | 0 <= i < |Table(ms, n - 1)|
      ensures Holds(ms, n, Table(ms, n)[i], Introduced(ms, n - 1)[i])
    {
      SlotAfterOverride(ms, n, s, i);
    }
  }

  lemma OverrideTakesRootSlot(ms: seq<Function>, k: nat, lo: nat)
    requires k < |ms| && LaidOut(ms, k) && ClangReports(ms, k, lo) && 0 <= Parent(ms, k)
    ensures var i := FindSlot(Table(ms, k), ms[k].overridden);
            0 <= i && Introduced(ms, k)[i] == Root(ms, k)
  {
    var r := Root(ms, Parent(ms, k));
    LatestNamedIsLatest(ms, k, ms[k].overridden);
    var s := PlaceOf(ms, k, r);
    assert Holds(ms, k, Table(ms, k)[s], r);
    var i := FindSlot(Table(ms, k), ms[k].overridden);
    assert Holds(ms, k, Table(ms, k)[i], Introduced(ms, k)[i]);
    assert Root(ms, MostDerived(ms, k, Introduced(ms, k)[i])) == r;
  }

  lemma {:induction false} IntroducedGrows(ms: seq<Function>, m: nat, n: nat)
    requires m <= n <= |ms|
    ensures Introduced(ms, m) <= Introduced(ms, n)
  {
    if m < n {
      IntroducedGrows(ms, m, n - 1);
    }
  }

  /** Slot stability and dispatch: a base table of m methods and the derived table
      of n agree, slot by slot, on the introducing method; the base slot holds its
      most derived overrider in the base, the derived slot the one in the derived
      class; and no method is introduced by two slots. */
  lemma SlotStability(ms: seq<Function>, lo: seq<nat>, m: nat, n: nat, i: nat)
    requires WellReported(ms, lo) && m <= n <= |ms| && i < |Table(ms, m)|
    ensures i < |Table(ms, n)| && i < |Introduced(ms, m)| && i < |Introduced(ms, n)|
    ensures var r := Introduced(ms, m)[i];
            && r == Introduced(ms, n)[i]
            && Table(ms, m)[i].mangled == ms[MostDerived(ms, m, r)].mangled
            && Table(ms, n)[i].mangled == ms[MostDerived(ms, n, r)].mangled
            && MostDerived(ms, m, r) <= MostDerived(ms, n, r)
    ensures forall j :: 0 <= j < |Table(ms, n)| && j < |Introduced(ms, n)| && j != i ==>
              Introduced(ms, n)[j] != Introduced(ms, n)[i] && Table(ms, n)[j].mangled != Table(ms, n)[i].mangled
  {
    TableIsLaidOut(ms, lo, m);
    TableIsLaidOut(ms, lo, n);
    IntroducedGrows(ms, m, n);
    var r := Introduced(ms, n);
    assert Holds(ms, m, Table(ms, m)[i], r[i]) && Holds(ms, n, Table(ms, n)[i], r[i]);
    var place := PlaceOf(ms, n, r[i]);
    forall j | 0 <= j < |Table(ms, n)| && j != i
      ensures r[j] != r[i] && Table(ms, n)[j].mangled != Table(ms, n)[i].mangled
    {
      assert Holds(ms, n, Table(ms, n)[j], r[j]);
      DistinctNames(ms, lo, MostDerived(ms, n, r[i]), MostDerived(ms, n, r[j]));
    }
  }

  lemma DistinctNames(ms: seq<Function>, lo: seq<nat>, p: nat, q: nat)
    requires WellReported(ms, lo) && p < |ms| && q < |ms| && p != q
    ensures ms[p].mangled != ms[q].mangled
  {
    assert ClangReports(ms, p, lo[p]) && ClangReports(ms, q, lo[q]);
  }

  // ----- index lookup -----

  /** A later overrider of the same root is declared by a later class. */
  lemma LaterOverriderIsInLaterClass(ms: seq<Function>, lo: seq<nat>, k: nat, q: nat)
    requires WellReported(ms, lo) && k < q < |ms| && Root(ms, q) == Root(ms, k)
    ensures k < lo[q]
  {
    assert ClangReports(ms, q, lo[q]);
    MostDerivedIsLatest(ms, q, Root(ms, k), k);
  }

  /** So a method declared by the class that ends at n is still current there. */
  lemma DeclaredIsMostDerived(ms: seq<Function>, lo: seq<nat>, k: nat, n: nat)
    requires WellReported(ms, lo) && k < n <= |ms|
    requires forall q :: k < q < n ==> lo[q] <= k
    ensures MostDerived(ms, n, Root(ms, k)) == k
  {
    MostDerivedIsLatest(ms, n, Root(ms, k), k);
    forall q | k < q < n
      ensures Root(ms, q) != Root(ms, k)
    {
      if Root(ms, q) == Root(ms, k) {
        LaterOverriderIsInLaterClass(ms, lo, k, q);
      }
    }
  }

  /** A method declared by the class that ends at n is found, in the slot of its root. */
  lemma DeclaredMethodIndex(ms: seq<Function>, lo: seq<nat>, k: nat, n: nat)
    requires WellReported(ms, lo) && k < n <= |ms|
    requires forall q :: k < q < n ==> lo[q] <= k
    ensures var i := FindSlot(Table(ms, n), [ms[k].mangled]);
            && 0 <= i < |Introduced(ms, n)|
            && Introduced(ms, n)[i] == Root(ms, k)
            && Table(ms, n)[i] == Slot(ms[k].mangled, ms[k].spelling)
  {
    var t, r := Table(ms, n), Introduced(ms, n);
    TableIsLaidOut(ms, lo, n);
    DeclaredIsMostDerived(ms, lo, k, n);
    var s := PlaceOf(ms, n, Root(ms, k));
    assert Holds(ms, n, t[s], r[s]);
    assert t[s].mangled in [ms[k].mangled];
    var i := FindSlot(t, [ms[k].mangled]);
    assert Holds(ms, n, t[i], r[i]);
    if MostDerived(ms, n, r[i]) != k {
      DistinctNames(ms, lo, MostDerived(ms, n, r[i]), k);
    }
  }

  /** An override and the method at its root have the same index, each looked up
      in the table of the class that declares it. */
  lemma OverrideKeepsIndex(ms: seq<Function>, lo: seq<nat>, k: nat, m: nat, n: nat)
    requires WellReported(ms, lo) && k < n <= |ms| && Root(ms, k) < m <= n
    requires forall q :: k < q < n ==> lo[q] <= k
    requires forall q :: Root(ms, k) < q < m ==> lo[q] <= Root(ms, k)
    ensures var i := FindSlot(Table(ms, n), [ms[k].mangled]);
            && 0 <= i
            && Table(ms, n)[i] == Slot(ms[k].mangled, ms[k].spelling)
            && i == FindSlot(Table(ms, m), [ms[Root(ms, k)].mangled])
  {
    DeclaredMethodIndex(ms, lo, k, n);
    DeclaredMethodIndex(ms, lo, Root(ms, k), m);
    IntroducedGrows(ms, m, n);
    var s := PlaceOf(ms, n, Root(ms, k));
  }
}
