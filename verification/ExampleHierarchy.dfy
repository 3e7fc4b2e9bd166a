/**
 Two classes, the second of which overrides one method of the first: what clang would
 report about them meets the assumptions of the layout results, and the table is the one
 that the rules of C++ give.
 */
module ExampleHierarchy {
  import opened Common
  import opened InheritanceChain
  import opened VtableLayout

  datatype Methods = Methods(get: Function, aux: Function, put: Function, again: Function, more: Function)

  /** again overrides get, and aux is not virtual. */
  predicate IsExample(m: Methods)
  {
    && m.get == Function("A::get", "get", true, []) && m.aux == Function("A::aux", "aux", false, [])
    && m.put == Function("A::put", "put", true, []) && m.more == Function("B::more", "more", true, [])
    && m.again == Function("B::get", "get", true, ["A::get"])
  }

  lemma Roots(m: Methods, ms: seq<Function>)
    requires IsExample(m) && ms == [m.get, m.put, m.again, m.more]
    ensures Parent(ms, 0) == -1 && Parent(ms, 1) == -1 && Parent(ms, 2) == 0 && Parent(ms, 3) == -1
    ensures Root(ms, 0) == 0 && Root(ms, 1) == 1 && MostDerived(ms, 2, 0) == 0
  {
    LatestNamedIsLatest(ms, 1, ms[1].overridden);
    LatestNamedIsLatest(ms, 3, ms[3].overridden);
    assert LatestNamed(ms, 1, ms[2].overridden) == 0;
    assert MostDerived(ms, 1, 0) == 0;
  }

  lemma Reported(m: Methods, ms: seq<Function>, lo: seq<nat>)
    requires IsExample(m) && ms == [m.get, m.put, m.again, m.more] && lo == [0, 0, 2, 2]
    ensures WellReported(ms, lo)
  {
    Roots(m, ms);
    assert ClangReports(ms, 0, 0);
    assert ClangReports(ms, 1, 0);
    assert ClangReports(ms, 2, 2);
    assert ClangReports(ms, 3, 2);
  }

  lemma Layout(m: Methods, ms: seq<Function>)
    requires IsExample(m) && ms == [m.get, m.put, m.again, m.more]
    ensures Table(ms, 4) == [Slot("B::get", "get"), Slot("A::put", "put"), Slot("B::more", "more")]
  {
    assert Table(ms, 1) == [Slot("A::get", "get")];
    assert Table(ms, 2) == [Slot("A::get", "get"), Slot("A::put", "put")];
    assert Table(ms, 3) == [Slot("B::get", "get"), Slot("A::put", "put")];
  }

  lemma VirtualsOfBase(m: Methods)
    requires IsExample(m)
    ensures Virtuals([Method(m.get), Method(m.aux), Method(m.put)]) == [m.get, m.put]
  {
    var c := [Method(m.get), Method(m.aux), Method(m.put)];
    assert c[..2] == [Method(m.get), Method(m.aux)] && c[..2][..1] == [Method(m.get)] && c[..2][..1][..0] == [];
    assert Virtuals(c[..2][..1]) == [m.get];
  }

  lemma VirtualsOfDerived(m: Methods, a: Hash)
    requires IsExample(m)
    ensures Virtuals([OtherChild, BaseSpecifier(Some(a)), Method(m.again), Method(m.more)]) == [m.again, m.more]
  {
    var c := [OtherChild, BaseSpecifier(Some(a)), Method(m.again), Method(m.more)];
    assert c[..3] == [OtherChild, BaseSpecifier(Some(a)), Method(m.again)];
    assert c[..3][..2] == [OtherChild, BaseSpecifier(Some(a))] && c[..3][..2][..1] == [OtherChild];
    assert Virtuals(c[..3][..2][..1]) == [] && Virtuals(c[..3][..2]) == [];
    assert Virtuals(c[..3]) == [m.again];
  }

  lemma Bases(m: Methods, a: Hash)
    ensures FirstBase([Method(m.get), Method(m.aux), Method(m.put)]) == None
    ensures FirstBase([OtherChild, BaseSpecifier(Some(a)), Method(m.again), Method(m.more)]) == Some(a)
  {
    FirstBaseIsFirst([Method(m.get), Method(m.aux), Method(m.put)], 3);
    FirstBaseIsFirst([OtherChild, BaseSpecifier(Some(a)), Method(m.again), Method(m.more)], 1);
  }

  lemma Example(m: Methods, a: Hash, b: Hash, prog: Program)
    requires IsExample(m) && a != b
    requires prog == map[a := [Method(m.get), Method(m.aux), Method(m.put)],
                         b := [OtherChild, BaseSpecifier(Some(a)), Method(m.again), Method(m.more)]]
    ensures Closed(prog) && Acyclic(prog, map[a := 0, b := 1])
    ensures IsChain(prog, [a, b]) && ChainReported(prog, [a, b])
    ensures ChainTable(prog, [a, b]) == [Slot("B::get", "get"), Slot("A::put", "put"), Slot("B::more", "more")]
  {
    var ms := [m.get, m.put, m.again, m.more];
    Bases(m, a);
    VirtualsOfBase(m);
    VirtualsOfDerived(m, a);
    assert [a, b][..1] == [a] && [a][..0] == [];
    assert IsChain(prog, [a]);
    assert ChainMethods(prog, [a]) == [m.get, m.put];
    assert ChainMethods(prog, [a, b]) == ms;
    assert ClassStarts(prog, [a]) == [0, 0];
    assert ClassStarts(prog, [a, b]) == [0, 0, 2, 2];
    Reported(m, ms, [0, 0, 2, 2]);
    Layout(m, ms);
  }
}
