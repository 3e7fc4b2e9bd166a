/**
 The walk over the cursor graph that decides which definitions are emitted.

 A cursor is known by its hash. The walk enters namespaces only, also those of
 other files, and looks at each cursor once.
 */
module HeaderWalk {

  import opened Common

  datatype Kind = Enum | Class | Struct | Namespace | FunctionDecl | OtherKind

  datatype Cursor = Cursor(kind: Kind, inDir: bool, isDefinition: bool, spelling: string, children: seq<Hash>)

  /** A translation unit: cursors by hash, closed under children. */
  type Unit = map<Hash, Cursor>

  ghost predicate Closed(u: Unit)
  {
    forall p, c {:trigger c in u[p].children} :: p in u && c in u[p].children ==> c in u
  }

  /** A call of emit_enum or of emit_record. */
  datatype Emission = EnumChecks(cursor: Hash) | RecordChecks(cursor: Hash)

  /** What the generator writes for a cursor: checks of a definition in the headers. */
  function EmissionOf(h: Hash, c: Cursor): seq<Emission>
  {
    if !c.inDir || !c.isDefinition then []
    else if c.kind.Enum? then [EnumChecks(h)]
    else if c.kind.Class? || c.kind.Struct? then [RecordChecks(h)]
    else []
  }

  /** A block of namespace dmd in the headers proper, whose functions are collected. */
  predicate IsDmdBlock(c: Cursor)
  {
    c.inDir && c.kind.Namespace? && c.spelling == "dmd"
  }

  predicate IsOwnFunction(u: Unit, h: Hash)
  {
    h in u && u[h].kind.FunctionDecl? && u[h].inDir
  }

  /** The functions of a namespace block that are declared in the headers proper. */
  function FunctionsOf(u: Unit, children: seq<Hash>): seq<Hash>
  {
    if children == [] then []
    else
      var last := children[|children| - 1];
      FunctionsOf(u, children[..|children| - 1]) +
      if IsOwnFunction(u, last) then [last] else []
  }

  /** Exactly the children that are function declarations in the headers. */
  lemma {:induction false} FunctionsAreExact(u: Unit, children: seq<Hash>, h: Hash)
    ensures h in FunctionsOf(u, children) <==> h in children && h in u && u[h].kind.FunctionDecl? && u[h].inDir
  {
    if children != [] {
      FunctionsAreExact(u, children[..|children| - 1], h);
      assert children == children[..|children| - 1] + [children[|children| - 1]];
    }
  }

  /** Each of them once. */
  lemma {:induction false} FunctionsAreCounted(u: Unit, children: seq<Hash>)
    ensures |FunctionsOf(u, children)| ==
            |set p | 0 <= p < |children| && children[p] in u
                       && u[children[p]].kind.FunctionDecl? && u[children[p]].inDir :: p|
  {
    var all := set p | 0 <= p < |children| && children[p] in u
                         && u[children[p]].kind.FunctionDecl? && u[children[p]].inDir :: p;
    if children == [] {
      assert all == {};
    } else {
      var init, n := children[..|children| - 1], |children| - 1;
      FunctionsAreCounted(u, init);
      var before := set p | 0 <= p < |init| && init[p] in u && u[init[p]].kind.FunctionDecl? && u[init[p]].inDir :: p;
      assert forall p :: 0 <= p < n ==> init[p] == children[p];
      assert all == before + if IsOwnFunction(u, children[n]) then {n} else {};
    }
  }

  /** In the order of the children. */
  lemma {:induction false} FunctionsInOrder(u: Unit, children: seq<Hash>, p: nat, q: nat) returns (v: nat, w: nat)
    requires p < q < |children| && children[p] in u && children[q] in u
    requires u[children[p]].kind.FunctionDecl? && u[children[p]].inDir
    requires u[children[q]].kind.FunctionDecl? && u[children[q]].inDir
    ensures v < w < |FunctionsOf(u, children)|
    ensures FunctionsOf(u, children)[v] == children[p] && FunctionsOf(u, children)[w] == children[q]
    decreases |children|
  {
    var init := children[..|children| - 1];
    if q < |init| {
      v, w := FunctionsInOrder(u, init, p, q);
    } else {
      FunctionsAreExact(u, init, children[p]);
      assert init[p] == children[p];
      v :| 0 <= v < |FunctionsOf(u, init)| && FunctionsOf(u, init)[v] == children[p];
      w := |FunctionsOf(u, init)|;
    }
  }

  // ----- reachability, independent of the walk -----

  /** A path from a child of root, each step going from a namespace to a child of it. */
  ghost predicate IsPath(u: Unit, root: Hash, path: seq<Hash>)
    requires Closed(u) && root in u
  {
    |path| > 0 && path[|path| - 1] in u &&
    if |path| == 1 then path[0] in u[root].children
    else
      var parent := path[|path| - 2];
      && IsPath(u, root, path[..|path| - 1])
      && parent in u && u[parent].kind.Namespace? && path[|path| - 1] in u[parent].children
  }

  ghost predicate Reachable(u: Unit, root: Hash, h: Hash)
    requires Closed(u) && root in u
  {
    exists path :: IsPath(u, root, path) && path[|path| - 1] == h
  }

  // Reachable is the least set that contains the children of root, those of every reachable
  // namespace, and nothing else (ClosedSetContains).

  lemma RootChildReachable(u: Unit, root: Hash, h: Hash)
    requires Closed(u) && root in u && h in u[root].children
    ensures Reachable(u, root, h)
  {
    assert IsPath(u, root, [h]);
    assert [h][|[h]| - 1] == h;
  }

  lemma ReachableChild(u: Unit, root: Hash, p: Hash, h: Hash)
    requires Closed(u) && root in u && Reachable(u, root, p)
    requires u[p].kind.Namespace? && h in u[p].children
    ensures Reachable(u, root, h)
  {
    var path :| IsPath(u, root, path) && path[|path| - 1] == p;
    var longer := path + [h];
    assert longer[..|longer| - 1] == path;
    assert IsPath(u, root, longer);
  }

  /** A set closed under the walk's steps contains everything reachable. */
  lemma {:induction false} ClosedSetContains(u: Unit, root: Hash, s: set<Hash>, path: seq<Hash>)
    requires Closed(u) && root in u && IsPath(u, root, path)
    requires forall c :: c in u[root].children ==> c in s
    requires forall p :: p in s && p in u && u[p].kind.Namespace? ==> Explored(u, p, s)
    ensures path[|path| - 1] in s
    decreases |path|
  {
    if |path| > 1 {
      ClosedSetContains(u, root, s, path[..|path| - 1]);
      assert Explored(u, path[|path| - 2], s);
    }
  }

  /** All children of p are in s. */
  ghost predicate Explored(u: Unit, p: Hash, s: set<Hash>)
    requires p in u
  {
    forall c :: c in u[p].children ==> c in s
  }

  // ----- the walk -----

  ghost predicate NoDuplicates<T(!new)>(s: seq<T>)
  {
    forall i, j :: 0 <= i < j < |s| ==> s[i] != s[j]
  }

  /** What is emitted for the cursors of s, in order. */
  ghost function EmittedOf(u: Unit, s: seq<Hash>): seq<Emission>
  {
    if s == [] then []
    else
      var last := s[|s| - 1];
      EmittedOf(u, s[..|s| - 1]) + if last in u then EmissionOf(last, u[last]) else []
  }

  /** The dmd namespace blocks of s, in order. */
  ghost function BlocksOf(u: Unit, s: seq<Hash>): seq<Hash>
  {
    if s == [] then []
    else
      var last := s[|s| - 1];
      BlocksOf(u, s[..|s| - 1]) + if last in u && IsDmdBlock(u[last]) then [last] else []
  }

  /** The functions of the given blocks, block by block. */
  ghost function Collected(u: Unit, blocks: seq<Hash>): seq<Hash>
  {
    if blocks == [] then []
    else
      var last := blocks[|blocks| - 1];
      Collected(u, blocks[..|blocks| - 1]) + if last in u then FunctionsOf(u, u[last].children) else []
  }

  /** Selecting from a list without duplicates keeps exactly what qualifies, once. */
  lemma {:induction false} SelectionIsExact(u: Unit, s: seq<Hash>)
    requires NoDuplicates(s)
    ensures NoDuplicates(EmittedOf(u, s)) && NoDuplicates(BlocksOf(u, s))
    ensures forall h :: EnumChecks(h) in EmittedOf(u, s) <==>
              h in s && h in u && u[h].inDir && u[h].isDefinition && u[h].kind.Enum?
    ensures forall h :: RecordChecks(h) in EmittedOf(u, s) <==>
              h in s && h in u && u[h].inDir && u[h].isDefinition && (u[h].kind.Class? || u[h].kind.Struct?)
    ensures forall h :: h in BlocksOf(u, s) <==>
              h in s && h in u && u[h].inDir && u[h].kind.Namespace? && u[h].spelling == "dmd"
  {
    if s != [] {
      SelectionIsExact(u, s[..|s| - 1]);
      assert s == s[..|s| - 1] + [s[|s| - 1]];
    }
  }

  /** The functions of the blocks are collected, and no others. */
  lemma {:induction false} CollectedIsExact(u: Unit, blocks: seq<Hash>, h: Hash)
    ensures h in Collected(u, blocks) <==> exists b :: b in blocks && b in u && h in u[b].children && h in u
                                             && u[h].kind.FunctionDecl? && u[h].inDir
  {
    if blocks != [] {
      var init, last := blocks[..|blocks| - 1], blocks[|blocks| - 1];
      CollectedIsExact(u, init, h);
      assert blocks == init + [last];
      if last in u {
        FunctionsAreExact(u, u[last].children, h);
      }
    }
  }

  /** Block by block. */
  lemma {:induction false} CollectedConcatenates(u: Unit, a: seq<Hash>, b: seq<Hash>)
    ensures Collected(u, a + b) == Collected(u, a) + Collected(u, b)
  {
    if b == [] {
      assert a + b == a;
      assert Collected(u, a) + [] == Collected(u, a);
    } else {
      var init, last, all := b[..|b| - 1], b[|b| - 1], a + b;
      var more := if last in u then FunctionsOf(u, u[last].children) else [];
      CollectedConcatenates(u, a, init);
      assert all[..|all| - 1] == a + init && all[|all| - 1] == last;
      assert Collected(u, a) + (Collected(u, init) + more) == (Collected(u, a) + Collected(u, init)) + more;
    }
  }

  lemma CollectedFromOne(u: Unit, b: Hash)
    requires b in u
    ensures Collected(u, [b]) == FunctionsOf(u, u[b].children)
  {
    assert [b][..0] == [] && Collected(u, []) == [];
  }

  lemma OrderGrows(s: seq<Hash>, h: Hash)
    requires NoDuplicates(s) && h !in s
    ensures NoDuplicates(s + [h]) && forall g :: g in s + [h] <==> g in s || g == h
  {
  }

  lemma SelectionStep(u: Unit, s: seq<Hash>, h: Hash)
    requires h in u
    ensures EmittedOf(u, s + [h]) == EmittedOf(u, s) + EmissionOf(h, u[h])
    ensures Collected(u, BlocksOf(u, s + [h])) ==
            Collected(u, BlocksOf(u, s)) + if IsDmdBlock(u[h]) then FunctionsOf(u, u[h].children) else []
  {
    var t, blocks := s + [h], BlocksOf(u, s);
    assert t[..|t| - 1] == s && (blocks + [h])[..|blocks|] == blocks && blocks + [] == blocks;
    assert Collected(u, blocks) + [] == Collected(u, blocks);
  }

  /** Every namespace seen has been gone through, except those still being walked. */
  ghost predicate Done(u: Unit, seen: set<Hash>, active: set<Hash>)
  {
    forall p :: p in seen && p in u && p !in active && u[p].kind.Namespace? ==> Explored(u, p, seen)
  }

  lemma DoneAfterVisit(u: Unit, seen: set<Hash>, active: set<Hash>, h: Hash)
    requires h in u && Done(u, seen, active)
    ensures Done(u, seen + {h}, if u[h].kind.Namespace? then active + {h} else active)
  {
    forall p | p in seen && p in u && p !in active && u[p].kind.Namespace?
      ensures Explored(u, p, seen + {h})
    {
      assert Explored(u, p, seen);
    }
  }

  class Walker {
    const u: Unit
    const root: Hash
    var seen: set<Hash>
    /** The calls of emit_enum and emit_record, in order. */
    var emitted: seq<Emission>
    var freeFunctions: seq<Hash>
    /** The seen cursors in the order of their visits. */
    ghost var order: seq<Hash>

    constructor (u: Unit, root: Hash)
      requires root in u
      requires forall p, c {:trigger c in u[p].children} :: p in u && c in u[p].children ==> c in u
      ensures this.u == u && this.root == root && Valid()
      ensures seen == {} && emitted == [] && freeFunctions == []
    {
      this.u, this.root := u, root;
      seen, emitted, freeFunctions, order := {}, [], [], [];
    }

    /** Everything seen is reachable, and what was emitted and collected is exactly
        the part of it that qualifies. */
    ghost predicate Valid()
      reads this
    {
      && Closed(u) && root in u && seen <= u.Keys
      && (forall h :: h in seen ==> Reachable(u, root, h))
      && NoDuplicates(order) && (forall h :: h in seen <==> h in order)
      && emitted == EmittedOf(u, order)
      && freeFunctions == Collected(u, BlocksOf(u, order))
    }

    method CollectDmdNamespace(ns: Hash)
      requires Closed(u) && ns in u
      modifies this`freeFunctions
      ensures freeFunctions == old(freeFunctions) + FunctionsOf(u, u[ns].children)
    {
      var children := u[ns].children;
      for i := 0 to |children|
        invariant freeFunctions == old(freeFunctions) + FunctionsOf(u, children[..i])
      {
        assert children[..i + 1][..i] == children[..i];
        if IsOwnFunction(u, children[i]) {
          freeFunctions := freeFunctions + [children[i]];
        }
      }
      assert children[..|children|] == children;
    }

    /** Emits or collects a cursor, by its kind. */
    method EmitOrCollect(h: Hash)
      requires Closed(u) && h in u
      modifies this`emitted, this`freeFunctions
      ensures emitted == old(emitted) + EmissionOf(h, u[h])
      ensures freeFunctions == old(freeFunctions) + if IsDmdBlock(u[h]) then FunctionsOf(u, u[h].children) else []
    {
      var c := u[h];
      if !c.inDir {
        return;
      }
      if c.kind.Enum? && c.isDefinition {
        emitted := emitted + [EnumChecks(h)];
      } else if (c.kind.Class? || c.kind.Struct?) && c.isDefinition {
        emitted := emitted + [RecordChecks(h)];
      } else if c.kind.Namespace? {
        if c.spelling == "dmd" {
          CollectDmdNamespace(h);
        }
      }
    }

    /** Marks a cursor as seen and emits or collects it; says whether to enter it. */
    method Visit(h: Hash) returns (enter: bool)
      requires Valid() && h in u && h !in seen && Reachable(u, root, h)
      modifies this
      ensures Valid() && seen == old(seen) + {h} && enter == u[h].kind.Namespace?
    {
      EmitOrCollect(h);
      seen := seen + {h};
      SelectionStep(u, order, h);
      OrderGrows(order, h);
      order := order + [h];
      return u[h].kind.Namespace?;
    }

    /** `active` holds the namespaces whose walk encloses this one. */
    method Walk(cursor: Hash, ghost active: set<Hash>)
      requires Valid() && cursor in u && Done(u, seen, active + {cursor})
      requires forall c :: c in u[cursor].children ==> Reachable(u, root, c)
      modifies this
      ensures Valid() && old(seen) <= seen && Done(u, seen, active) && Explored(u, cursor, seen)
      decreases u.Keys - seen, 1
    {
      var children := u[cursor].children;
      for i := 0 to |children|
        invariant Valid() && old(seen) <= seen && Done(u, seen, active + {cursor})
        invariant forall j :: 0 <= j < i ==> children[j] in seen
      {
        var h := children[i];
        if h in seen {
          continue;
        }
        assert h in u[cursor].children;
        WalkChild(h, active + {cursor});
      }
    }

    /** The body of the loop, for a child not seen yet. */
    method WalkChild(h: Hash, ghost active: set<Hash>)
      requires Valid() && h in u && h !in seen && Reachable(u, root, h) && Done(u, seen, active)
      modifies this
      ensures Valid() && old(seen) <= seen && h in seen && Done(u, seen, active)
      decreases u.Keys - seen, 0
    {
      assert h in u.Keys - old(seen);
      DoneAfterVisit(u, seen, active, h);
      var enter := Visit(h);
      if enter {
        forall c | c in u[h].children
          ensures Reachable(u, root, c)
        {
          ReachableChild(u, root, h, c);
        }
        Walk(h, active);
      }
    }

    /** The walk from the root: it sees exactly what is reachable. */
    method WalkAll()
      requires Valid() && seen == {}
      modifies this
      ensures Valid() && forall h :: h in seen <==> Reachable(u, root, h)
    {
      forall c | c in u[root].children
        ensures Reachable(u, root, c)
      {
        RootChildReachable(u, root, c);
      }
      Walk(root, {});
      assert Done(u, seen, {});
      forall h | Reachable(u, root, h)
        ensures h in seen
      {
        var path :| IsPath(u, root, path) && path[|path| - 1] == h;
        ClosedSetContains(u, root, seen, path);
      }
    }

    /** The whole run: every reachable definition of the headers is emitted once, by the
        emitter of its kind, and nothing else; the functions collected are exactly those
        declared in the headers by a reachable dmd block, and each block is collected once. */
    method Run()
      requires Valid() && seen == {}
      modifies this
      ensures forall h :: h in seen <==> Reachable(u, root, h)
      ensures forall i, j :: 0 <= i < j < |emitted| ==> emitted[i] != emitted[j]
      ensures forall h :: EnumChecks(h) in emitted <==>
                h in u && Reachable(u, root, h) && u[h].inDir && u[h].isDefinition && u[h].kind.Enum?
      ensures forall h :: RecordChecks(h) in emitted <==>
                h in u && Reachable(u, root, h) && u[h].inDir && u[h].isDefinition
                && (u[h].kind.Class? || u[h].kind.Struct?)
      ensures forall h :: h in freeFunctions <==>
                exists b :: b in u && Reachable(u, root, b) && u[b].inDir && u[b].kind.Namespace?
                  && u[b].spelling == "dmd" && h in u[b].children && h in u
                  && u[h].kind.FunctionDecl? && u[h].inDir
      ensures exists blocks: seq<Hash> :: NoDuplicates(blocks) && freeFunctions == Collected(u, blocks)
                && forall h :: h in blocks <==> h in u && Reachable(u, root, h) && IsDmdBlock(u[h])
    {
      WalkAll();
      SelectionIsExact(u, order);
      ghost var blocks := BlocksOf(u, order);
      assert freeFunctions == Collected(u, blocks);
      forall h
        ensures h in freeFunctions <==> exists b :: b in blocks && b in u && h in u[b].children && h in u
                                          && u[h].kind.FunctionDecl? && u[h].inDir
      {
        CollectedIsExact(u, blocks, h);
      }
    }
  }
}
