/**
 The memoising vtable computation of the layout-test generator.

 Tables are heap objects, as Python lists are, so that the copy taken of the
 base table matters: the cache hands out references, and a finished table that
 were written through would change under every holder.
 */
module VtableTool {
  import opened Common
  import opened VtableLayout
  import opened InheritanceChain
  import opened LayoutChecks

  // ----- the tool -----

  class VtableList {
    var slots: seq<Slot>

    constructor (slots: seq<Slot>)
      ensures this.slots == slots
    {
      this.slots := slots;
    }

    /** The scan over the table's entries for the first named one. */
    method IndexOf(names: seq<string>) returns (i: int)
      ensures i == FindSlot(slots, names)
    {
      i := 0;
      while i < |slots|
        invariant 0 <= i <= |slots|
        invariant forall j :: 0 <= j < i ==> slots[j].mangled !in names
      {
        if slots[i].mangled in names {
          return;
        }
        i := i + 1;
      }
      i := -1;
    }
  }

  /** The table of class c according to the uncached definition, if c has a chain. */
  ghost predicate Uncached(prog: Program, c: Hash, slots: seq<Slot>)
  {
    forall hs {:trigger IsChain(prog, hs)} :: IsChain(prog, hs) && hs[|hs| - 1] == c ==>
      slots == ChainTable(prog, hs)
  }

  /** No class of `active` lies on the chain of c. */
  ghost predicate Clear(prog: Program, c: Hash, active: set<Hash>)
  {
    forall hs, a {:trigger IsChain(prog, hs), a in active} ::
      IsChain(prog, hs) && hs[|hs| - 1] == c && a in active ==> a !in hs
  }

  lemma ClearForBase(prog: Program, c: Hash, b: Hash, active: set<Hash>)
    requires c in prog && FirstBase(prog[c]) == Some(b) && Clear(prog, c, active)
    ensures Clear(prog, b, active + {c})
  {
    forall hs, a | IsChain(prog, hs) && hs[|hs| - 1] == b && a in active + {c}
      ensures a !in hs
    {
      var longer := hs + [c];
      assert longer[..|hs|] == hs;
      assert IsChain(prog, longer);
      ChainHasNoRepeat(prog, longer);
    }
  }

  /** A table extended from the base's uncached table is the uncached table. */
  lemma UncachedStep(prog: Program, c: Hash, base: seq<Slot>)
    requires c in prog
    requires FirstBase(prog[c]).Some? ==> Uncached(prog, FirstBase(prog[c]).value, base)
    requires FirstBase(prog[c]).None? ==> base == []
    ensures Uncached(prog, c, Extend(base, Virtuals(prog[c])))
  {
    forall hs | IsChain(prog, hs) && hs[|hs| - 1] == c
      ensures Extend(base, Virtuals(prog[c])) == ChainTable(prog, hs)
    {
      var init := hs[..|hs| - 1];
      ExtendContinuesTable(ChainMethods(prog, init), Virtuals(prog[c]));
      if FirstBase(prog[c]).Some? {
        assert IsChain(prog, init);
      }
    }
  }

  /** Every finished table is the uncached one; the classes of `active`, whose
      computation is in progress, hold cycle sentinels. */
  ghost predicate Transparent(prog: Program, tables: map<Hash, seq<Slot>>, active: set<Hash>)
  {
    forall c {:trigger tables[c]} :: c in tables && c !in active ==> Uncached(prog, c, tables[c])
  }

  /** No cached table is dropped or altered. */
  ghost predicate Kept(before: map<Hash, seq<Slot>>, after: map<Hash, seq<Slot>>)
  {
    && before.Keys <= after.Keys
    && forall c {:trigger before[c]} {:trigger after[c]} :: c in before ==> after[c] == before[c]
  }

  lemma KeptThrough(before: map<Hash, seq<Slot>>, during: map<Hash, seq<Slot>>,
                    c: Hash, sentinel: seq<Slot>, slots: seq<Slot>)
    requires c !in before && Kept(before[c := sentinel], during)
    ensures Kept(before, during[c := slots])
  {
    assert before.Keys <= before[c := sentinel].Keys;
  }

  class Generator {
    const prog: Program
    var cache: map<Hash, VtableList>
    /** The contents of the cached lists. */
    ghost var tables: map<Hash, seq<Slot>>

    constructor (prog: Program)
      ensures this.prog == prog && Valid() && tables == map[]
    {
      this.prog := prog;
      cache := map[];
      tables := map[];
    }

    ghost predicate Valid()
      reads this, cache.Values
    {
      && cache.Keys == tables.Keys
      && forall c {:trigger cache[c]} {:trigger tables[c]} :: c in cache ==> cache[c].slots == tables[c]
    }

    /** Outside any computation `active` is empty. */
    method ComputeVtable(cls: Hash, ghost active: set<Hash>) returns (vtable: VtableList)
      requires Valid() && Closed(prog) && cls in prog
      requires Transparent(prog, tables, active) && Clear(prog, cls, active)
      modifies this
      ensures Valid() && Transparent(prog, tables, active)
      ensures cls in cache && cache[cls] == vtable && Uncached(prog, cls, vtable.slots)
      ensures Kept(old(tables), tables)
      ensures forall c :: c in old(tables) ==> c in tables && tables[c] == old(tables)[c]
      decreases prog.Keys - cache.Keys, 0
    {
      if cls in cache {
        return cache[cls];
      }
      var sentinel := new VtableList([]);
      Store(cls, sentinel, active + {cls});

      assert cls in prog.Keys - old(cache.Keys);
      var base := BaseVtable(cls, active);
      vtable := FillTable(base, prog[cls]);
      KeptThrough(old(tables), tables, cls, [], vtable.slots);
      Store(cls, vtable, active);
    }

    /** The table that a class in progress starts from: its first base's, or an empty one. */
    method BaseVtable(cls: Hash, ghost active: set<Hash>) returns (base: VtableList)
      requires Valid() && Closed(prog) && cls in prog
      requires Transparent(prog, tables, active + {cls}) && Clear(prog, cls, active)
      modifies this
      ensures Valid() && Transparent(prog, tables, active + {cls})
      ensures Uncached(prog, cls, Extend(base.slots, Virtuals(prog[cls])))
      ensures Kept(old(tables), tables)
      decreases prog.Keys - cache.Keys, 1
    {
      base := new VtableList([]);
      var definition := FindBase(prog[cls]);
      if definition.Some? {
        ClearForBase(prog, cls, definition.value, active);
        base := ComputeVtable(definition.value, active + {cls});
      }
      UncachedStep(prog, cls, base.slots);
    }

    /** The assignment to a cache entry. */
    method Store(cls: Hash, vtable: VtableList, ghost active: set<Hash>)
      requires Valid() && Transparent(prog, tables, active + {cls})
      requires cls !in active ==> Uncached(prog, cls, vtable.slots)
      modifies this
      ensures cache == old(cache)[cls := vtable] && tables == old(tables)[cls := vtable.slots]
      ensures Valid() && Transparent(prog, tables, active)
    {
      cache := cache[cls := vtable];
      tables := tables[cls := vtable.slots];
    }

    /** The search for the first base specifier. */
    static method FindBase(children: seq<Child>) returns (definition: Option<Hash>)
      ensures definition == FirstBase(children)
    {
      var i := 0;
      while i < |children|
        invariant i <= |children|
        invariant FirstBase(children) == FirstBase(children[i..])
      {
        if children[i].BaseSpecifier? {
          return children[i].definition;
        }
        i := i + 1;
      }
      return None;
    }

    /** Copies the base table, then lets each virtual method replace or append. */
    static method FillTable(base: VtableList, children: seq<Child>) returns (vtable: VtableList)
      ensures fresh(vtable) && vtable.slots == Extend(base.slots, Virtuals(children))
    {
      vtable := new VtableList(base.slots);
      for i := 0 to |children|
        invariant fresh(vtable) && vtable.slots == Extend(base.slots, Virtuals(children[..i]))
      {
        assert children[..i + 1][..i] == children[..i];
        if !IsVirtual(children[i]) {
          assert Virtuals(children[..i + 1]) == Virtuals(children[..i]);
          continue;
        }
        var m := children[i].fn;
        assert Virtuals(children[..i + 1])[..|Virtuals(children[..i])|] == Virtuals(children[..i]);
        var placed := false;
        if m.overridden != [] {
          var at := vtable.IndexOf(m.overridden);
          if 0 <= at {
            vtable.slots := vtable.slots[at := Slot(m.mangled, m.spelling)];
            placed := true;
          }
        }
        if !placed {
          vtable.slots := vtable.slots + [Slot(m.mangled, m.spelling)];
        }
      }
      assert children[..|children|] == children;
    }

    /** The index of a method in the table of a class, or -1. */
    method GetVtableIndex(m: Function, cls: Hash) returns (i: int)
      requires Valid() && Closed(prog) && cls in prog && Transparent(prog, tables, {})
      modifies this
      ensures Valid() && Transparent(prog, tables, {})
      ensures cls in tables && Uncached(prog, cls, tables[cls]) && i == FindSlot(tables[cls], [m.mangled])
      ensures Kept(old(tables), tables)
    {
      var vtable := ComputeVtable(cls, {});
      i := vtable.IndexOf([m.mangled]);
    }

    /** The vtable checks emitted for a class record: one for each virtual method
        whose name is not overloaded in the class and that the table holds. */
    method EmitVtableChecks(cls: Hash) returns (checks: seq<(string, int)>)
      requires Valid() && Closed(prog) && cls in prog && Transparent(prog, tables, {})
      modifies this
      ensures Valid() && Transparent(prog, tables, {})
      ensures Kept(old(tables), tables)
      ensures Virtuals(prog[cls]) == [] ==> checks == []
      ensures Virtuals(prog[cls]) != [] ==>
                && cls in tables && Uncached(prog, cls, tables[cls])
                && checks == VtableChecks(tables[cls], Virtuals(prog[cls]), |Virtuals(prog[cls])|)
      ensures forall p, q, i: int ::
                (0 <= p < q < |Virtuals(prog[cls])| &&
                 Virtuals(prog[cls])[p].spelling == Virtuals(prog[cls])[q].spelling)
                ==> (Virtuals(prog[cls])[p].spelling, i) !in checks
    {
      var virtuals := Virtuals(prog[cls]);
      ghost var slots := [];
      checks := [];
      for i := 0 to |virtuals|
        invariant Valid() && Transparent(prog, tables, {})
        invariant Kept(old(tables), tables)
        invariant 0 < i ==> cls in tables && slots == tables[cls] && Uncached(prog, cls, slots)
        invariant checks == VtableChecks(slots, virtuals, i)
      {
        var check := EmitVtableCheck(virtuals[i], virtuals, cls);
        slots := tables[cls];
        assert checks == VtableChecks(slots, virtuals, i);
        checks := checks + check;
      }
      forall p, q, i: int | 0 <= p < q < |virtuals| && virtuals[p].spelling == virtuals[q].spelling
        ensures (virtuals[p].spelling, i) !in checks
      {
        if (virtuals[p].spelling, i) in checks {
          OverloadedIsNotChecked(slots, virtuals, p, q, (virtuals[p].spelling, i));
        }
      }
    }

    method EmitVtableCheck(m: Function, virtuals: seq<Function>, cls: Hash) returns (check: seq<(string, int)>)
      requires Valid() && Closed(prog) && cls in prog && Transparent(prog, tables, {})
      modifies this
      ensures Valid() && Transparent(prog, tables, {}) && Kept(old(tables), tables)
      ensures cls in tables && Uncached(prog, cls, tables[cls]) && check == CheckOf(tables[cls], virtuals, m)
    {
      var index := GetVtableIndex(m, cls);
      check := if Declarations(virtuals, m.spelling) == 1 && 0 <= index then [(m.spelling, index)] else [];
    }
  }

  /** Answers the queries one after another, with a new generator. The i-th answer is
      the uncached table of the i-th class, and still is when all are answered: tables
      depend neither on the order of the queries nor on what was asked before. */
  method AnswerQueries(prog: Program, queries: seq<Hash>) returns (answers: seq<VtableList>)
    requires forall c {:trigger FirstBase(prog[c])} ::
               c in prog && FirstBase(prog[c]).Some? ==> FirstBase(prog[c]).value in prog
    requires forall c :: c in queries ==> c in prog
    ensures |answers| == |queries|
    ensures forall i :: 0 <= i < |queries| ==> Uncached(prog, queries[i], answers[i].slots)
    ensures forall i, hs {:trigger queries[i], IsChain(prog, hs)} ::
              0 <= i < |queries| && IsChain(prog, hs) && hs[|hs| - 1] == queries[i] ==>
                answers[i].slots == ChainTable(prog, hs)
  {
    var generator := new Generator(prog);
    answers := [];
    for i := 0 to |queries|
      invariant generator.prog == prog && generator.Valid() && Transparent(prog, generator.tables, {})
      invariant |answers| == i
      invariant forall j :: 0 <= j < i ==> Uncached(prog, queries[j], answers[j].slots)
    {
      assert queries[i] in queries;
      var answer := generator.ComputeVtable(queries[i], {});
      answers := answers + [answer];
    }
  }

  /** The table of the chain that ends in class c. */
  ghost predicate ChainTabled(prog: Program, c: Hash, slots: seq<Slot>)
  {
    exists hs {:trigger IsChain(prog, hs)} :: IsChain(prog, hs) && hs[|hs| - 1] == c && slots == ChainTable(prog, hs)
  }

  /** In an acyclic hierarchy every class has a chain, so that each answer is the table
      of the chain that ends in the class queried. */
  method AnswerAcyclicQueries(prog: Program, ghost rank: map<Hash, nat>, queries: seq<Hash>)
    returns (answers: seq<VtableList>)
    requires prog.Keys <= rank.Keys
    requires forall c {:trigger FirstBase(prog[c])} ::
               c in prog && FirstBase(prog[c]).Some? ==>
                 FirstBase(prog[c]).value in prog && rank[FirstBase(prog[c]).value] < rank[c]
    requires forall c :: c in queries ==> c in prog
    ensures |answers| == |queries|
    ensures forall i :: 0 <= i < |queries| ==> ChainTabled(prog, queries[i], answers[i].slots)
  {
    answers := AnswerQueries(prog, queries);
    forall i | 0 <= i < |queries|
      ensures ChainTabled(prog, queries[i], answers[i].slots)
    {
      assert queries[i] in queries;
      var hs := AcyclicHasChain(prog, rank, queries[i]);
    }
  }

  /** The checks emitted for the last class of a well-reported chain contain one for
      each virtual method whose name is not overloaded, against the slot of the method
      that it overrides at the root. */
  lemma UniqueMethodIsEmitted(prog: Program, hs: seq<Hash>, v: nat, slots: seq<Slot>, checks: seq<(string, int)>)
    requires IsChain(prog, hs) && ChainReported(prog, hs) && v < |Virtuals(prog[hs[|hs| - 1]])|
    requires Declarations(Virtuals(prog[hs[|hs| - 1]]), Virtuals(prog[hs[|hs| - 1]])[v].spelling) == 1
    requires Uncached(prog, hs[|hs| - 1], slots)
    requires checks == VtableChecks(slots, Virtuals(prog[hs[|hs| - 1]]), |Virtuals(prog[hs[|hs| - 1]])|)
    ensures var ms, k := ChainMethods(prog, hs), |ChainMethods(prog, hs[..|hs| - 1])| + v;
            && k < |ms| && ms[k] == Virtuals(prog[hs[|hs| - 1]])[v]
            && exists i: nat | i < |Introduced(ms, |ms|)| ::
                 Introduced(ms, |ms|)[i] == Root(ms, k) && (ms[k].spelling, i) in checks
  {
    var own := Virtuals(prog[hs[|hs| - 1]]);
    UniqueMethodIsChecked(prog, hs, v);
    CheckIsEmitted(slots, own, |own|, v);
  }
}
