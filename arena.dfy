/**
 * The CellNodes of modules/cell-graph.js as an arena: node i is nodes[i], a
 * reference to it is Cell(i), and a cycle, which the source keys by the
 * identity of its array, is an id into a table of cycles. This module states
 * the invariants the graph keeps (edge symmetry, dependencies derived from
 * the value, cycle registration) and proves what each step of setValue does
 * to them.
 */
module CellArena {
  import opened FormulaValues
  import opened CellValues

  /** (i + 1) % |c|: the position after i in a cycle. */
  function NextIndex(c: seq<nat>, i: nat): (r: nat)
    requires i < |c|
    ensures r < |c|
  {
    if i + 1 < |c| then i + 1 else 0
  }

  lemma NextIndexMod(c: seq<nat>, i: nat)
    requires i < |c|
    ensures NextIndex(c, i) == (i + 1) % |c|
  {
    if i + 1 == |c| {
      assert (i + 1) % |c| == 0;
    }
  }

  predicate Distinct(c: seq<nat>)
  {
    forall i, j :: 0 <= i < j < |c| ==> c[i] != c[j]
  }

  predicate Members(c: seq<nat>, n: nat)
  {
    forall i :: 0 <= i < |c| ==> c[i] < n
  }

  /** A cycle's list: nonempty, of distinct nodes of the arena. */
  predicate CycleShape(c: seq<nat>, n: nat)
  {
    |c| > 0 && Members(c, n) && Distinct(c)
  }

  /** Each member's dependsOn holds the next member, cyclically. */
  predicate Closed(nodes: seq<Node>, c: seq<nat>)
    requires Members(c, |nodes|)
  {
    forall i {:trigger nodes[c[i]]} :: 0 <= i < |c| ==> Cell(c[NextIndex(c, i)]) in nodes[c[i]].dependsOn
  }

  /** The cycle is in every member's cycles map, pointing at the next member. */
  predicate Registered(nodes: seq<Node>, id: nat, c: seq<nat>)
    requires Members(c, |nodes|)
  {
    forall i {:trigger nodes[c[i]]} :: 0 <= i < |c| ==> id in nodes[c[i]].cycles && nodes[c[i]].cycles[id] == c[NextIndex(c, i)]
  }

  /**
   * The table of cycles: every cycle has an id below next, is registered on
   * its members and, unless it is one of skip, closed.
   */
  predicate TableOk(nodes: seq<Node>, table: map<nat, seq<nat>>, next: nat, skip: set<nat>)
  {
    forall id :: id in table ==>
      id < next && CycleShape(table[id], |nodes|) && Registered(nodes, id, table[id])
      && (id !in skip ==> Closed(nodes, table[id]))
  }

  /** A node's cycles map holds only cycles of the table that the node is in. */
  predicate MembersOk(nodes: seq<Node>, table: map<nat, seq<nat>>)
  {
    forall k, id :: 0 <= k < |nodes| && id in nodes[k].cycles ==> id in table && k in table[id]
  }

  /** Every dependant is a node of the arena. */
  predicate DependantsBelow(nodes: seq<Node>)
  {
    forall k, d :: 0 <= k < |nodes| && d in nodes[k].dependants ==> d < |nodes|
  }

  /** Every edge ends at a node of the arena (or at null). */
  predicate InRange(nodes: seq<Node>)
  {
    (forall k :: 0 <= k < |nodes| ==> TargetsBelow(nodes[k].dependsOn, |nodes|)) && DependantsBelow(nodes)
  }

  /** Edge symmetry: B is in A.dependsOn exactly when A is in B.dependants. */
  predicate Symmetric(nodes: seq<Node>)
  {
    forall a, b :: 0 <= a < |nodes| && 0 <= b < |nodes| ==>
      (Cell(b) in nodes[a].dependsOn <==> a in nodes[b].dependants)
  }

  /** isDynamic and dependsOn are those setValue derived from the node's value. */
  predicate Shapes(nodes: seq<Node>)
  {
    forall k :: 0 <= k < |nodes| ==>
      nodes[k].isDynamic == IsDynamic(nodes[k].value) && nodes[k].dependsOn == ValueDependOn(nodes[k].value)
  }

  predicate GraphOk(nodes: seq<Node>, table: map<nat, seq<nat>>, next: nat)
  {
    InRange(nodes) && Symmetric(nodes) && Shapes(nodes) && TableOk(nodes, table, next, {}) && MembersOk(nodes, table)
  }

  /** Two arenas that differ at most in the fields that f says may differ. */
  predicate SameButCaches(nodes1: seq<Node>, nodes2: seq<Node>)
  {
    |nodes1| == |nodes2| && forall k :: 0 <= k < |nodes1| ==> nodes2[k] == nodes1[k].(cache := nodes2[k].cache)
  }

  /** Every node of nodes2 has the cache it had in nodes1. */
  predicate SameCaches(nodes1: seq<Node>, nodes2: seq<Node>)
  {
    |nodes1| == |nodes2| && forall k :: 0 <= k < |nodes1| ==> nodes2[k].cache == nodes1[k].cache
  }

  predicate SameButCycles(nodes1: seq<Node>, nodes2: seq<Node>)
  {
    |nodes1| == |nodes2| && forall k :: 0 <= k < |nodes1| ==> nodes2[k] == nodes1[k].(cycles := nodes2[k].cycles)
  }

  /** The node a CellNode constructor starts from, before its setValue. */
  function FreshNode(name: string): Node
  {
    Node(name, Unset, false, {}, {}, map[], Undefined)
  }

  /** The first field updates of setValue: the value, isDynamic and the new dependsOn. */
  function AssignValue(nodes: seq<Node>, n: nat, value: CellValue): (r: seq<Node>)
    requires n < |nodes|
    ensures |r| == |nodes|
  {
    nodes[n := nodes[n].(value := value, isDynamic := IsDynamic(value), dependsOn := ValueDependOn(value))]
  }

  /** n leaves the dependants of a lost node and joins those of a gained one. */
  function Adjust(dependants: set<nat>, n: nat, gain: bool, lose: bool): set<nat>
  {
    if lose then dependants - {n} else if gain then dependants + {n} else dependants
  }

  /** The dependants of every node after n gained and lost the given edges. */
  function EdgeUpdate(nodes: seq<Node>, n: nat, gained: set<Target>, lost: set<Target>): (r: seq<Node>)
    ensures |r| == |nodes|
  {
    seq(|nodes|, k requires 0 <= k < |nodes| =>
      nodes[k].(dependants := Adjust(nodes[k].dependants, n, Cell(k) in gained, Cell(k) in lost)))
  }

  /** The dependants of every node are those of base after n gained and lost the given edges. */
  predicate EdgesDone(base: seq<Node>, nodes: seq<Node>, n: nat, gained: set<Target>, lost: set<Target>)
  {
    |nodes| == |base| && forall k :: 0 <= k < |base| ==>
      nodes[k] == base[k].(dependants := Adjust(base[k].dependants, n, Cell(k) in gained, Cell(k) in lost))
  }

  /**
   * What setValue(value) on node n leaves of the arena nodes0: n holds the
   * value and the dependencies it derives, every other node keeps its value,
   * and only the dependants of gained and lost nodes change, by n alone.
   */
  predicate Rewired(nodes0: seq<Node>, nodes: seq<Node>, n: nat, value: CellValue)
    requires n < |nodes0|
  {
    var p := nodes0[n].dependsOn;
    var d := ValueDependOn(value);
    && |nodes| == |nodes0|
    && nodes[n].value == value && nodes[n].dependsOn == d && nodes[n].isDynamic == IsDynamic(value)
    && forall k :: 0 <= k < |nodes| ==>
      && nodes[k].name == nodes0[k].name
      && nodes[k].dependants == Adjust(nodes0[k].dependants, n, Cell(k) in d - p, Cell(k) in p - d)
      && (k != n ==> nodes[k].value == nodes0[k].value && nodes[k].dependsOn == nodes0[k].dependsOn)
      && (k != n ==> nodes[k].isDynamic == nodes0[k].isDynamic)
  }

  /** The cycles of n whose next node is one of the lost dependencies. */
  function BrokenBy(cycles: map<nat, nat>, lost: set<Target>): set<nat>
  {
    set id | id in cycles && Cell(cycles[id]) in lost
  }

/**
   * The table and counter after the cycles found were registered, in order,
   * on table0 and next0: the ids from next0 on hold them and nothing else changed.
   */
  predicate Appended(table0: map<nat, seq<nat>>, next0: nat, table: map<nat, seq<nat>>, next: nat, found: seq<seq<nat>>)
  {
    && next == next0 + |found|
    && (forall id :: id in table0 ==> id in table && table[id] == table0[id])
    && (forall id :: id in table ==> id in table0 || next0 <= id < next)
    && (forall id :: next0 <= id < next ==> id in table && table[id] == found[id - next0])
  }

  /** Every node without the cycle id. */
  function DropAll(nodes: seq<Node>, id: nat): (r: seq<Node>)
    ensures |r| == |nodes|
  {
    seq(|nodes|, k requires 0 <= k < |nodes| => nodes[k].(cycles := nodes[k].cycles - {id}))
  }

  // ---------------------------------------------------------------------------
  // What each step does to the invariants

  /** Every cycle in found starts at node n. */
  predicate StartsAt(found: seq<seq<nat>>, n: nat)
  {
    forall j :: 0 <= j < |found| ==> |found[j]| > 0 && found[j][0] == n
  }

  lemma StartsAtConcat(found: seq<seq<nat>>, cycles: seq<seq<nat>>, n: nat)
    requires StartsAt(found, n) && forall c :: c in cycles ==> |c| > 0 && c[0] == n
    ensures StartsAt(found + cycles, n)
  {
    forall j | 0 <= j < |found + cycles|
      ensures |(found + cycles)[j]| > 0 && (found + cycles)[j][0] == n
    {
      if j >= |found| {
        assert (found + cycles)[j] == cycles[j - |found|];
      }
    }
  }

  /** A graph's invariants do not read the caches. */
  lemma CachesIrrelevant(nodes1: seq<Node>, nodes2: seq<Node>, table: map<nat, seq<nat>>, next: nat)
    requires SameButCaches(nodes1, nodes2) && GraphOk(nodes1, table, next)
    ensures GraphOk(nodes2, table, next)
  {
    forall k | 0 <= k < |nodes1|
      ensures nodes2[k].dependsOn == nodes1[k].dependsOn && nodes2[k].dependants == nodes1[k].dependants
      ensures nodes2[k].cycles == nodes1[k].cycles && nodes2[k].value == nodes1[k].value
      ensures nodes2[k].isDynamic == nodes1[k].isDynamic
    {
      assert nodes2[k] == nodes1[k].(cache := nodes2[k].cache);
    }
  }

  lemma EdgesDoneIs(base: seq<Node>, nodes: seq<Node>, n: nat, gained: set<Target>, lost: set<Target>)
    requires EdgesDone(base, nodes, n, gained, lost)
    ensures nodes == EdgeUpdate(base, n, gained, lost)
  {
  }

/**
   * The table and counter after setValue on n: the broken cycles of table0
   * are gone, the others kept, and the cycles found are registered in order
   * from next0 on, each starting at n.
   */
  predicate Recycled(table0: map<nat, seq<nat>>, next0: nat, table: map<nat, seq<nat>>, next: nat,
                     broken: set<nat>, n: nat, found: seq<seq<nat>>)
  {
    && next == next0 + |found|
    && (forall id :: id in table0 ==> (id in table <==> id !in broken))
    && (forall id :: id in table0 && id in table ==> table[id] == table0[id])
    && (forall id :: id in table ==> id in table0 || next0 <= id < next)
    && (forall id :: next0 <= id < next ==> id in table && table[id] == found[id - next0])
    && StartsAt(found, n)
  }

  /** Dropping the broken cycles, then appending those found, is Recycled. */
  lemma RecycledOf(table0: map<nat, seq<nat>>, next0: nat, mid: map<nat, seq<nat>>, table: map<nat, seq<nat>>,
                   next: nat, broken: set<nat>, n: nat, found: seq<seq<nat>>)
    requires forall id :: id in table0 ==> id < next0
    requires forall id :: id in mid <==> id in table0 && id !in broken
    requires forall id :: id in mid ==> mid[id] == table0[id]
    requires Appended(mid, next0, table, next, found)
    requires StartsAt(found, n)
    ensures Recycled(table0, next0, table, next, broken, n, found)
  {
  }

  /** Registering one cycle under the next id appends it. */
  lemma AppendedOne(table: map<nat, seq<nat>>, next: nat, c: seq<nat>)
    requires forall id :: id in table ==> id < next
    ensures Appended(table, next, table[next := c], next + 1, [c])
  {
  }

  lemma AppendedTrans(t0: map<nat, seq<nat>>, n0: nat, t1: map<nat, seq<nat>>, n1: nat,
                      t2: map<nat, seq<nat>>, n2: nat, f: seq<seq<nat>>, g: seq<seq<nat>>)
    requires Appended(t0, n0, t1, n1, f) && Appended(t1, n1, t2, n2, g)
    ensures Appended(t0, n0, t2, n2, f + g)
  {
    forall id | n0 <= id < n2
      ensures id in t2 && t2[id] == (f + g)[id - n0]
    {
      if id < n1 {
        assert id in t1 && t1[id] == f[id - n0];
      } else {
        assert (f + g)[id - n0] == g[id - n1];
      }
    }
  }

  /** With no gained and no lost edge the dependants stay as they were. */
  lemma EdgesNone(base: seq<Node>, nodes: seq<Node>, n: nat)
    requires EdgesDone(base, nodes, n, {}, {})
    ensures nodes == base
  {
    forall k | 0 <= k < |base|
      ensures nodes[k] == base[k]
    {
      assert Adjust(base[k].dependants, n, false, false) == base[k].dependants;
    }
  }

    lemma SameButCachesTrans(nodes1: seq<Node>, nodes2: seq<Node>, nodes3: seq<Node>)
    requires SameButCaches(nodes1, nodes2) && SameButCaches(nodes2, nodes3)
    ensures SameButCaches(nodes1, nodes3)
  {
    forall k | 0 <= k < |nodes1|
      ensures nodes3[k] == nodes1[k].(cache := nodes3[k].cache)
    {
      assert nodes2[k] == nodes1[k].(cache := nodes2[k].cache);
      assert nodes3[k] == nodes2[k].(cache := nodes3[k].cache);
    }
  }

  lemma SameButCyclesTrans(nodes1: seq<Node>, nodes2: seq<Node>, nodes3: seq<Node>)
    requires SameButCycles(nodes1, nodes2) && SameButCycles(nodes2, nodes3)
    ensures SameButCycles(nodes1, nodes3)
  {
    forall k | 0 <= k < |nodes1|
      ensures nodes3[k] == nodes1[k].(cycles := nodes3[k].cycles)
    {
      assert nodes2[k] == nodes1[k].(cycles := nodes2[k].cycles);
      assert nodes3[k] == nodes2[k].(cycles := nodes3[k].cycles);
    }
  }

  /**
   * The steps of setValue before updateCache (the value, the edges, the
   * cycles) leave every cache as it was.
   */
  lemma CachesThrough(nodes0: seq<Node>, valued: seq<Node>, rewired: seq<Node>, cycled: seq<Node>,
                      n: nat, value: CellValue, gained: set<Target>, lost: set<Target>)
    requires n < |nodes0| && valued == AssignValue(nodes0, n, value)
    requires EdgesDone(valued, rewired, n, gained, lost) && SameButCycles(rewired, cycled)
    ensures SameCaches(nodes0, cycled)
  {
    forall k | 0 <= k < |nodes0|
      ensures cycled[k].cache == nodes0[k].cache
    {
      assert valued[k].cache == nodes0[k].cache;
      assert rewired[k] == valued[k].(dependants := Adjust(valued[k].dependants, n, Cell(k) in gained, Cell(k) in lost));
      assert cycled[k] == rewired[k].(cycles := cycled[k].cycles);
    }
  }

  /** Changing caches keeps every dependant in the arena. */
  lemma CachesKeepDependants(nodes1: seq<Node>, nodes2: seq<Node>)
    requires SameButCaches(nodes1, nodes2) && DependantsBelow(nodes1)
    ensures DependantsBelow(nodes2)
  {
    forall k | 0 <= k < |nodes1|
      ensures nodes2[k].dependants == nodes1[k].dependants
    {
      assert nodes2[k] == nodes1[k].(cache := nodes2[k].cache);
    }
  }

  /** Dropping the cycle c from each of its members drops it from every node. */
  lemma DroppedAll(nodes: seq<Node>, nodes': seq<Node>, id: nat, c: seq<nat>)
    requires Members(c, |nodes|) && SameButCycles(nodes, nodes')
    requires forall k, id' :: 0 <= k < |nodes| && id' in nodes[k].cycles ==> id' != id || k in c
    requires forall j :: 0 <= j < |c| ==> nodes'[c[j]].cycles == nodes[c[j]].cycles - {id}
    requires forall k :: 0 <= k < |nodes| && k !in c ==> nodes'[k] == nodes[k]
    ensures nodes' == DropAll(nodes, id)
  {
    forall k | 0 <= k < |nodes|
      ensures nodes'[k] == DropAll(nodes, id)[k]
    {
      assert nodes'[k] == nodes[k].(cycles := nodes'[k].cycles);
      if k in c {
        var j :| 0 <= j < |c| && c[j] == k;
      } else {
        assert nodes[k].cycles - {id} == nodes[k].cycles;
      }
    }
  }

  /** The rewired edges, then cycle and cache changes, are what setValue promises. */
  lemma RewiredAfter(nodes0: seq<Node>, b: seq<Node>, c: seq<Node>, d: seq<Node>, n: nat, value: CellValue)
    requires n < |nodes0|
    requires b == EdgeUpdate(AssignValue(nodes0, n, value), n, ValueDependOn(value) - nodes0[n].dependsOn,
                             nodes0[n].dependsOn - ValueDependOn(value))
    requires SameButCycles(b, c) && SameButCaches(c, d)
    ensures Rewired(nodes0, d, n, value)
  {
    forall k | 0 <= k < |d|
      ensures d[k].name == b[k].name && d[k].dependants == b[k].dependants && d[k].value == b[k].value
      ensures d[k].dependsOn == b[k].dependsOn && d[k].isDynamic == b[k].isDynamic
    {
      assert c[k] == b[k].(cycles := c[k].cycles);
      assert d[k] == c[k].(cache := d[k].cache);
    }
  }

/** Changing caches keeps what setValue promises of values and edges. */
  lemma RewiredCaches(nodes0: seq<Node>, c: seq<Node>, d: seq<Node>, n: nat, value: CellValue)
    requires n < |nodes0| && Rewired(nodes0, c, n, value) && SameButCaches(c, d)
    ensures Rewired(nodes0, d, n, value)
  {
    forall k | 0 <= k < |d|
      ensures d[k] == c[k].(cache := d[k].cache)
    {
    }
  }

  /** A new node, with no edges and no cycles, keeps the invariants. */
  lemma AppendFresh(nodes: seq<Node>, table: map<nat, seq<nat>>, next: nat, name: string)
    requires GraphOk(nodes, table, next)
    ensures GraphOk(nodes + [FreshNode(name)], table, next)
  {
    var nodes' := nodes + [FreshNode(name)];
    forall k | 0 <= k < |nodes|
      ensures nodes'[k] == nodes[k]
    {
    }
    assert Symmetric(nodes') by {
      forall a, b | 0 <= a < |nodes'| && 0 <= b < |nodes'|
        ensures Cell(b) in nodes'[a].dependsOn <==> a in nodes'[b].dependants
      {
        if a < |nodes| && b == |nodes| {
          assert Cell(b) !in nodes[a].dependsOn;
        }
      }
    }
    assert TableOk(nodes', table, next, {}) by {
      forall id | id in table
        ensures CycleShape(table[id], |nodes'|) && Registered(nodes', id, table[id]) && Closed(nodes', table[id])
      {
        assert Registered(nodes, id, table[id]) && Closed(nodes, table[id]);
      }
    }
  }

  /** Edge symmetry after setValue has rewired the dependants of its gained and lost nodes. */
  lemma EdgesSymmetric(nodes: seq<Node>, n: nat, value: CellValue)
    requires Symmetric(nodes) && n < |nodes|
    ensures var p := nodes[n].dependsOn; var d := ValueDependOn(value);
      Symmetric(EdgeUpdate(AssignValue(nodes, n, value), n, d - p, p - d))
  {
    var p := nodes[n].dependsOn;
    var d := ValueDependOn(value);
    var a1 := AssignValue(nodes, n, value);
    var b := EdgeUpdate(a1, n, d - p, p - d);
    forall x, y | 0 <= x < |b| && 0 <= y < |b|
      ensures Cell(y) in b[x].dependsOn <==> x in b[y].dependants
    {
      assert b[y].dependants == Adjust(nodes[y].dependants, n, Cell(y) in d - p, Cell(y) in p - d);
      assert Cell(y) in nodes[n].dependsOn <==> n in nodes[y].dependants;
      if x != n {
        assert b[x].dependsOn == nodes[x].dependsOn;
      }
    }
  }

  /** What rewiring the edges changes: n's own value and dependsOn, and dependants by at most n. */
  lemma EdgesFrame(nodes: seq<Node>, n: nat, value: CellValue)
    requires n < |nodes|
    ensures var p := nodes[n].dependsOn; var d := ValueDependOn(value);
      var b := EdgeUpdate(AssignValue(nodes, n, value), n, d - p, p - d);
      && b[n].dependsOn == d && b[n].value == value && b[n].isDynamic == IsDynamic(value)
      && forall k :: 0 <= k < |b| ==>
        && b[k].cycles == nodes[k].cycles
        && b[k].dependants <= nodes[k].dependants + {n}
        && (k != n ==> b[k].dependsOn == nodes[k].dependsOn && b[k].value == nodes[k].value)
        && (k != n ==> b[k].isDynamic == nodes[k].isDynamic)
  {
  }

  /** The rest of the invariants after the edges are rewired, all but closure of the broken cycles. */
  lemma EdgesRest(nodes: seq<Node>, table: map<nat, seq<nat>>, next: nat, n: nat, value: CellValue)
    requires GraphOk(nodes, table, next) && n < |nodes|
    requires TargetsBelow(ValueDependOn(value), |nodes|)
    ensures var p := nodes[n].dependsOn; var d := ValueDependOn(value);
      var b := EdgeUpdate(AssignValue(nodes, n, value), n, d - p, p - d);
      InRange(b) && Shapes(b) && MembersOk(b, table)
  {
    EdgesFrame(nodes, n, value);
  }

  /** The table after the edges are rewired: only the cycles broken at n may have lost closure. */
  lemma EdgesTable(nodes: seq<Node>, table: map<nat, seq<nat>>, next: nat, n: nat, value: CellValue)
    requires TableOk(nodes, table, next, {}) && n < |nodes|
    ensures var p := nodes[n].dependsOn; var d := ValueDependOn(value);
      var b := EdgeUpdate(AssignValue(nodes, n, value), n, d - p, p - d);
      TableOk(b, table, next, BrokenBy(nodes[n].cycles, p - d))
  {
    var p := nodes[n].dependsOn;
    var d := ValueDependOn(value);
    var b := EdgeUpdate(AssignValue(nodes, n, value), n, d - p, p - d);
    EdgesFrame(nodes, n, value);
    var broken := BrokenBy(nodes[n].cycles, p - d);
    forall id | id in table
      ensures CycleShape(table[id], |b|) && Registered(b, id, table[id])
      ensures id !in broken ==> Closed(b, table[id])
    {
      var c := table[id];
      assert Registered(nodes, id, c) && Closed(nodes, c);
      if id !in broken {
        forall i | 0 <= i < |c|
          ensures Cell(c[NextIndex(c, i)]) in b[c[i]].dependsOn
        {
          if c[i] == n {
            assert nodes[n].cycles[id] == c[NextIndex(c, i)];
          }
        }
      }
    }
  }

  /** After the cycle id is dropped from every node and from the table. */
  lemma DropKeeps(nodes: seq<Node>, table: map<nat, seq<nat>>, next: nat, skip: set<nat>, id: nat)
    requires MembersOk(nodes, table) && TableOk(nodes, table, next, skip)
    ensures var d := DropAll(nodes, id);
      MembersOk(d, table - {id}) && TableOk(d, table - {id}, next, skip - {id})
  {
    var d := DropAll(nodes, id);
    forall k | 0 <= k < |d|
      ensures d[k].dependsOn == nodes[k].dependsOn && d[k].cycles == nodes[k].cycles - {id}
    {
    }
    forall id' | id' in table - {id}
      ensures Registered(d, id', table[id']) && (id' !in skip ==> Closed(d, table[id']))
    {
      assert Registered(nodes, id', table[id']);
      assert id' !in skip ==> Closed(nodes, table[id']);
    }
  }

  /** Edges, values and their shapes do not read the cycles. */
  lemma CyclesIrrelevant(nodes1: seq<Node>, nodes2: seq<Node>)
    requires SameButCycles(nodes1, nodes2) && InRange(nodes1) && Symmetric(nodes1) && Shapes(nodes1)
    ensures InRange(nodes2) && Symmetric(nodes2) && Shapes(nodes2)
  {
    forall k | 0 <= k < |nodes1|
      ensures nodes2[k].dependsOn == nodes1[k].dependsOn && nodes2[k].dependants == nodes1[k].dependants
      ensures nodes2[k].value == nodes1[k].value && nodes2[k].isDynamic == nodes1[k].isDynamic
    {
      assert nodes2[k] == nodes1[k].(cycles := nodes2[k].cycles);
    }
  }

  /** After a closed cycle c is registered on its members under the fresh id next. */
  lemma RegisterKeeps(nodes: seq<Node>, nodes': seq<Node>, table: map<nat, seq<nat>>, next: nat, c: seq<nat>)
    requires GraphOk(nodes, table, next)
    requires CycleShape(c, |nodes|) && Closed(nodes, c)
    requires SameButCycles(nodes, nodes')
    requires forall j :: 0 <= j < |c| ==> nodes'[c[j]].cycles == nodes[c[j]].cycles[next := c[NextIndex(c, j)]]
    requires forall k :: 0 <= k < |nodes| && k !in c ==> nodes'[k] == nodes[k]
    ensures GraphOk(nodes', table[next := c], next + 1)
  {
    var table' := table[next := c];
    forall k | 0 <= k < |nodes|
      ensures nodes'[k].dependsOn == nodes[k].dependsOn && nodes'[k].dependants == nodes[k].dependants
      ensures nodes'[k].value == nodes[k].value && nodes'[k].isDynamic == nodes[k].isDynamic
      ensures forall id :: id != next ==> (id in nodes'[k].cycles <==> id in nodes[k].cycles)
      ensures forall id :: id != next && id in nodes[k].cycles ==> nodes'[k].cycles[id] == nodes[k].cycles[id]
      ensures next in nodes'[k].cycles ==> k in c
    {
      assert nodes'[k] == nodes[k].(cycles := nodes'[k].cycles);
      if k in c {
        var j :| 0 <= j < |c| && c[j] == k;
        assert nodes'[k].cycles == nodes[k].cycles[next := c[NextIndex(c, j)]];
      } else {
        assert nodes'[k] == nodes[k];
        assert next !in table;
        assert next !in nodes[k].cycles;
      }
    }
    assert TableOk(nodes', table', next + 1, {}) by {
      forall id | id in table'
        ensures id < next + 1 && CycleShape(table'[id], |nodes'|)
        ensures Registered(nodes', id, table'[id]) && Closed(nodes', table'[id])
      {
        if id != next {
          assert Registered(nodes, id, table[id]) && Closed(nodes, table[id]);
        }
      }
    }
    assert MembersOk(nodes', table') by {
      forall k, id | 0 <= k < |nodes'| && id in nodes'[k].cycles
        ensures id in table' && k in table'[id]
      {
        if id != next {
          assert id in nodes[k].cycles;
        }
      }
    }
  }

  /** The closure of a cycle reads only dependsOn. */
  lemma ClosedTransfer(nodes: seq<Node>, nodes': seq<Node>, c: seq<nat>)
    requires |nodes| == |nodes'| && Members(c, |nodes|) && Closed(nodes, c)
    requires forall k :: 0 <= k < |nodes| ==> nodes'[k].dependsOn == nodes[k].dependsOn
    ensures Closed(nodes', c)
  {
  }

  /**
   * Every member of a registered cycle caches undefined: it depends on the
   * next member, so its value is a formula tree, and its cycles map is not
   * empty.
   */
  lemma CycleMembersUndefined(nodes: seq<Node>, table: map<nat, seq<nat>>, next: nat, id: nat, i: nat)
    requires GraphOk(nodes, table, next) && id in table && i < |table[id]|
    ensures CacheRule(nodes[table[id][i]], nodes) == Undefined
  {
    var c := table[id];
    var m := c[i];
    assert Registered(nodes, id, c) && Closed(nodes, c);
    assert id in nodes[m].cycles;
    assert Cell(c[NextIndex(c, i)]) in nodes[m].dependsOn;
    assert nodes[m].value.Live? && IsDynamicTree(nodes[m].value.tree);
  }

  /**
   * A cycle found by setValue on n closes through a node that depends on n,
   * so a node without dependants finds none.
   */
  lemma ClosingDependant(nodes: seq<Node>, table: map<nat, seq<nat>>, next: nat, table0: map<nat, seq<nat>>,
                         next0: nat, broken: set<nat>, n: nat, found: seq<seq<nat>>)
    requires GraphOk(nodes, table, next) && Recycled(table0, next0, table, next, broken, n, found) && n < |nodes|
    ensures |found| > 0 ==> nodes[n].dependants != {}
  {
    if |found| > 0 {
      var c := table[next0];
      assert c == found[0] && c[0] == n;
      var i := |c| - 1;
      assert NextIndex(c, i) == 0;
      assert Closed(nodes, c) && Members(c, |nodes|);
      assert Cell(n) in nodes[c[i]].dependsOn;
      assert c[i] in nodes[n].dependants;
    }
  }

  /** Breaking no cycle and finding none leaves the table as it was. */
  lemma RecycledNone(table0: map<nat, seq<nat>>, next0: nat, table: map<nat, seq<nat>>, next: nat, n: nat)
    requires Recycled(table0, next0, table, next, {}, n, [])
    ensures table == table0 && next == next0
  {
    assert table.Keys == table0.Keys;
  }

  /**
   * The table of cycles fixes every node's cycles map: two arenas valid under
   * the same table agree on the maps of the nodes they share, and a node only
   * one of them has is in no cycle.
   */
  lemma CyclesDetermined(nodes1: seq<Node>, nodes2: seq<Node>, table: map<nat, seq<nat>>, next: nat)
    requires GraphOk(nodes1, table, next) && GraphOk(nodes2, table, next) && |nodes1| <= |nodes2|
    ensures forall k :: 0 <= k < |nodes1| ==> nodes2[k].cycles == nodes1[k].cycles
    ensures forall k :: |nodes1| <= k < |nodes2| ==> nodes2[k].cycles == map[]
  {
    forall k | 0 <= k < |nodes2|
      ensures k < |nodes1| ==> nodes2[k].cycles == nodes1[k].cycles
      ensures k >= |nodes1| ==> nodes2[k].cycles == map[]
    {
      forall id | id in nodes2[k].cycles
        ensures k < |nodes1| && id in nodes1[k].cycles && nodes1[k].cycles[id] == nodes2[k].cycles[id]
      {
        var c := table[id];
        var i :| 0 <= i < |c| && c[i] == k;
        assert Registered(nodes1, id, c) && Registered(nodes2, id, c);
        assert Members(c, |nodes1|);
      }
      if k < |nodes1| {
        forall id | id in nodes1[k].cycles
          ensures id in nodes2[k].cycles
        {
          var c := table[id];
          var i :| 0 <= i < |c| && c[i] == k;
          assert Registered(nodes2, id, c);
        }
      }
    }
  }
}
