/**
 * modules/cell-graph.js: the CellGraph, which owns the cell entries and the
 * active CellNodes, with the CellNode methods applied to nodes of its arena.
 * The callback cellDisplayUpdateCallback is the event log `events`.
 */
module CellGraphs {
  import opened Wrappers
  import opened FormulaValues
  import opened FormulaText
  import opened FormulaTree
  import FormulaParser
  import opened CellValues
  import opened CellArena
  import opened CacheFlood

  /** setMinus: the elements of a that are not in b. */
  method SetMinus(a: set<Target>, b: set<Target>) returns (diff: set<Target>)
    ensures diff == a - b
  {
    diff := {};
    var rest := a;
    while rest != {}
      invariant rest <= a
      invariant diff == (a - rest) - b
      decreases rest
    {
      var el :| el in rest;
      if el !in b {
        diff := diff + {el};
      }
      rest := rest - {el};
    }
  }

  /** The dependencies of the first i arguments of a call. */
  ghost function ArgDeps(args: seq<Bound>, i: nat): set<Target>
    requires i <= |args|
  {
    UnionAll(seq(i, k requires 0 <= k < i => DependOn(args[k])))
  }

  lemma ArgDepsStep(args: seq<Bound>, i: nat)
    requires i < |args|
    ensures ArgDeps(args, i + 1) == ArgDeps(args, i) + DependOn(args[i])
  {
    var s := seq(i + 1, k requires 0 <= k < i + 1 => DependOn(args[k]));
    assert s[..i] == seq(i, k requires 0 <= k < i => DependOn(args[k]));
  }

  lemma ArgDepsAll(f: Func, args: seq<Bound>, index: int, length: int, allowNull: bool)
    ensures ArgDeps(args, |args|) == DependOn(BCall(f, args, index, length, allowNull))
  {
    assert seq(|args|, k requires 0 <= k < |args| => DependOn(args[k]))
        == seq(|args|, k requires 0 <= k < |args| => DependOn(args[k]));
  }

  /** deriveDependOn: adds the targets of every reference in the tree to dependSet. */
  method DeriveDependOn(tree: Bound, dependSet: set<Target>) returns (r: set<Target>)
    ensures r == dependSet + DependOn(tree)
    decreases tree
  {
    r := dependSet;
    match tree {
      case BCall(f, args, index, length, allowNull) =>
        for i := 0 to |args|
          invariant r == dependSet + ArgDeps(args, i)
        {
          ArgDepsStep(args, i);
          r := DeriveDependOn(args[i], r);
        }
        ArgDepsAll(f, args, index, length, allowNull);
      case BRef(ref) =>
        r := r + {ref.target};
      case BNumber(_) =>
      case BOther(_) =>
    }
  }

  /** Calls a formula node's function on the values of its arguments. */
  method CallFunc(f: Func, vals: seq<Val>) returns (r: Val)
    ensures r == Apply(f, vals)
  {
    if f == SumFn {
      r := Sum(vals);
    } else if f == AvgFn {
      r := Avg(vals);
    } else {
      r := Apply(f, vals);
    }
  }

  /** cellEntries.get(name), None for undefined. */
  function Lookup(entries: map<string, Entry>, name: string): Option<Entry>
  {
    if name in entries then Some(entries[name]) else None
  }

  /** The value an active node holds for its entry: a tree for a dynamic formula, otherwise the entry or null. */
  predicate NodeAgrees(value: CellValue, entry: Option<Entry>)
  {
    if entry.Some? && entry.value.DynamicFormula? then IsDynamic(value) else value == EntryValue(entry)
  }

  /** Each active cell name is that of its node. */
  ghost predicate NamesOkOf(active: map<string, nat>, nodes: seq<Node>)
  {
    forall name :: name in active ==> active[name] < |nodes| && nodes[active[name]].name == name
  }

  /**
   * A dynamic formula has an active node; a stored formula is what its text
   * parses to; an active node's value is its entry (null for none), or a
   * tree when the entry is dynamic.
   */
  ghost predicate EntriesOkOf(entries: map<string, Entry>, active: map<string, nat>, nodes: seq<Node>)
  {
    EntriesAgreeOf(entries, active, nodes) && EntriesParsed(entries)
  }

  /** The part of EntriesOkOf that relates the entries to the nodes. */
  ghost predicate EntriesAgreeOf(entries: map<string, Entry>, active: map<string, nat>, nodes: seq<Node>)
  {
    && (forall name :: name in entries && entries[name].DynamicFormula? ==> name in active)
    && (forall name :: name in active && active[name] < |nodes| ==>
          NodeAgrees(nodes[active[name]].value, Lookup(entries, name)))
  }

  /** The part of EntriesOkOf about the entries alone: a stored formula is what its text parses to. */
  ghost predicate EntriesParsed(entries: map<string, Entry>)
  {
    forall name :: name in entries && IsFormulaEntry(entries[name]) ==>
      entries[name] == FormulaEntry(entries[name].text, FormulaTree.ParseFormula(entries[name].text))
  }

  /** Every tree in the arena is an object made before next. */
  ghost predicate ObjectsOkOf(nodes: seq<Node>, next: nat)
  {
    forall k :: 0 <= k < |nodes| && nodes[k].value.Live? ==> nodes[k].value.identity < next
  }

  /** Only the value of node n changed, and no name. */
  ghost predicate ValueFrame(nodes0: seq<Node>, nodes: seq<Node>, n: nat)
  {
    && |nodes| == |nodes0|
    && forall k :: 0 <= k < |nodes| ==> nodes[k].name == nodes0[k].name && (k != n ==> nodes[k].value == nodes0[k].value)
  }

/**
   * A node created for a reference to an inactive cell: it holds the cell's
   * stored entry (or nothing), has no edges and no cycles, and caches what
   * its rule gives.
   */
  ghost predicate Isolated(node: Node, nodes: seq<Node>)
  {
    && !node.value.Live? && !node.isDynamic
    && node.dependsOn == {} && node.dependants == {} && node.cycles == map[]
    && node.cache == CacheRule(node, nodes)
  }

  /** nodes is nodes0 with isolated nodes appended and no other change. */
  ghost predicate Grown(nodes0: seq<Node>, nodes: seq<Node>)
  {
    && |nodes0| <= |nodes| && nodes[..|nodes0|] == nodes0
    && forall k :: |nodes0| <= k < |nodes| ==> Isolated(nodes[k], nodes)
  }

  /**
   * A node named name made after nodes0 with the value value: setValue left
   * base, and its flood is the one step that gave the node the cache of its
   * rule, which nothing else reads.
   */
  ghost predicate Created(nodes0: seq<Node>, name: string, value: CellValue, fuel: nat, flood: seq<Step>, base: seq<Node>, nodes: seq<Node>)
  {
    var id := |nodes0|;
    && |nodes| == id + 1
    && SameCaches(nodes0 + [FreshNode(name)], base) && SameButCaches(base, nodes) && Flood(base, id, fuel, flood, nodes)
    && flood == [Step(id, Undefined, nodes[id].cache, fuel)] && nodes == SetCache(base, id, nodes[id].cache)
    && Rewired(nodes0 + [FreshNode(name)], nodes, id, value)
    && nodes[id].cache == CacheRule(nodes[id], nodes)
    && (forall k :: 0 <= k < id ==> nodes[k].cycles == nodes0[k].cycles) && nodes[id].cycles == map[]
  }

  /**
   * The arena while a formula is bound: binding grows nodes0 into bound;
   * then either nothing more happened, or the cell was created with its new
   * value, by the flood creation from cbase.
   */
  ghost predicate Binding(nodes0: seq<Node>, bound: seq<Node>, creation: seq<Step>, cbase: seq<Node>, nodes: seq<Node>,
                          name: string, value: Option<CellValue>, fuel: nat)
  {
    && Grown(nodes0, bound)
    && (creation == [] ==> nodes == bound)
    && (creation != [] ==> value.Some? && Created(bound, name, value.value, fuel, creation, cbase, nodes))
  }

  lemma GrownTrans(nodes1: seq<Node>, nodes2: seq<Node>, nodes3: seq<Node>)
    requires Grown(nodes1, nodes2) && Grown(nodes2, nodes3)
    ensures Grown(nodes1, nodes3)
  {
    assert nodes3[..|nodes1|] == nodes3[..|nodes2|][..|nodes1|];
    forall k | |nodes1| <= k < |nodes3|
      ensures Isolated(nodes3[k], nodes3)
    {
      if k < |nodes2| {
        assert nodes3[k] == nodes3[..|nodes2|][k] == nodes2[k];
      }
    }
  }

  lemma GrownRefl(nodes: seq<Node>)
    ensures Grown(nodes, nodes)
  {
    assert nodes[..|nodes|] == nodes;
  }

  /** Every cell active in a1 is active in a2 with the same node. */
  ghost predicate Extends(a1: map<string, nat>, a2: map<string, nat>)
  {
    forall name :: name in a1 ==> name in a2 && a2[name] == a1[name]
  }

  /** The empty graph: no nodes, no cycles, no names, no entries. */
  lemma EmptyOk()
    ensures GraphOk([], map[], 0) && NamesOkOf(map[], []) && EntriesOkOf(map[], map[], []) && ObjectsOkOf([], 0)
  {
  }

  lemma ExtendsTrans(a1: map<string, nat>, a2: map<string, nat>, a3: map<string, nat>)
    requires Extends(a1, a2) && Extends(a2, a3)
    ensures Extends(a1, a3)
  {
  }

  /** cellEntries after storing an entry; null deletes it. */
  function StoreEntry(entries: map<string, Entry>, name: string, entry: Option<Entry>): map<string, Entry>
  {
    if entry.Some? then entries[name := entry.value] else entries - {name}
  }

  /** displayValue for a cell: its entry, through its node's cache when the entry is dynamic. */
  function DisplayIn(entries: map<string, Entry>, active: map<string, nat>, nodes: seq<Node>, name: string): Display
    requires Lookup(entries, name).Some? && Lookup(entries, name).value.DynamicFormula? ==> name in active && active[name] < |nodes|
  {
    DisplayValue(Lookup(entries, name), if name in active && active[name] < |nodes| then Some(nodes[active[name]].cache) else None)
  }

  /** The change callback's calls: one event for name when its display went from before to after. */
  function Reported(name: string, before: Display, after: Display): (r: seq<Event>)
    ensures |r| <= 1 && (r != [] ==> r[0] == Event(name, after))
  {
    if after != before then [Event(name, after)] else []
  }

  /** A formula entry with the text of a formula is the entry that text stands for. */
  lemma SameFormula(text: string, e: Entry)
    requires IsFormulaText(text) && IsFormulaEntry(e) && e.text == FormulaTextOf(text)
    requires e == FormulaEntry(e.text, FormulaTree.ParseFormula(e.text))
    ensures EntryFor(text) == Some(e)
  {
  }

  /**
   * Whitespace entered in a cell that holds nothing and has no active node
   * leaves the entries as they were and reports nothing.
   */
  lemma BlankEntryQuiet(entries: map<string, Entry>, active: map<string, nat>, nodes: seq<Node>, name: string, text: string)
    requires forall k :: 0 <= k < |text| ==> IsWhitespace(text[k])
    requires name !in entries && name !in active
    ensures StoreEntry(entries, name, EntryFor(text)) == entries
    ensures Reported(name, DisplayIn(entries, active, nodes, name), DisplayIn(StoreEntry(entries, name, EntryFor(text)), active, nodes, name)) == []
  {
    BlankIsEmpty(text);
  }

  /** Storing the entry a map already holds changes nothing. */
  lemma StoreSame(entries: map<string, Entry>, name: string, entry: Option<Entry>)
    requires Lookup(entries, name) == entry
    ensures StoreEntry(entries, name, entry) == entries
  {
  }

  /** Values that setValue finds identical are equal, except trees, which compare by identity. */
  lemma SameValueEqual(a: CellValue, b: CellValue)
    requires SameValue(a, b) && !a.Live?
    ensures a == b
  {
  }

  /** A reference as written in a formula: its column and row text and its span. */
  datatype Site = Site(col: string, row: string, index: int, length: int)

  /** The references count rows of a cell-range expand to, from row start on. */
  function RangeSites(col: string, start: nat, count: nat, index: int, length: int): seq<Site>
  {
    seq(count, k requires 0 <= k < count => Site(col, NatToString(start + k), index, length))
  }

  /**
   * The references of a parsed formula, left to right, each cell-range
   * expanded to the rows from its start to its end.
   */
  function Sites(el: Elem): seq<Site>
  {
    match el
    case Formula(_, args, _, _, _) => Flatten(seq(|args|, k requires 0 <= k < |args| => Sites(args[k])))
    case Reference(col, row, index, length) => [Site(col, row, index, length)]
    case ReferenceRange(col, rowStart, rowEnd, index, length) =>
      var rs := RowNumber(rowStart);
      var re := RowNumber(rowEnd);
      if rs.Some? && re.Some? && rs.value <= re.value then RangeSites(col, rs.value, re.value - rs.value + 1, index, length)
      else []
    case _ => []
  }

  /**
   * A cell-range's references are the rows its loop visits, from start to
   * end; a bound that is not a number stops the loop before its first row.
   */
  lemma RangeSitesOf(col: string, rowStart: string, rowEnd: string, index: int, length: int, start: nat, end: nat)
    requires RowNumber(rowStart).Some? && RowNumber(rowEnd).Some? ==> start == RowNumber(rowStart).value && end == RowNumber(rowEnd).value
    requires RowNumber(rowStart).None? || RowNumber(rowEnd).None? ==> start > end
    ensures RangeSites(col, start, (if start <= end then end + 1 else start) - start, index, length)
      == Sites(ReferenceRange(col, rowStart, rowEnd, index, length))
  {
    if start > end {
      assert RangeSites(col, start, 0, index, length) == [];
    }
  }

  /** The sites of the first i arguments of a call. */
  ghost function ArgSites(args: seq<Elem>, i: nat): seq<Site>
    requires i <= |args|
    decreases i
  {
    if i == 0 then [] else ArgSites(args, i - 1) + Sites(args[i - 1])
  }

  /** The references of a call's first i arguments are those of the flattened argument sites. */
  lemma {:induction false} ArgSitesFlat(args: seq<Elem>, i: nat)
    requires i <= |args|
    ensures ArgSites(args, i) == Flatten(seq(i, k requires 0 <= k < i => Sites(args[k])))
    decreases i
  {
    if i > 0 {
      ArgSitesFlat(args, i - 1);
      var s := seq(i, k requires 0 <= k < i => Sites(args[k]));
      assert s[..i - 1] == seq(i - 1, k requires 0 <= k < i - 1 => Sites(args[k]));
    }
  }

  lemma ArgSitesAll(f: Func, args: seq<Elem>, index: int, length: int, allowNull: bool)
    ensures ArgSites(args, |args|) == Sites(Formula(f, args, index, length, allowNull))
  {
    ArgSitesFlat(args, |args|);
    assert seq(|args|, k requires 0 <= k < |args| => Sites(args[k]))
        == seq(|args|, k requires 0 <= k < |args| => Sites(args[k]));
  }

  /** The references of a sequence of trees, left to right. */
  function ArgRefs(xs: seq<Bound>): seq<CellRef>
  {
    Flatten(seq(|xs|, k requires 0 <= k < |xs| => Refs(xs[k])))
  }

  lemma {:induction false} FlattenConcat<T>(a: seq<seq<T>>, b: seq<seq<T>>)
    ensures Flatten(a + b) == Flatten(a) + Flatten(b)
    decreases |b|
  {
    if |b| == 0 {
      assert a + b == a;
    } else {
      var b' := b[..|b| - 1];
      assert a + b == (a + b') + [b[|b| - 1]];
      assert b == b' + [b[|b| - 1]];
      FlattenAppend(a + b', b[|b| - 1]);
      FlattenAppend(b', b[|b| - 1]);
      FlattenConcat(a, b');
    }
  }

  lemma ArgRefsConcat(xs: seq<Bound>, ys: seq<Bound>)
    ensures ArgRefs(xs + ys) == ArgRefs(xs) + ArgRefs(ys)
  {
    var f := seq(|xs|, k requires 0 <= k < |xs| => Refs(xs[k]));
    var g := seq(|ys|, k requires 0 <= k < |ys| => Refs(ys[k]));
    assert seq(|xs + ys|, k requires 0 <= k < |xs + ys| => Refs((xs + ys)[k])) == f + g;
    FlattenConcat(f, g);
  }

  /** The arguments a converted argument becomes: the references of a range, spliced in, or the one tree. */
  function Piece(c: Converted): seq<Bound>
  {
    if c.Many? then c.refs else [c.tree]
  }

  lemma PieceRefs(c: Converted)
    ensures ArgRefs(Piece(c)) == ConvertedRefs(c)
  {
    if c.One? {
      assert seq(1, k requires 0 <= k < 1 => Refs([c.tree][k])) == [] + [Refs(c.tree)];
      FlattenAppend([], Refs(c.tree));
    } else {
      assert seq(|c.refs|, k requires 0 <= k < |c.refs| => Refs(c.refs[k]))
          == seq(|c.refs|, k requires 0 <= k < |c.refs| => Refs(c.refs[k]));
    }
  }

  lemma CallRefs(f: Func, args: seq<Bound>, index: int, length: int, allowNull: bool)
    ensures Refs(BCall(f, args, index, length, allowNull)) == ArgRefs(args)
  {
    assert seq(|args|, k requires 0 <= k < |args| => Refs(args[k]))
        == seq(|args|, k requires 0 <= k < |args| => Refs(args[k]));
  }

  /**
   * convertFormulaTree keeps a call with its function, span and allowNull,
   * turns a reference into one bound reference and a cell-range into a list
   * of them, and passes anything else through.
   */
  predicate ConvertShape(el: Elem, r: Converted)
  {
    match el
    case Formula(func, _, index, length, allowNull) =>
      r.One? && r.tree.BCall? && r.tree.func == func && r.tree.index == index && r.tree.length == length && r.tree.allowNull == allowNull
    case Reference(_, _, _, _) => r.One? && r.tree.BRef?
    case ReferenceRange(_, _, _, _, _) => r.Many? && forall b :: b in r.refs ==> b.BRef?
    case Number(v) => r == One(BNumber(v))
    case _ => r == One(BOther(el))
  }

  /**
   * isDynamic on a converted formula holds exactly for a call or a reference,
   * and the value of a static one is its number, or undefined.
   */
  lemma ShapeDynamic(el: Elem, r: Converted)
    requires ConvertShape(el, r)
    ensures (r.One? && IsDynamicTree(r.tree)) <==> (el.Formula? || el.Reference?)
    ensures StaticValue(r) == (if el.Number? then Num(el.value) else Undefined)
  {
  }

  /** EntriesOkOf, except that the node of cell skip need not agree with its entry. */
  ghost predicate EntriesOkBut(entries: map<string, Entry>, active: map<string, nat>, nodes: seq<Node>, skip: string)
  {
    && (forall name :: name in entries && entries[name].DynamicFormula? ==> name in active)
    && (forall name :: name in entries && IsFormulaEntry(entries[name]) ==>
          entries[name] == FormulaEntry(entries[name].text, FormulaTree.ParseFormula(entries[name].text)))
    && (forall name :: name in active && name != skip && active[name] < |nodes| ==>
          NodeAgrees(nodes[active[name]].value, Lookup(entries, name)))
  }

  /** The formula entry stored for a text is what its own text parses to. */
  lemma EntryForCanonical(text: string)
    ensures EntryFor(text).Some? && IsFormulaEntry(EntryFor(text).value) ==>
      EntryFor(text).value == FormulaEntry(EntryFor(text).value.text, FormulaTree.ParseFormula(EntryFor(text).value.text))
  {
  }

  /** A value change that brings no newer tree keeps every tree older than next. */
  lemma ObjectsAfter(nodes0: seq<Node>, nodes: seq<Node>, n: nat, next: nat)
    requires ObjectsOkOf(nodes0, next) && ValueFrame(nodes0, nodes, n) && n < |nodes|
    requires nodes[n].value.Live? ==> nodes[n].value.identity < next
    ensures ObjectsOkOf(nodes, next)
  {
  }

  /**
   * A CellGraph: the nodes of the active cells in an arena, the cycles among
   * them by id, the map from cell names to active nodes, the stored entries,
   * and the events sent to cellDisplayUpdateCallback.
   */
  class CellGraph {
    var nodes: seq<Node>
    var cycleTable: map<nat, seq<nat>>
    var nextCycle: nat
    /** The identity the next formula tree object gets. */
    var nextObject: nat
    var activeCells: map<string, nat>
    var cellEntries: map<string, Entry>
    var events: seq<Event>
    const minRow: int
    const maxRow: int
    const minCol: Option<int>
    const maxCol: Option<int>
    /** How deep a change of cache is passed on to dependants. */
    const depth: nat

    /** The state that only the graph's own methods change. */
    ghost function Owned(): (map<string, nat>, map<string, Entry>, nat)
      reads this
    {
      (activeCells, cellEntries, nextObject)
    }

    ghost function Cycles(): (map<nat, seq<nat>>, nat)
      reads this
    {
      (cycleTable, nextCycle)
    }

    ghost predicate Graph()
      reads this
    {
      GraphOk(nodes, cycleTable, nextCycle)
    }

    ghost predicate NamesOk()
      reads this
    {
      NamesOkOf(activeCells, nodes)
    }

    ghost predicate EntriesOk()
      reads this
    {
      EntriesAgreeOf(cellEntries, activeCells, nodes)
    }

    ghost predicate ObjectsOk()
      reads this
    {
      ObjectsOkOf(nodes, nextObject)
    }

    /**
     * All of Valid but the parse of the stored formulas, which depends on
     * cellEntries alone: binding a formula's references keeps cellEntries,
     * so it keeps that part by itself.
     */
    ghost predicate NodesValid()
      reads this
    {
      Graph() && NamesOk() && EntriesOk() && ObjectsOk()
    }

    ghost predicate Valid()
      reads this
    {
      NodesValid() && EntriesParsed(cellEntries)
    }

    constructor (maxColText: string, maxRowNumber: int, depth: nat)
      ensures Valid()
      ensures nodes == [] && cycleTable == map[] && activeCells == map[] && cellEntries == map[] && events == []
      ensures minRow == 1 && maxRow == maxRowNumber && minCol == ColumnToNum("a") && maxCol == ColumnToNum(maxColText)
      ensures this.depth == depth
    {
      nodes := [];
      cycleTable := map[];
      nextCycle := 0;
      nextObject := 0;
      activeCells := map[];
      cellEntries := map[];
      events := [];
      minRow := 1;
      maxRow := maxRowNumber;
      minCol := ColumnToNum("a");
      maxCol := ColumnToNum(maxColText);
      this.depth := depth;
      EmptyOk();
    }

    /** cellInScope: the row in [minRow, maxRow] and the column in [minCol, maxCol]; NaN compares false. */
    predicate CellInScope(col: string, row: string)
    {
      var r := RowNumber(row);
      var c := ColumnToNum(col);
      && r.Some? && minRow <= r.value && r.value <= maxRow
      && c.Some? && minCol.Some? && minCol.value <= c.value && maxCol.Some? && c.value <= maxCol.value
    }

    // -------------------------------------------------------------------------
    // CellNode methods, on node k of the arena

    /** addDependant */
    method AddDependant(k: nat, d: nat)
      requires k < |nodes|
      modifies this
      ensures nodes == old(nodes)[k := old(nodes)[k].(dependants := old(nodes)[k].dependants + {d})]
      ensures Owned() == old(Owned()) && Cycles() == old(Cycles()) && events == old(events)
    {
      nodes := nodes[k := nodes[k].(dependants := nodes[k].dependants + {d})];
    }

    /** removeDependant: ok is false where the source throws, d not being a dependant. */
    method RemoveDependant(k: nat, d: nat) returns (ok: bool)
      requires k < |nodes|
      modifies this
      ensures ok <==> d in old(nodes)[k].dependants
      ensures nodes == old(nodes)[k := old(nodes)[k].(dependants := old(nodes)[k].dependants - {d})]
      ensures Owned() == old(Owned()) && Cycles() == old(Cycles()) && events == old(events)
    {
      ok := d in nodes[k].dependants;
      nodes := nodes[k := nodes[k].(dependants := nodes[k].dependants - {d})];
    }

    /** removeCycle: ok is false where the source throws, the cycle being missing. */
    method RemoveCycle(k: nat, id: nat) returns (ok: bool)
      requires k < |nodes|
      modifies this
      ensures ok <==> id in old(nodes)[k].cycles
      ensures nodes == old(nodes)[k := old(nodes)[k].(cycles := old(nodes)[k].cycles - {id})]
      ensures Owned() == old(Owned()) && Cycles() == old(Cycles()) && events == old(events)
    {
      ok := id in nodes[k].cycles;
      nodes := nodes[k := nodes[k].(cycles := nodes[k].cycles - {id})];
    }

    /** addCycle */
    method AddCycle(k: nat, next: nat, id: nat)
      requires k < |nodes|
      modifies this
      ensures nodes == old(nodes)[k := old(nodes)[k].(cycles := old(nodes)[k].cycles[id := next])]
      ensures Owned() == old(Owned()) && Cycles() == old(Cycles()) && events == old(events)
    {
      nodes := nodes[k := nodes[k].(cycles := nodes[k].cycles[id := next])];
    }

    /** evaluateFormula, reading the caches of the arena. */
    method EvaluateFormula(tree: Bound) returns (v: Val)
      ensures v == Evaluate(tree, nodes)
      decreases tree
    {
      match tree {
        case BCall(f, args, _, _, _) =>
          ghost var arena := nodes;
          ghost var all := seq(|args|, k requires 0 <= k < |args| => Evaluate(args[k], arena));
          var vals: seq<Val> := [];
          for i := 0 to |args|
            invariant vals == all[..i]
            invariant Undefined !in vals
          {
            var val := EvaluateFormula(args[i]);
            if val == Undefined {
              assert all[i] == Undefined;
              return Undefined;
            }
            vals := vals + [val];
          }
          assert vals == all;
          v := CallFunc(f, vals);
        case BNumber(x) =>
          v := Num(x);
        case BRef(r) =>
          if r.target.Nowhere? {
            v := Undefined;
          } else if r.target.id < |nodes| {
            v := nodes[r.target.id].cache;
          } else {
            // not a node of this arena
            v := Undefined;
          }
        case BOther(_) =>
          v := Undefined;
      }
    }

    /** The first half of updateCache: the new cache of node n, and whether it changed. */
    method ApplyCache(n: nat) returns (changed: bool)
      requires n < |nodes|
      modifies this
      ensures nodes == old(nodes)[n := old(nodes)[n].(cache := CacheRule(old(nodes)[n], old(nodes)))]
      ensures changed <==> CacheRule(old(nodes)[n], old(nodes)) != old(nodes)[n].cache
      ensures Owned() == old(Owned()) && Cycles() == old(Cycles()) && events == old(events)
    {
      var node := nodes[n];
      var prevCache := node.cache;
      var cache: Val;
      if node.isDynamic {
        if |node.cycles| != 0 {
          // self reference
          cache := Undefined;
        } else if node.value.Live? {
          cache := EvaluateFormula(node.value.tree);
        } else {
          cache := Undefined;
        }
      } else {
        match node.value {
          case Stored(NumberEntry(x)) => cache := Num(x);
          case Stored(StaticFormula(_, v)) => cache := v;
          case Live(BNumber(x), _) => cache := Num(x);
          case Empty => cache := Null;
          case _ => cache := Undefined;
        }
      }
      nodes := nodes[n := nodes[n].(cache := cache)];
      changed := cache != prevCache;
    }

    /**
     * updateCache: recomputes the cache of node n; a change is reported for a
     * dynamic node and passed on to every dependant, at most fuel levels deep.
     * The log records the flood step by step.
     */
    method UpdateCache(n: nat, fuel: nat) returns (ghost log: seq<Step>)
      requires n < |nodes| && DependantsBelow(nodes)
      modifies this
      ensures Flood(old(nodes), n, fuel, log, nodes)
      ensures events == old(events) + FloodEvents(log, old(nodes))
      ensures SameButCaches(old(nodes), nodes)
      ensures Owned() == old(Owned()) && Cycles() == old(Cycles())
      decreases fuel
    {
      ghost var prev := nodes[n].cache;
      var changed := ApplyCache(n);
      log := [Step(n, prev, nodes[n].cache, fuel)];
      assert FloodEvents(log, old(nodes)) == (if Reports(log[0], old(nodes)) then [StepEvent(log[0], old(nodes))] else []) + FloodEvents([], old(nodes));
      if !changed {
        FloodLeaf(old(nodes), n, fuel);
        ReplaysFinal(old(nodes), log, nodes);
        return;
      }
      if nodes[n].isDynamic {
        events := events + [Event(nodes[n].name, Shown(nodes[n].cache))];
      }
      CachesKeepDependants(old(nodes), nodes);
      if fuel > 0 {
        FloodStart(old(nodes), n, fuel);
        var rest := nodes[n].dependants;
        while rest != {}
          invariant SameButCaches(old(nodes), nodes) && DependantsBelow(nodes)
          invariant rest <= old(nodes)[n].dependants
          invariant Partial(old(nodes), n, fuel, log, nodes, old(nodes)[n].dependants - rest)
          invariant events == old(events) + FloodEvents(log, old(nodes))
          invariant Owned() == old(Owned()) && Cycles() == old(Cycles())
          decreases rest
        {
          var d :| d in rest;
          ghost var before := nodes;
          var sub := UpdateCache(d, fuel - 1);
          FloodJoin(old(nodes), n, fuel, log, before, old(nodes)[n].dependants - rest, d, sub, nodes);
          FloodEventsConcat(log, sub, old(nodes));
          FloodEventsSame(sub, before, old(nodes));
          log := log + sub;
          SameButCachesTrans(old(nodes), before, nodes);
          CachesKeepDependants(before, nodes);
          assert old(nodes)[n].dependants - (rest - {d}) == (old(nodes)[n].dependants - rest) + {d};
          rest := rest - {d};
        }
        assert old(nodes)[n].dependants - rest == old(nodes)[n].dependants;
        FloodDone(old(nodes), n, fuel, log, nodes, old(nodes)[n].dependants);
      } else {
        FloodLeaf(old(nodes), n, fuel);
        assert log == [Step(n, prev, CacheRule(old(nodes)[n], old(nodes)), fuel)];
      }
    }

    // -------------------------------------------------------------------------
    // Cycles

    /** The nodes not on path. */
    ghost function Unvisited(path: seq<nat>): set<nat>
      reads this
    {
      set k: nat | k < |nodes| && k !in path
    }

    /** path is a chain of distinct nodes, each depending on the next, the last one on node. */
    ghost predicate PathOk(path: seq<nat>, node: Target)
      reads this
    {
      && |path| > 0 && Members(path, |nodes|) && Distinct(path)
      && (forall i :: 0 <= i < |path| - 1 ==> Cell(path[i + 1]) in nodes[path[i]].dependsOn)
      && node in nodes[path[|path| - 1]].dependsOn
    }

    /** Each of found is a cycle of the arena that starts with path. */
    ghost predicate FoundOk(found: seq<seq<nat>>, path: seq<nat>)
      reads this
    {
      forall c :: c in found ==> CycleShape(c, |nodes|) && Closed(nodes, c) && |path| <= |c| && c[..|path|] == path
    }

    /**
     * findCyclesFrom, corrected to skip a null node: the cycles through node
     * back to path[0] that extend path.
     */
    method FindCyclesFrom(node: Target, path: seq<nat>) returns (found: seq<seq<nat>>)
      requires InRange(nodes) && PathOk(path, node)
      ensures FoundOk(found, path)
      decreases Unvisited(path)
    {
      if node == Cell(path[0]) {
        // a new cycle
        assert Closed(nodes, path) by {
          forall i | 0 <= i < |path|
            ensures Cell(path[NextIndex(path, i)]) in nodes[path[i]].dependsOn
          {
          }
        }
        return [path];
      } else if node.Nowhere? || node.id in path {
        // in a cycle, but not one containing the origin (or a reference out of scope)
        return [];
      }
      var path' := path + [node.id];
      assert node.id in Unvisited(path) && node.id !in Unvisited(path');
      assert Unvisited(path') < Unvisited(path);
      found := [];
      var rest := nodes[node.id].dependsOn;
      while rest != {}
        invariant rest <= nodes[node.id].dependsOn
        invariant FoundOk(found, path)
        decreases rest
      {
        var d :| d in rest;
        var more := FindCyclesFrom(d, path');
        forall c | c in more
          ensures |path| <= |c| && c[..|path|] == path
        {
          assert c[..|path'|][..|path|] == c[..|path|];
        }
        found := found + more;
        rest := rest - {d};
      }
    }

    /**
     * findCyclesFrom as written: a null node is pushed onto the path and its
     * dependsOn read, which throws (crashed).
     */
    method FindCyclesFromAsWritten(node: Target, path: seq<nat>) returns (found: seq<seq<nat>>, crashed: bool)
      requires InRange(nodes) && |path| > 0 && Members(path, |nodes|) && (node.Cell? ==> node.id < |nodes|)
      ensures node.Nowhere? ==> crashed
      ensures node.Cell? && node.id !in path && Nowhere in nodes[node.id].dependsOn ==> crashed
      decreases Unvisited(path)
    {
      if node == Cell(path[0]) {
        return [path], false;
      } else if node.Cell? && node.id in path {
        return [], false;
      }
      if node.Nowhere? {
        // null.dependsOn
        return [], true;
      }
      var path' := path + [node.id];
      assert node.id in Unvisited(path) && node.id !in Unvisited(path');
      assert Unvisited(path') < Unvisited(path);
      found := [];
      var rest := nodes[node.id].dependsOn;
      while rest != {}
        invariant rest <= nodes[node.id].dependsOn
        invariant Nowhere in nodes[node.id].dependsOn ==> Nowhere in rest
        decreases rest
      {
        var d :| d in rest;
        var more, err := FindCyclesFromAsWritten(d, path');
        if err {
          return [], true;
        }
        found := found + more;
        rest := rest - {d};
      }
      crashed := false;
    }

    /** The loop of setValue that removes the broken cycle id from each of its nodes. */
    method DropCycle(id: nat)
      requires id in cycleTable && CycleShape(cycleTable[id], |nodes|)
      requires Registered(nodes, id, cycleTable[id]) && MembersOk(nodes, cycleTable)
      modifies this
      ensures nodes == DropAll(old(nodes), id)
      ensures cycleTable == old(cycleTable) - {id} && nextCycle == old(nextCycle)
      ensures Owned() == old(Owned()) && events == old(events)
    {
      var c := cycleTable[id];
      RemoveFromMembers(c, id);
      DroppedAll(old(nodes), nodes, id, c);
      cycleTable := cycleTable - {id};
    }

    /** for (const node of cycle) node.removeCycle(cycle), where no removeCycle throws. */
    method RemoveFromMembers(c: seq<nat>, id: nat)
      requires Members(c, |nodes|) && Distinct(c)
      requires forall i :: 0 <= i < |c| ==> id in nodes[c[i]].cycles
      modifies this
      ensures SameButCycles(old(nodes), nodes)
      ensures forall j :: 0 <= j < |c| ==> nodes[c[j]].cycles == old(nodes)[c[j]].cycles - {id}
      ensures forall k :: 0 <= k < |nodes| && k !in c ==> nodes[k] == old(nodes)[k]
      ensures Owned() == old(Owned()) && Cycles() == old(Cycles()) && events == old(events)
    {
      for i := 0 to |c|
        invariant SameButCycles(old(nodes), nodes)
        invariant forall j :: 0 <= j < i ==> nodes[c[j]].cycles == old(nodes)[c[j]].cycles - {id}
        invariant forall k :: 0 <= k < |nodes| && k !in c[..i] ==> nodes[k] == old(nodes)[k]
        invariant Owned() == old(Owned()) && Cycles() == old(Cycles()) && events == old(events)
      {
        assert c[i] !in c[..i];
        var ok := RemoveCycle(c[i], id);
        assert ok;
        assert c[..i + 1] == c[..i] + [c[i]];
      }
      assert c[..|c|] == c;
    }

    /** The loop of setValue that registers the new cycle c on each of its nodes, under a fresh id. */
    method RegisterCycle(c: seq<nat>)
      requires CycleShape(c, |nodes|)
      modifies this
      ensures SameButCycles(old(nodes), nodes)
      ensures forall j :: 0 <= j < |c| ==> nodes[c[j]].cycles == old(nodes)[c[j]].cycles[old(nextCycle) := c[NextIndex(c, j)]]
      ensures forall k :: 0 <= k < |nodes| && k !in c ==> nodes[k] == old(nodes)[k]
      ensures cycleTable == old(cycleTable)[old(nextCycle) := c] && nextCycle == old(nextCycle) + 1
      ensures Owned() == old(Owned()) && events == old(events)
    {
      var id := nextCycle;
      var cycleLength := |c|;
      var node := c[0];
      for i := 0 to cycleLength
        invariant i < cycleLength ==> node == c[i]
        invariant SameButCycles(old(nodes), nodes)
        invariant forall j :: 0 <= j < i ==> nodes[c[j]].cycles == old(nodes)[c[j]].cycles[id := c[NextIndex(c, j)]]
        invariant forall k :: 0 <= k < |nodes| && k !in c[..i] ==> nodes[k] == old(nodes)[k]
        invariant Owned() == old(Owned()) && Cycles() == old(Cycles()) && events == old(events)
      {
        NextIndexMod(c, i);
        var nextNode := c[(i + 1) % cycleLength];
        ghost var before := nodes;
        AddCycle(node, nextNode, id);
        assert c[..i + 1] == c[..i] + [c[i]];
        assert forall j :: 0 <= j < i ==> c[j] != c[i];
        node := nextNode;
      }
      assert c[..cycleLength] == c;
      cycleTable := cycleTable[id := c];
      nextCycle := nextCycle + 1;
    }
    // -------------------------------------------------------------------------
    // setValue, step by step

    /** The loop over lostDepsOn: n leaves the dependants of each lost node, none of which throws. */
    method DetachLost(n: nat, lost: set<Target>)
      requires n < |nodes| && TargetsBelow(lost, |nodes|)
      requires forall t :: t in lost && t.Cell? ==> n in nodes[t.id].dependants
      modifies this
      ensures EdgesDone(old(nodes), nodes, n, {}, lost)
      ensures Owned() == old(Owned()) && Cycles() == old(Cycles()) && events == old(events)
    {
      var rest := lost;
      while rest != {}
        invariant rest <= lost
        invariant EdgesDone(old(nodes), nodes, n, {}, lost - rest)
        invariant Owned() == old(Owned()) && Cycles() == old(Cycles()) && events == old(events)
        decreases rest
      {
        var t :| t in rest;
        if t.Cell? {
          var ok := RemoveDependant(t.id, n);
          assert ok;
        }
        rest := rest - {t};
      }
    }

    /** The loop over gainedDepsOn: n joins the dependants of each gained node. */
    method AttachGained(n: nat, gained: set<Target>, ghost base: seq<Node>, ghost lost: set<Target>)
      requires TargetsBelow(gained, |nodes|) && gained !! lost && EdgesDone(base, nodes, n, {}, lost)
      modifies this
      ensures EdgesDone(base, nodes, n, gained, lost)
      ensures Owned() == old(Owned()) && Cycles() == old(Cycles()) && events == old(events)
    {
      var rest := gained;
      while rest != {}
        invariant rest <= gained
        invariant EdgesDone(base, nodes, n, gained - rest, lost)
        invariant Owned() == old(Owned()) && Cycles() == old(Cycles()) && events == old(events)
        decreases rest
      {
        var t :| t in rest;
        if t.Cell? {
          AddDependant(t.id, n);
        }
        rest := rest - {t};
      }
    }

    /** The cycles.forEach of setValue: every cycle of n whose next node was lost is dropped. */
    method BreakCycles(n: nat, lost: set<Target>)
      requires n < |nodes|
      requires MembersOk(nodes, cycleTable) && TableOk(nodes, cycleTable, nextCycle, BrokenBy(nodes[n].cycles, lost))
      modifies this
      ensures MembersOk(nodes, cycleTable) && TableOk(nodes, cycleTable, nextCycle, {}) && SameButCycles(old(nodes), nodes)
      ensures forall id :: id in cycleTable <==> id in old(cycleTable) && id !in BrokenBy(old(nodes)[n].cycles, lost)
      ensures forall id :: id in cycleTable ==> cycleTable[id] == old(cycleTable)[id]
      ensures BrokenBy(old(nodes)[n].cycles, lost) == {} ==> nodes == old(nodes) && Cycles() == old(Cycles())
      ensures nextCycle == old(nextCycle) && Owned() == old(Owned()) && events == old(events)
    {
      ghost var broken := BrokenBy(nodes[n].cycles, lost);
      ghost var skip := broken;
      var nodeCycles := nodes[n].cycles;
      var rest := nodeCycles.Keys;
      while rest != {}
        invariant rest <= nodeCycles.Keys
        invariant Breaking(old(cycleTable), broken, skip, rest)
        invariant SameButCycles(old(nodes), nodes)
        invariant broken == {} ==> nodes == old(nodes) && Cycles() == old(Cycles())
        invariant Owned() == old(Owned()) && nextCycle == old(nextCycle) && events == old(events)
        decreases rest
      {
        var id :| id in rest;
        ghost var before := nodes;
        var isBroken := Cell(nodeCycles[id]) in lost;
        BreakOne(id, isBroken, old(cycleTable), broken, skip, rest);
        SameButCyclesTrans(old(nodes), before, nodes);
        skip := skip - {id};
        rest := rest - {id};
      }
    }

    /**
     * While the cycles of a node are visited: the table is table0 less the
     * broken cycles already visited, which are those not in skip.
     */
    ghost predicate Breaking(table0: map<nat, seq<nat>>, broken: set<nat>, skip: set<nat>, rest: set<nat>)
      reads this
    {
      && rest <= cycleTable.Keys && skip <= rest && skip <= broken
      && (forall id :: id in cycleTable <==> id in table0 && (id in broken ==> id in skip))
      && (forall id :: id in cycleTable ==> cycleTable[id] == table0[id])
      && MembersOk(nodes, cycleTable) && TableOk(nodes, cycleTable, nextCycle, skip)
    }

    /** One step of the cycles.forEach of setValue: the cycle id is dropped if it is broken. */
    method BreakOne(id: nat, isBroken: bool, ghost table0: map<nat, seq<nat>>, ghost broken: set<nat>,
                    ghost skip: set<nat>, ghost rest: set<nat>)
      requires id in rest && (isBroken <==> id in broken) && Breaking(table0, broken, skip, rest)
      modifies this
      ensures Breaking(table0, broken, skip - {id}, rest - {id})
      ensures SameButCycles(old(nodes), nodes)
      ensures !isBroken ==> nodes == old(nodes) && Cycles() == old(Cycles())
      ensures nextCycle == old(nextCycle) && Owned() == old(Owned()) && events == old(events)
    {
      if isBroken {
        DropKeeps(nodes, cycleTable, nextCycle, skip, id);
        DropCycle(id);
      } else {
        assert skip - {id} == skip;
      }
    }

    /** Registers each of found, cycles through n of this arena, in turn, under consecutive fresh ids. */
    method RegisterAll(n: nat, found: seq<seq<nat>>)
      requires Graph() && n < |nodes|
      requires forall c :: c in found ==> CycleShape(c, |nodes|) && Closed(nodes, c) && c[0] == n
      modifies this
      ensures Graph() && SameButCycles(old(nodes), nodes)
      ensures Appended(old(cycleTable), old(nextCycle), cycleTable, nextCycle, found)
      ensures found == [] ==> nodes == old(nodes) && Cycles() == old(Cycles())
      ensures Owned() == old(Owned()) && events == old(events)
    {
      for j := 0 to |found|
        invariant Graph() && SameButCycles(old(nodes), nodes)
        invariant Appended(old(cycleTable), old(nextCycle), cycleTable, nextCycle, found[..j])
        invariant j == 0 ==> nodes == old(nodes) && Cycles() == old(Cycles())
        invariant Owned() == old(Owned()) && events == old(events)
      {
        var c := found[j];
        assert c in found;
        ghost var before := nodes;
        ghost var table := cycleTable;
        ghost var next := nextCycle;
        ClosedTransfer(old(nodes), nodes, c);
        RegisterCycle(c);
        RegisterKeeps(before, nodes, table, next, c);
        SameButCyclesTrans(old(nodes), before, nodes);
        AppendedOne(table, next, c);
        AppendedTrans(old(cycleTable), old(nextCycle), table, next, cycleTable, nextCycle, found[..j], [c]);
        assert found[..j] + [c] == found[..j + 1];
      }
      assert found[..|found|] == found;
    }

    /**
     * The loop of setValue over gainedDepsOn that finds and registers the
     * cycles each new edge closes; found lists them in the order registered.
     */
    method AddNewCycles(n: nat, gained: set<Target>) returns (ghost found: seq<seq<nat>>)
      requires Graph() && n < |nodes|
      requires forall t :: t in gained ==> t in nodes[n].dependsOn
      modifies this
      ensures Graph() && SameButCycles(old(nodes), nodes)
      ensures Appended(old(cycleTable), old(nextCycle), cycleTable, nextCycle, found)
      ensures StartsAt(found, n)
      ensures gained == {} ==> found == [] && nodes == old(nodes) && Cycles() == old(Cycles())
      ensures Owned() == old(Owned()) && events == old(events)
    {
      found := [];
      var rest := gained;
      while rest != {}
        invariant rest <= gained
        invariant Graph() && SameButCycles(old(nodes), nodes)
        invariant Appended(old(cycleTable), old(nextCycle), cycleTable, nextCycle, found)
        invariant StartsAt(found, n)
        invariant rest == gained ==> found == [] && nodes == old(nodes) && Cycles() == old(Cycles())
        invariant Owned() == old(Owned()) && events == old(events)
        decreases rest
      {
        var g :| g in rest;
        if g.Cell? {
          assert nodes[n].dependsOn == old(nodes)[n].dependsOn by {
            assert nodes[n] == old(nodes)[n].(cycles := nodes[n].cycles);
          }
          var cycles := FindCyclesFrom(g, [n]);
          forall c | c in cycles
            ensures |c| > 0 && c[0] == n
          {
            assert c[..1] == [n];
          }
          ghost var table := cycleTable;
          ghost var next := nextCycle;
          RegisterAll(n, cycles);
          AppendedTrans(old(cycleTable), old(nextCycle), table, next, cycleTable, nextCycle, found, cycles);
          StartsAtConcat(found, cycles, n);
          found := found + cycles;
        }
        rest := rest - {g};
      }
    }

    /**
     * The steps of setValue between a change of value and updateCache: node
     * n takes the value and the dependencies it derives, the edges gained and
     * lost are rewired, the cycles broken at n are dropped and those the new
     * edges close are registered, in order, as found; no cache changes.
     */
    method Relink(n: nat, value: CellValue) returns (ghost found: seq<seq<nat>>)
      requires Graph() && n < |nodes| && TargetsBelow(ValueDependOn(value), |nodes|)
      modifies this
      ensures Graph() && Owned() == old(Owned()) && events == old(events)
      ensures SameCaches(old(nodes), nodes) && Rewired(old(nodes), nodes, n, value)
      ensures Recycled(old(cycleTable), old(nextCycle), cycleTable, nextCycle,
                       BrokenBy(old(nodes)[n].cycles, old(nodes)[n].dependsOn - ValueDependOn(value)), n, found)
      ensures ValueDependOn(value) == old(nodes)[n].dependsOn ==>
        nodes == AssignValue(old(nodes), n, value) && Cycles() == old(Cycles()) && found == []
    {
      var newDependsOn := {};
      if value.Live? {
        newDependsOn := DeriveDependOn(value.tree, newDependsOn);
      }
      var prevDependsOn := nodes[n].dependsOn;
      nodes := nodes[n := nodes[n].(value := value, isDynamic := IsDynamic(value), dependsOn := newDependsOn)];
      assert newDependsOn == ValueDependOn(value);
      assert nodes == AssignValue(old(nodes), n, value);
      var gained := SetMinus(newDependsOn, prevDependsOn);
      var lost := SetMinus(prevDependsOn, newDependsOn);
      ghost var valued := nodes;
      DetachLost(n, lost);
      AttachGained(n, gained, valued, lost);
      EdgesDoneIs(valued, nodes, n, gained, lost);
      EdgesSymmetric(old(nodes), n, value);
      EdgesRest(old(nodes), cycleTable, nextCycle, n, value);
      EdgesTable(old(nodes), cycleTable, nextCycle, n, value);
      ghost var rewired := nodes;
      ghost var table := cycleTable;
      BreakCycles(n, lost);
      CyclesIrrelevant(rewired, nodes);
      ghost var broke := nodes;
      ghost var mid := cycleTable;
      found := AddNewCycles(n, gained);
      RecycledOf(table, old(nextCycle), mid, cycleTable, nextCycle, BrokenBy(rewired[n].cycles, lost), n, found);
      ghost var cycled := nodes;
      SameButCyclesTrans(rewired, broke, cycled);
      CachesThrough(old(nodes), valued, rewired, cycled, n, value, gained, lost);
      if newDependsOn == prevDependsOn {
        assert gained == {} && lost == {};
        EdgesNone(valued, rewired, n);
        assert BrokenBy(rewired[n].cycles, lost) == {};
        assert cycled == broke == rewired == valued;
      }
      RewiredAfter(old(nodes), rewired, cycled, cycled, n, value);
    }

    /**
     * setValue: a value identical to the current one changes nothing;
     * otherwise node n takes the value and the dependencies it derives, only
     * the edges gained and lost are rewired, the cycles broken at n are
     * dropped, those the new edges close are registered, and the caches are
     * updated from n: log is that flood, which starts from base, the rewired
     * arena with the caches as they were.
     */
    method SetValue(n: nat, value: CellValue) returns (ghost log: seq<Step>, ghost base: seq<Node>, ghost found: seq<seq<nat>>)
      requires Graph() && n < |nodes| && TargetsBelow(ValueDependOn(value), |nodes|)
      modifies this
      ensures Graph() && Owned() == old(Owned()) && old(events) <= events
      ensures events == old(events) + FloodEvents(log, base)
      ensures SameValue(value, old(nodes)[n].value) ==> log == []
      ensures !SameValue(value, old(nodes)[n].value) ==>
        SameCaches(old(nodes), base) && SameButCaches(base, nodes) && Flood(base, n, depth, log, nodes)
      ensures ValueFrame(old(nodes), nodes, n)
      ensures nodes[n].value == if SameValue(value, old(nodes)[n].value) then old(nodes)[n].value else value
      ensures SameValue(value, old(nodes)[n].value) ==> nodes == old(nodes) && Cycles() == old(Cycles()) && events == old(events)
      ensures !SameValue(value, old(nodes)[n].value) ==> Rewired(old(nodes), nodes, n, value)
      ensures !SameValue(value, old(nodes)[n].value) ==>
        Recycled(old(cycleTable), old(nextCycle), cycleTable, nextCycle,
                 BrokenBy(old(nodes)[n].cycles, old(nodes)[n].dependsOn - ValueDependOn(value)), n, found)
      ensures SameValue(value, old(nodes)[n].value) ==> found == []
      ensures !SameValue(value, old(nodes)[n].value) && ValueDependOn(value) == old(nodes)[n].dependsOn ==>
        base == AssignValue(old(nodes), n, value) && Cycles() == old(Cycles()) && found == []
    {
      var prevValue := nodes[n].value;
      if SameValue(value, prevValue) {
        return [], nodes, [];
      }
      found := Relink(n, value);
      ghost var cycled := nodes;
      log := UpdateCache(n, depth);
      base := cycled;
      CachesIrrelevant(cycled, nodes, cycleTable, nextCycle);
      RewiredCaches(old(nodes), cycled, nodes, n, value);
      // testInactive: its guard reads isFormula, which is never set, so it never holds
    }

    // -------------------------------------------------------------------------
    // CellGraph methods

    /** The node a reference to column col and row row is bound to: null for a cell out of scope. */
    function Bind(col: string, row: string, active: map<string, nat>): Target
    {
      if CellInScope(col, row) && CellName(col, row) in active then Cell(active[CellName(col, row)]) else Nowhere
    }

    /**
     * refs are the sites bound in order, each keeping its span, and every
     * site in scope has an active cell.
     */
    ghost predicate BoundTo(refs: seq<CellRef>, sites: seq<Site>, active: map<string, nat>)
    {
      && |refs| == |sites|
      && forall i :: 0 <= i < |sites| ==>
           && (CellInScope(sites[i].col, sites[i].row) ==> CellName(sites[i].col, sites[i].row) in active)
           && refs[i] == CellRef(Bind(sites[i].col, sites[i].row, active), sites[i].index, sites[i].length)
    }

    /** The names of the cells in scope among some sites. */
    ghost function ScopeNames(sites: seq<Site>): set<string>
    {
      set i | 0 <= i < |sites| && CellInScope(sites[i].col, sites[i].row) :: CellName(sites[i].col, sites[i].row)
    }

    lemma BoundConcat(r1: seq<CellRef>, s1: seq<Site>, r2: seq<CellRef>, s2: seq<Site>, active: map<string, nat>)
      requires BoundTo(r1, s1, active) && BoundTo(r2, s2, active)
      ensures BoundTo(r1 + r2, s1 + s2, active)
      ensures ScopeNames(s1 + s2) == ScopeNames(s1) + ScopeNames(s2)
    {
      var s := s1 + s2;
      forall name | name in ScopeNames(s)
        ensures name in ScopeNames(s1) + ScopeNames(s2)
      {
        var i :| 0 <= i < |s| && CellInScope(s[i].col, s[i].row) && name == CellName(s[i].col, s[i].row);
        if i >= |s1| {
          assert s2[i - |s1|] == s[i];
        }
      }
      forall name | name in ScopeNames(s2)
        ensures name in ScopeNames(s)
      {
        var i :| 0 <= i < |s2| && CellInScope(s2[i].col, s2[i].row) && name == CellName(s2[i].col, s2[i].row);
        assert s[|s1| + i] == s2[i];
      }
      forall name | name in ScopeNames(s1)
        ensures name in ScopeNames(s)
      {
        var i :| 0 <= i < |s1| && CellInScope(s1[i].col, s1[i].row) && name == CellName(s1[i].col, s1[i].row);
        assert s[i] == s1[i];
      }
    }

    /** A binding stays a binding when more cells become active. */
    lemma BoundMono(refs: seq<CellRef>, sites: seq<Site>, a1: map<string, nat>, a2: map<string, nat>)
      requires BoundTo(refs, sites, a1) && Extends(a1, a2)
      ensures BoundTo(refs, sites, a2)
    {
    }

    /** The sites within scope are exactly the cells the binding made active. */
    lemma BoundNames(refs: seq<CellRef>, sites: seq<Site>, active: map<string, nat>)
      requires BoundTo(refs, sites, active)
      ensures ScopeNames(sites) <= active.Keys
    {
    }

    /** The references bound in an arena whose names are all active nodes point into it. */
    lemma BoundBelow(refs: seq<CellRef>, sites: seq<Site>, active: map<string, nat>, size: nat)
      requires BoundTo(refs, sites, active)
      requires forall name :: name in active ==> active[name] < size
      ensures TargetsBelow(TargetSet(refs), size)
    {
      forall t | t in TargetSet(refs) && t.Cell?
        ensures t.id < size
      {
        TargetSetMember(refs, t);
      }
    }

    /**
     * createActiveCell: a new node named name, which takes value through
     * setValue, registered as the active cell name. Nothing depends on the
     * new node, so its flood is the one step that gives it the cache of its
     * rule; a value without a tree leaves every other node as it was.
     */
    method CreateActiveCell(name: string, value: CellValue) returns (id: nat, ghost flood: seq<Step>, ghost base: seq<Node>)
      requires Graph() && NamesOk() && name !in activeCells && TargetsBelow(ValueDependOn(value), |nodes|)
      modifies this
      ensures id == old(|nodes|) && Graph() && NamesOk()
      ensures ValueFrame(old(nodes) + [FreshNode(name)], nodes, id) && nodes[id].value == value
      ensures activeCells == old(activeCells)[name := id]
      ensures cellEntries == old(cellEntries) && nextObject == old(nextObject) && old(events) <= events
      ensures events == old(events) + FloodEvents(flood, base)
      ensures nodes[id].cache == CacheRule(nodes[id], nodes) && Cycles() == old(Cycles())
      ensures value == Unset ==> flood == [] && nodes == old(nodes) + [FreshNode(name)]
      ensures value != Unset ==> Created(old(nodes), name, value, depth, flood, base, nodes)
      ensures !value.Live? ==> Grown(old(nodes), nodes) && events == old(events)
    {
      AppendFresh(nodes, cycleTable, nextCycle, name);
      nodes := nodes + [FreshNode(name)];
      id := |nodes| - 1;
      ghost var found;
      ghost var appended := nodes;
      flood, base, found := SetValue(id, value);
      if SameValue(value, Unset) {
        SameValueEqual(value, Unset);
        GrownFresh(old(nodes), name);
      } else {
        assert value != Unset;
        assert nodes[id].dependants == {} by {
          assert Cell(id) !in ValueDependOn(value);
        }
        assert BrokenBy(appended[id].cycles, appended[id].dependsOn - ValueDependOn(value)) == {};
        ClosingDependant(nodes, cycleTable, nextCycle, old(cycleTable), old(nextCycle), {}, id, found);
        RecycledNone(old(cycleTable), old(nextCycle), cycleTable, nextCycle, id);
        CyclesDetermined(old(nodes), nodes, cycleTable, nextCycle);
        assert base[id] == nodes[id].(cache := base[id].cache);
        FloodAlone(base, id, depth, flood, nodes);
        RuleIgnoresOwnCache(base, id, CacheRule(base[id], base));
        if !value.Live? {
          GrownStored(old(nodes), name, value, base, nodes);
        }
      }
      activeCells := activeCells[name := id];
    }

    /** A node appended with no value is isolated. */
    lemma GrownFresh(nodes0: seq<Node>, name: string)
      ensures Grown(nodes0, nodes0 + [FreshNode(name)])
    {
      assert (nodes0 + [FreshNode(name)])[..|nodes0|] == nodes0;
    }

    /** A node appended and given a value without a tree, then its cache, is isolated. */
    lemma GrownStored(nodes0: seq<Node>, name: string, value: CellValue, base: seq<Node>, nodes: seq<Node>)
      requires !value.Live? && base == AssignValue(nodes0 + [FreshNode(name)], |nodes0|, value)
      requires nodes == SetCache(base, |nodes0|, CacheRule(base[|nodes0|], base))
      ensures Grown(nodes0, nodes) && FloodEvents([Step(|nodes0|, Undefined, nodes[|nodes0|].cache, depth)], base) == []
    {
      assert nodes[..|nodes0|] == nodes0;
      var s := Step(|nodes0|, Undefined, nodes[|nodes0|].cache, depth);
      assert !Reports(s, base);
      assert [s][1..] == [];
    }

    /**
     * getActiveCell: null for a cell out of scope; otherwise the active cell
     * of that name, created with the stored entry (or null) when missing.
     */
    method GetActiveCell(col: string, row: string) returns (t: Target)
      requires NodesValid()
      modifies this
      ensures NodesValid() && Extends(old(activeCells), activeCells)
      ensures t == Bind(col, row, activeCells)
      ensures CellInScope(col, row) ==> CellName(col, row) in activeCells
      ensures activeCells.Keys == old(activeCells).Keys + (if CellInScope(col, row) then {CellName(col, row)} else {})
      ensures cellEntries == old(cellEntries) && nextObject == old(nextObject) && events == old(events)
      ensures Grown(old(nodes), nodes) && Cycles() == old(Cycles())
      ensures !CellInScope(col, row) || CellName(col, row) in old(activeCells) ==>
        nodes == old(nodes) && activeCells == old(activeCells) && Cycles() == old(Cycles()) && events == old(events)
      ensures CellInScope(col, row) && CellName(col, row) !in old(activeCells) ==>
        t == Cell(old(|nodes|)) && |nodes| == old(|nodes|) + 1 && nodes[t.id].value == EntryValue(Lookup(cellEntries, CellName(col, row)))
    {
      if !CellInScope(col, row) {
        GrownRefl(nodes);
        return Nowhere;
      }
      var name := CellName(col, row);
      if name in activeCells {
        GrownRefl(nodes);
        return Cell(activeCells[name]);
      }
      var value := EntryValue(Lookup(cellEntries, name));
      ghost var before := nodes;
      var id; ghost var flood, base;
      id, flood, base := CreateActiveCell(name, value);
      t := Cell(id);
      NewCellValid(old(activeCells), before, name, id);
    }

    /** After a node is created for an inactive cell with its entry's value, the graph is valid again. */
    lemma NewCellValid(active0: map<string, nat>, before: seq<Node>, name: string, id: nat)
      requires NamesOkOf(active0, before) && EntriesAgreeOf(cellEntries, active0, before)
      requires ObjectsOkOf(before, nextObject) && name !in active0
      requires id == |before| && ValueFrame(before + [FreshNode(name)], nodes, id)
      requires activeCells == active0[name := id] && NamesOk()
      requires nodes[id].value == EntryValue(Lookup(cellEntries, name))
      ensures EntriesOk() && ObjectsOk()
    {
      forall m | m in activeCells && activeCells[m] < |nodes|
        ensures NodeAgrees(nodes[activeCells[m]].value, Lookup(cellEntries, m))
      {
        if m != name {
          assert nodes[activeCells[m]].value == before[activeCells[m]].value by {
            assert (before + [FreshNode(name)])[activeCells[m]] == before[activeCells[m]];
          }
        }
      }
      forall k | 0 <= k < |nodes| && nodes[k].value.Live?
        ensures nodes[k].value.identity < nextObject
      {
        assert k != id;
        assert (before + [FreshNode(name)])[k] == before[k];
      }
    }

    /**
     * convertFormulaTree: binds every reference of a parsed formula to the
     * active cell it names, creating those that are missing, and expands each
     * cell-range into one bound reference per row, spliced into the
     * arguments of its call.
     */
    method ConvertFormulaTree(el: Elem) returns (r: Converted)
      requires NodesValid()
      modifies this
      decreases el, 3
      ensures NodesValid() && Extends(old(activeCells), activeCells)
      ensures cellEntries == old(cellEntries) && nextObject == old(nextObject) && events == old(events)
      ensures Grown(old(nodes), nodes) && Cycles() == old(Cycles())
      ensures ConvertShape(el, r)
      ensures BoundTo(ConvertedRefs(r), Sites(el), activeCells)
      ensures activeCells.Keys == old(activeCells).Keys + ScopeNames(Sites(el))
    {
      match el {
        case Formula(_, _, _, _, _) =>
          r := ConvertCall(el);
        case Reference(col, row, index, length) =>
          var t := GetActiveCell(col, row);
          r := One(BRef(CellRef(t, index, length)));
          RefSites(col, row, index, length);
        case ReferenceRange(col, rowStart, rowEnd, index, length) =>
          r := ConvertRange(col, rowStart, rowEnd, index, length);
        case Number(v) =>
          r := One(BNumber(v));
          assert ScopeNames([]) == {};
          GrownRefl(nodes);
        case _ =>
          r := One(BOther(el));
          assert ScopeNames([]) == {};
          GrownRefl(nodes);
      }
    }

    /** convertFormulaTree on a call: each argument converted in turn, a cell-range's references spliced in. */
    method ConvertCall(el: Elem) returns (r: Converted)
      requires NodesValid() && el.Formula?
      modifies this
      decreases el, 2
      ensures NodesValid() && Extends(old(activeCells), activeCells)
      ensures cellEntries == old(cellEntries) && nextObject == old(nextObject) && events == old(events)
      ensures Grown(old(nodes), nodes) && Cycles() == old(Cycles())
      ensures ConvertShape(el, r)
      ensures BoundTo(ConvertedRefs(r), Sites(el), activeCells)
      ensures activeCells.Keys == old(activeCells).Keys + ScopeNames(Sites(el))
    {
      var newArgs := ConvertArgs(el);
      ArgSitesAll(el.func, el.args, el.index, el.length, el.allowNull);
      CallRefs(el.func, newArgs, el.index, el.length, el.allowNull);
      r := One(BCall(el.func, newArgs, el.index, el.length, el.allowNull));
    }

    /** The loop of convertFormulaTree over a call's arguments. */
    method ConvertArgs(el: Elem) returns (newArgs: seq<Bound>)
      requires NodesValid() && el.Formula?
      modifies this
      decreases el, 1
      ensures NodesValid() && Extends(old(activeCells), activeCells)
      ensures cellEntries == old(cellEntries) && nextObject == old(nextObject) && events == old(events)
      ensures Grown(old(nodes), nodes) && Cycles() == old(Cycles())
      ensures ArgsBound(newArgs, el.args, |el.args|, old(activeCells).Keys)
    {
      newArgs := [];
      ghost var active0 := activeCells;
      ghost var events0 := events;
      ghost var entries0 := cellEntries;
      ghost var next0 := nextObject;
      GrownRefl(nodes);
      for i := 0 to |el.args|
        invariant ArgsLoop(el, i, newArgs, active0, entries0, next0, events0, old(nodes), old(Cycles()))
      {
        newArgs := ConvertArg(el, i, newArgs, active0, entries0, next0, events0, old(nodes), old(Cycles()));
      }
    }

    ghost predicate ArgsLoop(el: Elem, i: nat, newArgs: seq<Bound>, active0: map<string, nat>, entries0: map<string, Entry>, next0: nat,
                             events0: seq<Event>, nodes0: seq<Node>, cycles0: (map<nat, seq<nat>>, nat))
      reads this
    {
      el.Formula? && i <= |el.args| &&
      NodesValid() && Extends(active0, activeCells) && cellEntries == entries0 && nextObject == next0 && events == events0
      && Grown(nodes0, nodes) && Cycles() == cycles0
      && ArgsBound(newArgs, el.args, i, active0.Keys)
    }

    /** The arguments before i of a call are bound, the active cells being keys0 and theirs. */
    ghost predicate ArgsBound(newArgs: seq<Bound>, args: seq<Elem>, i: nat, keys0: set<string>)
      reads this
      requires i <= |args|
    {
      && BoundTo(ArgRefs(newArgs), ArgSites(args, i), activeCells)
      && activeCells.Keys == keys0 + ScopeNames(ArgSites(args, i))
    }

    /** Argument i of a call converted: the trees it becomes in the call. */
    method ConvertArg(el: Elem, i: nat, newArgs: seq<Bound>, ghost active0: map<string, nat>, ghost entries0: map<string, Entry>, ghost next0: nat,
                      ghost events0: seq<Event>, ghost nodes0: seq<Node>, ghost cycles0: (map<nat, seq<nat>>, nat))
      returns (extended: seq<Bound>)
      requires ArgsLoop(el, i, newArgs, active0, entries0, next0, events0, nodes0, cycles0) && i < |el.args|
      modifies this
      decreases el, 0
      ensures ArgsLoop(el, i + 1, extended, active0, entries0, next0, events0, nodes0, cycles0)
    {
      ghost var before := activeCells;
      ghost var nodes1 := nodes;
      var arg := ConvertFormulaTree(el.args[i]);
      ConvertStep(newArgs, arg, ArgSites(el.args, i), Sites(el.args[i]), before);
      ExtendsTrans(active0, before, activeCells);
      GrownTrans(nodes0, nodes1, nodes);
      extended := newArgs + Piece(arg);
    }

    /** convertFormulaTree on a cell-range: a bound reference for each row from its start to its end. */
    method ConvertRange(col: string, rowStart: string, rowEnd: string, index: int, length: int) returns (r: Converted)
      requires NodesValid()
      modifies this
      ensures NodesValid() && Extends(old(activeCells), activeCells)
      ensures cellEntries == old(cellEntries) && nextObject == old(nextObject) && events == old(events)
      ensures Grown(old(nodes), nodes) && Cycles() == old(Cycles())
      ensures ConvertShape(ReferenceRange(col, rowStart, rowEnd, index, length), r)
      ensures BoundTo(ConvertedRefs(r), Sites(ReferenceRange(col, rowStart, rowEnd, index, length)), activeCells)
      ensures activeCells.Keys == old(activeCells).Keys + ScopeNames(Sites(ReferenceRange(col, rowStart, rowEnd, index, length)))
    {
      var rs := RowNumber(rowStart);
      var re := RowNumber(rowEnd);
      // a bound that is not a number (NaN) ends the loop before its first row
      var start, end := if rs.Some? && re.Some? then rs.value else 1, if rs.Some? && re.Some? then re.value else 0;
      RangeSitesOf(col, rowStart, rowEnd, index, length, start, end);
      var expanded := ExpandRows(col, start, end, index, length);
      r := Many(expanded);
      assert ConvertedRefs(r) == ArgRefs(expanded);
    }

    /** The loop of convertFormulaTree over the rows of a cell-range, from start to end. */
    method ExpandRows(col: string, start: nat, end: nat, index: int, length: int) returns (expanded: seq<Bound>)
      requires NodesValid()
      modifies this
      ensures Expanding(expanded, col, start, if start <= end then end + 1 else start, index, length,
                        old(activeCells), old(cellEntries), old(nextObject), old(events), old(nodes), old(Cycles()))
    {
      expanded := [];
      ghost var active0, entries0, next0, events0 := activeCells, cellEntries, nextObject, events;
      GrownRefl(nodes);
      // the rows from start to end, none when start > end
      var stop := if start <= end then end + 1 else start;
      for row := start to stop
        invariant Expanding(expanded, col, start, row, index, length, active0, entries0, next0, events0, old(nodes), old(Cycles()))
      {
        var b := ConvertRow(col, start, row, index, length, expanded, active0, entries0, next0, events0, old(nodes), old(Cycles()));
        expanded := expanded + [b];
      }
    }

    /** The state of convertFormulaTree's loop over a cell-range, which started with active0, entries0, next0 and events0. */
    ghost predicate Expanding(expanded: seq<Bound>, col: string, start: nat, row: nat, index: int, length: int,
                              active0: map<string, nat>, entries0: map<string, Entry>, next0: nat, events0: seq<Event>,
                              nodes0: seq<Node>, cycles0: (map<nat, seq<nat>>, nat))
      reads this
    {
      && start <= row && NodesValid() && Extends(active0, activeCells)
      && cellEntries == entries0 && nextObject == next0 && events == events0
      && Grown(nodes0, nodes) && Cycles() == cycles0
      && AllRefs(expanded) && RangeBound(expanded, col, start, row, index, length, active0.Keys)
    }

    /** All the trees are bound references. */
    predicate AllRefs(xs: seq<Bound>)
    {
      forall k :: 0 <= k < |xs| ==> xs[k].BRef?
    }

    /** The rows from start below row of a cell-range are bound, the active cells being keys0 and theirs. */
    ghost predicate RangeBound(expanded: seq<Bound>, col: string, start: nat, row: nat, index: int, length: int, keys0: set<string>)
      reads this
      requires start <= row
    {
      && BoundTo(ArgRefs(expanded), RangeSites(col, start, row - start, index, length), activeCells)
      && activeCells.Keys == keys0 + ScopeNames(RangeSites(col, start, row - start, index, length))
    }

    /** One row of a cell-range: the active cell of that row, bound with the range's span. */
    method ConvertRow(col: string, start: nat, row: nat, index: int, length: int, ghost expanded: seq<Bound>,
                      ghost active0: map<string, nat>, ghost entries0: map<string, Entry>, ghost next0: nat, ghost events0: seq<Event>,
                      ghost nodes0: seq<Node>, ghost cycles0: (map<nat, seq<nat>>, nat))
      returns (b: Bound)
      requires Expanding(expanded, col, start, row, index, length, active0, entries0, next0, events0, nodes0, cycles0)
      modifies this
      ensures Expanding(expanded + [b], col, start, row + 1, index, length, active0, entries0, next0, events0, nodes0, cycles0)
    {
      ghost var before := activeCells;
      ghost var nodes1 := nodes;
      var t := GetActiveCell(col, NatToString(row));
      b := BRef(CellRef(t, index, length));
      GrownTrans(nodes0, nodes1, nodes);
      RowDone(expanded, b, col, start, row, index, length, active0, entries0, next0, events0, nodes0, cycles0, before);
    }

    /** The loop over a cell-range's rows goes on after one more row is bound. */
    lemma RowDone(expanded: seq<Bound>, b: Bound, col: string, start: nat, row: nat, index: int, length: int,
                  active0: map<string, nat>, entries0: map<string, Entry>, next0: nat, events0: seq<Event>,
                  nodes0: seq<Node>, cycles0: (map<nat, seq<nat>>, nat), before: map<string, nat>)
      requires start <= row && NodesValid() && cellEntries == entries0 && nextObject == next0
      requires Extends(active0, before) && Extends(before, activeCells) && events == events0
      requires Grown(nodes0, nodes) && Cycles() == cycles0
      requires AllRefs(expanded) && b.BRef?
      requires BoundTo(ArgRefs(expanded), RangeSites(col, start, row - start, index, length), before)
      requires before.Keys == active0.Keys + ScopeNames(RangeSites(col, start, row - start, index, length))
      requires b == BRef(CellRef(Bind(col, NatToString(row), activeCells), index, length))
      requires CellInScope(col, NatToString(row)) ==> CellName(col, NatToString(row)) in activeCells
      requires activeCells.Keys == before.Keys + (if CellInScope(col, NatToString(row)) then {CellName(col, NatToString(row))} else {})
      ensures Expanding(expanded + [b], col, start, row + 1, index, length, active0, entries0, next0, events0, nodes0, cycles0)
    {
      RangeStep(expanded, b, col, start, row, index, length, before, active0.Keys);
      ExtendsTrans(active0, before, activeCells);
    }

    /** One argument converted: its references follow those of the earlier arguments. */
    lemma ConvertStep(newArgs: seq<Bound>, arg: Converted, done: seq<Site>, sites: seq<Site>, before: map<string, nat>)
      requires BoundTo(ArgRefs(newArgs), done, before) && Extends(before, activeCells)
      requires BoundTo(ConvertedRefs(arg), sites, activeCells)
      ensures BoundTo(ArgRefs(newArgs + Piece(arg)), done + sites, activeCells)
      ensures ScopeNames(done + sites) == ScopeNames(done) + ScopeNames(sites)
    {
      BoundMono(ArgRefs(newArgs), done, before, activeCells);
      ArgRefsConcat(newArgs, Piece(arg));
      PieceRefs(arg);
      BoundConcat(ArgRefs(newArgs), done, ConvertedRefs(arg), sites, activeCells);
    }

    /** A reference is bound to the one site it is. */
    lemma RefSites(col: string, row: string, index: int, length: int)
      requires CellInScope(col, row) ==> CellName(col, row) in activeCells
      ensures var site := Site(col, row, index, length);
        && BoundTo(ConvertedRefs(One(BRef(CellRef(Bind(col, row, activeCells), index, length)))), [site], activeCells)
        && ScopeNames([site]) == if CellInScope(col, row) then {CellName(col, row)} else {}
    {
      var site := Site(col, row, index, length);
      assert [site][0] == site;
    }

    /** One more row of a cell-range bound. */
    lemma RangeStep(expanded: seq<Bound>, b: Bound, col: string, start: nat, row: nat, index: int, length: int,
                    before: map<string, nat>, keys0: set<string>)
      requires start <= row
      requires BoundTo(ArgRefs(expanded), RangeSites(col, start, row - start, index, length), before)
      requires before.Keys == keys0 + ScopeNames(RangeSites(col, start, row - start, index, length))
      requires Extends(before, activeCells)
      requires b == BRef(CellRef(Bind(col, NatToString(row), activeCells), index, length))
      requires CellInScope(col, NatToString(row)) ==> CellName(col, NatToString(row)) in activeCells
      requires activeCells.Keys == before.Keys + (if CellInScope(col, NatToString(row)) then {CellName(col, NatToString(row))} else {})
      ensures RangeBound(expanded + [b], col, start, row + 1, index, length, keys0)
    {
      var site := Site(col, NatToString(row), index, length);
      assert RangeSites(col, start, row + 1 - start, index, length) == RangeSites(col, start, row - start, index, length) + [site];
      RefSites(col, NatToString(row), index, length);
      ConvertStep(expanded, One(b), RangeSites(col, start, row - start, index, length), [site], before);
    }

    /**
     * The formula part of setCellEntry after parseFormula: for a formula that
     * parses, convertFormulaTree, whose tree is returned when it is dynamic.
     */
    method ConvertParsed(formulaText: string, parsed: Result<Elem>) returns (entry: Entry, tree: Option<Bound>)
      requires Valid()
      modifies this
      ensures Valid() && Extends(old(activeCells), activeCells)
      ensures cellEntries == old(cellEntries) && nextObject == old(nextObject) && events == old(events)
      ensures Grown(old(nodes), nodes) && Cycles() == old(Cycles())
      ensures entry == FormulaEntry(formulaText, parsed)
      ensures tree.Some? <==> entry.DynamicFormula?
      ensures tree.Some? ==> IsDynamicTree(tree.value) && TargetsBelow(DependOn(tree.value), |nodes|)
      ensures parsed.Err? ==> activeCells == old(activeCells) && nodes == old(nodes)
      ensures parsed.Ok? ==>
        && activeCells.Keys == old(activeCells).Keys + ScopeNames(Sites(parsed.value))
        && (tree.Some? ==> BoundTo(Refs(tree.value), Sites(parsed.value), activeCells))
    {
      if parsed.Err? {
        GrownRefl(nodes);
        return InvalidFormula(formulaText, parsed.error.index, parsed.error.length, parsed.error.message), None;
      }
      var formula := ConvertFormulaTree(parsed.value);
      ShapeDynamic(parsed.value, formula);
      if formula.One? && IsDynamicTree(formula.tree) {
        entry := DynamicFormula(formulaText);
        tree := Some(formula.tree);
        BoundBelow(Refs(formula.tree), Sites(parsed.value), activeCells, |nodes|);
        DependOnRefs(formula.tree);
      } else {
        entry := StaticFormula(formulaText, StaticValue(formula));
        tree := None;
      }
    }

    /**
     * The formula branch of setCellEntry, after the check for an unchanged
     * formula: the entry the formula text stands for and, for a dynamic
     * formula, a new tree object as the cell's value, the cell being made
     * active for it when it is not.
     */
    method FormulaCell(cellName: string, formulaText: string, parsed: Result<Elem>)
      returns (entry: Entry, cellValue: Option<CellValue>, ghost bound: seq<Node>, ghost creation: seq<Step>, ghost cbase: seq<Node>)
      requires Valid()
      modifies this
      ensures events == old(events) + FloodEvents(creation, cbase)
      ensures BoundFrom(old(nodes), old(activeCells), bound, creation, cbase, cellName, cellValue)
      ensures Graph() && NamesOk() && EntriesOkBut(cellEntries, activeCells, nodes, cellName) && ObjectsOk()
      ensures Extends(old(activeCells), activeCells) && cellEntries == old(cellEntries) && Cycles() == old(Cycles())
      ensures entry == FormulaEntry(formulaText, parsed)
      ensures cellValue.Some? <==> entry.DynamicFormula?
      ensures cellValue.Some? ==>
        && cellValue.value.Live? && IsDynamic(cellValue.value) && nextObject == old(nextObject) + 1
        && cellValue.value.identity == old(nextObject) && cellName in activeCells
        && TargetsBelow(ValueDependOn(cellValue.value), |nodes|)
      ensures cellValue.None? ==> nextObject == old(nextObject)
      ensures cellValue.Some? ==> nodes[activeCells[cellName]].value == cellValue.value || ObjectsOkOf(nodes, old(nextObject))
      ensures parsed.Err? ==> activeCells == old(activeCells) && nodes == old(nodes)
      ensures parsed.Ok? ==>
        && activeCells.Keys == old(activeCells).Keys + ScopeNames(Sites(parsed.value)) + (if entry.DynamicFormula? then {cellName} else {})
        && (cellValue.Some? ==> BoundTo(Refs(cellValue.value.tree), Sites(parsed.value), activeCells))
    {
      var tree;
      entry, tree := ConvertParsed(formulaText, parsed);
      bound := nodes;
      if tree.Some? {
        var value;
        ghost var active0 := activeCells;
        value, creation, cbase := NewTree(cellName, tree.value, old(nodes), old(activeCells));
        cellValue := Some(value);
        BoundMono(Refs(tree.value), Sites(parsed.value), active0, activeCells);
      } else {
        cellValue := None;
        creation, cbase := [], nodes;
      }
    }

    /**
     * The dynamic branch of setCellEntry's formula part is done: value is a
     * new tree object for the cell, which is active with it if it was not
     * active before. The arena nodes0 and the active cells active0 are those
     * before the formula was bound; nodes1, active1, entries1, events1 and
     * next1 and cycles1 are the state before the tree was made.
     */
    ghost predicate TreeMade(cellName: string, tree: Bound, value: CellValue, nodes0: seq<Node>, active0: map<string, nat>,
                             nodes1: seq<Node>, active1: map<string, nat>, entries1: map<string, Entry>, events1: seq<Event>,
                             next1: nat, cycles1: (map<nat, seq<nat>>, nat), creation: seq<Step>, cbase: seq<Node>)
      reads this
    {
      && value == Live(tree, next1) && nextObject == next1 + 1 && Cycles() == cycles1
      && Graph() && NamesOk() && EntriesOkBut(cellEntries, activeCells, nodes, cellName) && ObjectsOk()
      && cellEntries == entries1 && events == events1 + FloodEvents(creation, cbase)
      && Extends(active1, activeCells) && activeCells.Keys == active1.Keys + {cellName}
      && (nodes[activeCells[cellName]].value == value || ObjectsOkOf(nodes, next1))
      && TargetsBelow(DependOn(tree), |nodes|)
      && BoundFrom(nodes0, active0, nodes1, creation, cbase, cellName, Some(value))
    }

    /** The tree of a dynamic formula: a cell not active yet is created with it, by createActiveCell. */
    method NewTree(cellName: string, tree: Bound, ghost nodes0: seq<Node>, ghost active0: map<string, nat>)
      returns (value: CellValue, ghost creation: seq<Step>, ghost cbase: seq<Node>)
      requires Valid() && IsDynamicTree(tree) && TargetsBelow(DependOn(tree), |nodes|)
      requires Grown(nodes0, nodes) && Extends(active0, activeCells)
      modifies this
      ensures TreeMade(cellName, tree, value, nodes0, active0, old(nodes), old(activeCells), old(cellEntries), old(events),
                       old(nextObject), old(Cycles()), creation, cbase)
    {
      if cellName in activeCells {
        value, creation, cbase := ActiveTree(cellName, tree, nodes0, active0);
      } else {
        value, creation, cbase := FreshTree(cellName, tree, nodes0, active0);
      }
    }

    /** The tree of a dynamic formula for a cell already active: only a new object is made. */
    method ActiveTree(cellName: string, tree: Bound, ghost nodes0: seq<Node>, ghost active0: map<string, nat>)
      returns (value: CellValue, ghost creation: seq<Step>, ghost cbase: seq<Node>)
      requires Valid() && IsDynamicTree(tree) && TargetsBelow(DependOn(tree), |nodes|)
      requires Grown(nodes0, nodes) && Extends(active0, activeCells) && cellName in activeCells
      modifies this
      ensures TreeMade(cellName, tree, value, nodes0, active0, old(nodes), old(activeCells), old(cellEntries), old(events),
                       old(nextObject), old(Cycles()), creation, cbase)
    {
      value := NewObject(tree);
      creation, cbase := [], nodes;
    }

    /** The tree of a dynamic formula for a cell not active yet, which createActiveCell makes active with it. */
    method FreshTree(cellName: string, tree: Bound, ghost nodes0: seq<Node>, ghost active0: map<string, nat>)
      returns (value: CellValue, ghost creation: seq<Step>, ghost cbase: seq<Node>)
      requires Valid() && IsDynamicTree(tree) && TargetsBelow(DependOn(tree), |nodes|)
      requires Grown(nodes0, nodes) && Extends(active0, activeCells) && cellName !in activeCells
      modifies this
      ensures TreeMade(cellName, tree, value, nodes0, active0, old(nodes), old(activeCells), old(cellEntries), old(events),
                       old(nextObject), old(Cycles()), creation, cbase)
    {
      value := NewObject(tree);
      creation, cbase := NewFormulaCell(cellName, value, nodes0, active0);
    }

    /** A new formula tree object, with the next identity. */
    method NewObject(tree: Bound) returns (value: CellValue)
      requires Valid()
      modifies this
      ensures Valid() && value == Live(tree, old(nextObject)) && nextObject == old(nextObject) + 1
      ensures nodes == old(nodes) && Cycles() == old(Cycles()) && activeCells == old(activeCells)
      ensures cellEntries == old(cellEntries) && events == old(events)
    {
      value := Live(tree, nextObject);
      nextObject := nextObject + 1;
    }

    method NewFormulaCell(cellName: string, value: CellValue, ghost nodes0: seq<Node>, ghost active0: map<string, nat>)
      returns (ghost flood: seq<Step>, ghost base: seq<Node>)
      requires Valid() && cellName !in activeCells && TargetsBelow(ValueDependOn(value), |nodes|)
      requires value.Live? && value.identity < nextObject
      requires Grown(nodes0, nodes) && Extends(active0, activeCells)
      modifies this
      ensures Graph() && NamesOk() && EntriesOkBut(cellEntries, activeCells, nodes, cellName) && ObjectsOk()
      ensures activeCells == old(activeCells)[cellName := old(|nodes|)] && nodes[activeCells[cellName]].value == value
      ensures cellEntries == old(cellEntries) && nextObject == old(nextObject) && old(events) <= events
      ensures events == old(events) + FloodEvents(flood, base) && Created(old(nodes), cellName, value, depth, flood, base, nodes)
      ensures BoundFrom(nodes0, active0, old(nodes), flood, base, cellName, Some(value))
      ensures Extends(old(activeCells), activeCells) && activeCells.Keys == old(activeCells).Keys + {cellName}
      ensures TargetsBelow(ValueDependOn(value), |nodes|) && Cycles() == old(Cycles())
    {
      ghost var before := nodes;
      var id;
      id, flood, base := CreateActiveCell(cellName, value);
      FreshTreeValid(old(activeCells), before, cellName, id);
    }

    /** After a node is created for an inactive cell with a new tree, the graph is valid but for that cell's entry. */
    lemma FreshTreeValid(active0: map<string, nat>, before: seq<Node>, name: string, id: nat)
      requires NamesOkOf(active0, before) && EntriesAgreeOf(cellEntries, active0, before)
      requires ObjectsOkOf(before, nextObject) && name !in active0
      requires id == |before| && ValueFrame(before + [FreshNode(name)], nodes, id)
      requires activeCells == active0[name := id]
      requires nodes[id].value.Live? && nodes[id].value.identity < nextObject
      requires TargetsBelow(ValueDependOn(nodes[id].value), |before|)
      ensures ObjectsOk() && Extends(active0, activeCells) && activeCells.Keys == active0.Keys + {name}
      ensures forall m :: m in activeCells && m != name && activeCells[m] < |nodes| ==>
        NodeAgrees(nodes[activeCells[m]].value, Lookup(cellEntries, m))
      ensures TargetsBelow(ValueDependOn(nodes[id].value), |nodes|)
    {
      forall m | m in activeCells && m != name && activeCells[m] < |nodes|
        ensures NodeAgrees(nodes[activeCells[m]].value, Lookup(cellEntries, m))
      {
        assert (before + [FreshNode(name)])[activeCells[m]] == before[activeCells[m]];
      }
      forall k | 0 <= k < |nodes| && nodes[k].value.Live?
        ensures nodes[k].value.identity < nextObject
      {
        if k < |before| {
          assert (before + [FreshNode(name)])[k] == before[k];
        }
      }
    }

    /**
     * Gives cellName's active node the value v through setValue; only that
     * node's value changes, so the other cells still agree with their entries.
     */
    method UpdateNode(cellName: string, v: CellValue) returns (ghost log: seq<Step>, ghost base: seq<Node>, ghost found: seq<seq<nat>>)
      requires Graph() && NamesOk() && EntriesOkBut(cellEntries, activeCells, nodes, cellName) && ObjectsOk()
      requires cellName in activeCells && TargetsBelow(ValueDependOn(v), |nodes|)
      requires v.Live? ==> v.identity < nextObject
      requires v.Live? ==> nodes[activeCells[cellName]].value == v || ObjectsOkOf(nodes, v.identity)
      modifies this
      ensures Graph() && NamesOk() && EntriesOkBut(cellEntries, activeCells, nodes, cellName) && ObjectsOk()
      ensures Owned() == old(Owned()) && old(events) <= events
      ensures nodes[activeCells[cellName]].value == v
      ensures events == old(events) + FloodEvents(log, base)
      ensures Updated(old(nodes), old(Cycles()), cellName, v, log, base, found)
      ensures log == [] <==> SameValue(v, old(nodes)[activeCells[cellName]].value)
    {
      var n := activeCells[cellName];
      ghost var nodes0 := nodes;
      log, base, found := SetValue(n, v);
      if SameValue(v, nodes0[n].value) && !v.Live? {
        SameValueEqual(v, nodes0[n].value);
      }
      ObjectsAfter(nodes0, nodes, n, nextObject);
    }

    /**
     * What setValue(v) on cellName's active node, if any, did to the arena
     * nodes0 and the cycle table cycles0: with no flood nothing changed,
     * which is the case when the node already held the tree v; otherwise the
     * node was rewired for v, the flood from base, the rewired arena with its
     * caches as in nodes0, set the caches, and the cycles through a lost
     * dependency were dropped and those found were registered.
     */
    ghost predicate Updated(nodes0: seq<Node>, cycles0: (map<nat, seq<nat>>, nat), cellName: string, v: CellValue,
                            flood: seq<Step>, base: seq<Node>, found: seq<seq<nat>>)
      reads this
    {
      && (flood == [] ==> nodes == nodes0 && Cycles() == cycles0 && found == [])
      && (flood != [] ==>
           && cellName in activeCells && activeCells[cellName] < |nodes0|
           && SameCaches(nodes0, base) && SameButCaches(base, nodes) && Flood(base, activeCells[cellName], depth, flood, nodes)
           && Rewired(nodes0, nodes, activeCells[cellName], v)
           && var n := activeCells[cellName];
              Recycled(cycles0.0, cycles0.1, cycleTable, nextCycle, BrokenBy(nodes0[n].cycles, nodes0[n].dependsOn - ValueDependOn(v)), n, found))
      && (cellName in activeCells && activeCells[cellName] < |nodes0| && v.Live? && nodes0[activeCells[cellName]].value == v ==> flood == [])
    }

    /**
     * What binding a formula for cellName did to the arena nodes0 and the
     * active cells active0: Binding, and a created cell is cellName's new
     * node, appended to bound.
     */
    ghost predicate BoundFrom(nodes0: seq<Node>, active0: map<string, nat>, bound: seq<Node>, creation: seq<Step>, cbase: seq<Node>,
                              cellName: string, value: Option<CellValue>)
      reads this
    {
      && Binding(nodes0, bound, creation, cbase, nodes, cellName, value, depth)
      && (creation != [] ==> cellName !in active0 && cellName in activeCells && activeCells[cellName] == |bound|)
    }

    /**
     * What setCellEntry for cellName did to the arena nodes0: binding grew it
     * into bound; then either the cell was created for its new dynamic
     * formula by the flood creation and shows the cache of its rule, or its
     * node (if any) took its new value through setValue with the flood from
     * base, dropping the cycles through a lost dependency and registering
     * those found, or nothing more changed; only that setValue changes the
     * cycle table cycles0.
     */
    ghost predicate Entered(nodes0: seq<Node>, active0: map<string, nat>, cycles0: (map<nat, seq<nat>>, nat), cellName: string,
                            bound: seq<Node>, creation: seq<Step>, cbase: seq<Node>, flood: seq<Step>, base: seq<Node>, found: seq<seq<nat>>)
      reads this
    {
      && Grown(nodes0, bound)
      && (flood == [] ==> Cycles() == cycles0 && found == [])
      && (creation != [] ==>
           && flood == [] && cellName !in active0 && cellName in activeCells && activeCells[cellName] == |bound| && |bound| < |nodes|
           && Created(bound, cellName, nodes[|bound|].value, depth, creation, cbase, nodes)
           && DisplayIn(cellEntries, activeCells, nodes, cellName) == Shown(CacheRule(nodes[|bound|], nodes)))
      && (creation == [] && flood == [] ==> nodes == bound)
      && (flood != [] ==>
           && creation == [] && cellName in activeCells && activeCells[cellName] < |nodes|
           && SameCaches(bound, base) && SameButCaches(base, nodes) && Flood(base, activeCells[cellName], depth, flood, nodes)
           && Rewired(bound, nodes, activeCells[cellName], nodes[activeCells[cellName]].value)
           && var n := activeCells[cellName];
              Recycled(cycles0.0, cycles0.1, cycleTable, nextCycle, BrokenBy(bound[n].cycles, bound[n].dependsOn - ValueDependOn(nodes[n].value)), n, found))
    }

    /**
     * Binding a formula grew nodes0 as Binding says, into nodes1; then the
     * cell's node, if any, took v through setValue as Updated says, and the
     * entry was stored. Together that is Entered.
     */
    lemma EnteredOf(nodes0: seq<Node>, active0: map<string, nat>, cellName: string, bound: seq<Node>, creation: seq<Step>,
                    cbase: seq<Node>, nodes1: seq<Node>, value: Option<CellValue>, v: CellValue, cycles0: (map<nat, seq<nat>>, nat),
                    flood: seq<Step>, base: seq<Node>, found: seq<seq<nat>>)
      requires Binding(nodes0, bound, creation, cbase, nodes1, cellName, value, depth)
      requires creation != [] ==> cellName !in active0 && cellName in activeCells && activeCells[cellName] == |bound|
      requires value.Some? ==> v == value.value && v.Live?
      requires Updated(nodes1, cycles0, cellName, v, flood, base, found)
      requires creation != [] ==> Lookup(cellEntries, cellName).Some? && Lookup(cellEntries, cellName).value.DynamicFormula?
      ensures Entered(nodes0, active0, cycles0, cellName, bound, creation, cbase, flood, base, found)
    {
      if creation != [] {
        assert nodes1[|bound|].value == v;
        assert flood == [];
      }
    }

    /**
     * What setCellEntry holds between classifying the text and storing the
     * entry: every invariant but cellName's own entry, a formula entry that is
     * its text's parse, and for a dynamic formula a new tree for its active node.
     */
    ghost predicate Staged(cellName: string, entry: Option<Entry>, cellValue: Option<CellValue>)
      reads this
    {
      && Graph() && NamesOk() && EntriesOkBut(cellEntries, activeCells, nodes, cellName) && ObjectsOk()
      && (entry.Some? && IsFormulaEntry(entry.value) ==> entry.value == FormulaEntry(entry.value.text, FormulaTree.ParseFormula(entry.value.text)))
      && (entry.Some? && entry.value.DynamicFormula? ==> cellName in activeCells)
      && (cellValue.Some? <==> entry.Some? && entry.value.DynamicFormula?)
      && (cellValue.Some? ==>
        && cellName in activeCells && cellValue.value.Live? && IsDynamic(cellValue.value) && cellValue.value.identity < nextObject
        && TargetsBelow(ValueDependOn(cellValue.value), |nodes|)
        && (nodes[activeCells[cellName]].value == cellValue.value || ObjectsOkOf(nodes, cellValue.value.identity)))
    }

    /**
     * The first part of setCellEntry: what the text stands for. Formula text
     * equal to that of the stored formula is unchanged; other formula text is
     * parsed and converted, a dynamic one getting a new tree object as the
     * cell's value; a number or a text changes nothing yet.
     */
    method EntryOf(cellName: string, text: string)
      returns (entry: Option<Entry>, cellValue: Option<CellValue>, same: bool, ghost bound: seq<Node>, ghost creation: seq<Step>, ghost cbase: seq<Node>)
      requires Valid()
      modifies this
      ensures events == old(events) + FloodEvents(creation, cbase)
      ensures BoundFrom(old(nodes), old(activeCells), bound, creation, cbase, cellName, cellValue)
      ensures Graph() && NamesOk() && EntriesOkBut(cellEntries, activeCells, nodes, cellName) && ObjectsOk()
      ensures Extends(old(activeCells), activeCells) && cellEntries == old(cellEntries) && old(events) <= events
      ensures Cycles() == old(Cycles())
      ensures entry == EntryFor(text)
      ensures same <==> IsFormulaText(text) && Lookup(cellEntries, cellName) == entry
      ensures same || !IsFormulaText(text) ==>
        nodes == old(nodes) && activeCells == old(activeCells) && nextObject == old(nextObject) && events == old(events)
      ensures same ==> Valid()
      ensures entry.Some? && entry.value.DynamicFormula? ==> cellName in activeCells
      ensures !same ==> (cellValue.Some? <==> entry.Some? && entry.value.DynamicFormula?)
      ensures same ==> cellValue.None?
      ensures cellValue.Some? ==>
        && cellName in activeCells && cellValue.value.Live? && IsDynamic(cellValue.value) && cellValue.value.identity < nextObject
        && TargetsBelow(ValueDependOn(cellValue.value), |nodes|)
        && (nodes[activeCells[cellName]].value == cellValue.value || ObjectsOkOf(nodes, cellValue.value.identity))
      ensures !same ==> Staged(cellName, entry, cellValue)
    {
      EntryForCanonical(text);
      if IsFormulaText(text) {
        var prevEntry := Lookup(cellEntries, cellName);
        if prevEntry.Some? && IsFormulaEntry(prevEntry.value) && prevEntry.value.text == FormulaTextOf(text) {
          SameFormula(text, prevEntry.value);
          GrownRefl(nodes);
          return prevEntry, None, true, nodes, [], nodes;
        }
        entry, cellValue, bound, creation, cbase := FormulaEntryOf(cellName, text);
        same := false;
      } else {
        bound, creation, cbase := nodes, [], nodes;
        GrownRefl(nodes);
        cellValue := None;
        same := false;
        if IsNumberText(text) {
          entry := Some(NumberEntry(NumberValue(text)));
        } else {
          var trimmed := TrimEnd(text);
          entry := if trimmed == "" then None else Some(TextEntry(trimmed));
        }
      }
    }

    /**
     * The formula branch of setCellEntry for a formula whose text is not the
     * one already stored: it is parsed and converted.
     */
    method FormulaEntryOf(cellName: string, text: string)
      returns (entry: Option<Entry>, cellValue: Option<CellValue>, ghost bound: seq<Node>, ghost creation: seq<Step>, ghost cbase: seq<Node>)
      requires Valid() && IsFormulaText(text)
      requires var prev := Lookup(cellEntries, cellName); !(prev.Some? && IsFormulaEntry(prev.value) && prev.value.text == FormulaTextOf(text))
      modifies this
      ensures events == old(events) + FloodEvents(creation, cbase)
      ensures BoundFrom(old(nodes), old(activeCells), bound, creation, cbase, cellName, cellValue)
      ensures Graph() && NamesOk() && EntriesOkBut(cellEntries, activeCells, nodes, cellName) && ObjectsOk()
      ensures Extends(old(activeCells), activeCells) && cellEntries == old(cellEntries) && Cycles() == old(Cycles())
      ensures entry == EntryFor(text) && Lookup(cellEntries, cellName) != entry
      ensures entry.Some? && entry.value.DynamicFormula? ==> cellName in activeCells
      ensures cellValue.Some? <==> entry.Some? && entry.value.DynamicFormula?
      ensures cellValue.Some? ==>
        && cellName in activeCells && cellValue.value.Live? && IsDynamic(cellValue.value) && cellValue.value.identity < nextObject
        && TargetsBelow(ValueDependOn(cellValue.value), |nodes|)
        && (nodes[activeCells[cellName]].value == cellValue.value || ObjectsOkOf(nodes, cellValue.value.identity))
    {
      var formulaText := FormulaTextOf(text);
      var parsed := FormulaParser.ParseFormula(formulaText);
      var e;
      e, cellValue, bound, creation, cbase := FormulaCell(cellName, formulaText, parsed);
      entry := Some(e);
    }

    /**
     * setCellEntry: stores what the text stands for (a formula, a number, a
     * text, or nothing), gives the cell's active node, if any, its new value,
     * and reports the cell's display exactly when it changed. Formula text
     * equal to the stored formula's changes nothing. Binding the formula's
     * references grows the arena into bound, and sends nothing; a cell made
     * active for its new dynamic formula is created from bound, by the
     * one-step flood creation from cbase, and shows the cache of its rule;
     * otherwise flood, from base, is the cache flood of the setValue that
     * gives the active node its new value. The report comes last.
     */
    method SetCellEntry(cellName: string, text: string)
      returns (ghost bound: seq<Node>, ghost creation: seq<Step>, ghost cbase: seq<Node>, ghost flood: seq<Step>, ghost base: seq<Node>,
               ghost found: seq<seq<nat>>)
      requires Valid()
      modifies this
      ensures Valid() && Extends(old(activeCells), activeCells)
      ensures cellEntries == StoreEntry(old(cellEntries), cellName, EntryFor(text))
      ensures events == old(events) + FloodEvents(creation, cbase) + FloodEvents(flood, base) +
        Reported(cellName, DisplayIn(old(cellEntries), old(activeCells), old(nodes), cellName), DisplayIn(cellEntries, activeCells, nodes, cellName))
      ensures Entered(old(nodes), old(activeCells), old(Cycles()), cellName, bound, creation, cbase, flood, base, found)
      ensures IsFormulaText(text) && Lookup(old(cellEntries), cellName) == EntryFor(text) ==>
        && nodes == old(nodes) && activeCells == old(activeCells) && cellEntries == old(cellEntries)
        && events == old(events) && Cycles() == old(Cycles())
      ensures !IsFormulaText(text) ==> activeCells == old(activeCells) && nextObject == old(nextObject)
      ensures !IsFormulaText(text) && cellName !in old(activeCells) ==>
        nodes == old(nodes) && events == old(events) + Reported(cellName, DisplayIn(old(cellEntries), old(activeCells), old(nodes), cellName), DisplayIn(cellEntries, activeCells, nodes, cellName))
    {
      var prevDisplay := DisplayIn(cellEntries, activeCells, nodes, cellName);
      var entry, cellValue, same;
      entry, cellValue, same, bound, creation, cbase := EntryOf(cellName, text);
      ghost var nodes1 := nodes;
      assert Binding(old(nodes), bound, creation, cbase, nodes1, cellName, cellValue, depth);
      if same {
        StoreSame(cellEntries, cellName, entry);
        return bound, creation, cbase, [], nodes, [];
      }
      flood, base, found := Commit(cellName, entry, cellValue, prevDisplay);
      EnteredOf(old(nodes), old(activeCells), cellName, bound, creation, cbase, nodes1, cellValue,
                if cellValue.Some? then cellValue.value else EntryValue(entry), old(Cycles()), flood, base, found);
    }

    /**
     * The second part of setCellEntry: the active node, if any, takes the
     * new value through setValue, whose flood is flood, the entry is stored
     * (null deletes it), and the display is reported exactly when it differs
     * from prevDisplay.
     */
    method Commit(cellName: string, entry: Option<Entry>, cellValue: Option<CellValue>, prevDisplay: Display)
      returns (ghost flood: seq<Step>, ghost base: seq<Node>, ghost found: seq<seq<nat>>)
      requires Staged(cellName, entry, cellValue)
      modifies this
      ensures Valid() && activeCells == old(activeCells) && nextObject == old(nextObject)
      ensures cellEntries == StoreEntry(old(cellEntries), cellName, entry)
      ensures events == old(events) + FloodEvents(flood, base) + Reported(cellName, prevDisplay, DisplayIn(cellEntries, activeCells, nodes, cellName))
      ensures Updated(old(nodes), old(Cycles()), cellName, if cellValue.Some? then cellValue.value else EntryValue(entry), flood, base, found)
      ensures cellName !in activeCells ==> nodes == old(nodes) && flood == []
    {
      flood, base, found := [], nodes, [];
      if cellName in activeCells {
        var v := if cellValue.Some? then cellValue.value else EntryValue(entry);
        flood, base, found := UpdateNode(cellName, v);
      }
      StoredValid(cellName, entry);
      cellEntries := StoreEntry(cellEntries, cellName, entry);
      var display := DisplayIn(cellEntries, activeCells, nodes, cellName);
      if display != prevDisplay {
        events := events + [Event(cellName, display)];
      }
    }

    /** Storing entry for cellName, whose node agrees with it, makes every entry agree again. */
    lemma StoredValid(cellName: string, entry: Option<Entry>)
      requires EntriesOkBut(cellEntries, activeCells, nodes, cellName) && NamesOk()
      requires entry.Some? && entry.value.DynamicFormula? ==> cellName in activeCells
      requires entry.Some? && IsFormulaEntry(entry.value) ==> entry.value == FormulaEntry(entry.value.text, FormulaTree.ParseFormula(entry.value.text))
      requires cellName in activeCells ==> NodeAgrees(nodes[activeCells[cellName]].value, entry)
      ensures EntriesOkOf(StoreEntry(cellEntries, cellName, entry), activeCells, nodes)
    {
      var entries := StoreEntry(cellEntries, cellName, entry);
      forall name | name in activeCells && activeCells[name] < |nodes|
        ensures NodeAgrees(nodes[activeCells[name]].value, Lookup(entries, name))
      {
        if name != cellName {
          assert Lookup(entries, name) == Lookup(cellEntries, name);
        }
      }
    }
  }
}
