/**
 * The values of the cell dependency graph (modules/cell-graph.js): what a
 * reference is bound to, formula trees after binding, the entries a cell
 * stores, the value a node holds, and the pure rules the graph applies to
 * them: the cache rule, evaluateFormula, the dependencies a value derives,
 * the display of an entry, columnToNum and the classification of entry text.
 */
module CellValues {
  import opened Wrappers
  import opened FormulaValues
  import opened FormulaText
  import opened FormulaTree

  /** The cellNode of a CellNodeRef: a node of the arena, or null for a cell out of scope. */
  datatype Target = Cell(id: nat) | Nowhere

  /** CellNodeRef: a bound reference, keeping the span of the text it came from. */
  datatype CellRef = CellRef(target: Target, index: int, length: int)

  /**
   * A formula tree after convertFormulaTree: numbers, calls, bound references,
   * and any other element, which is passed through unchanged.
   */
  datatype Bound =
    | BNumber(value: real)
    | BCall(func: Func, args: seq<Bound>, index: int, length: int, allowNull: bool)
    | BRef(ref: CellRef)
    | BOther(el: Elem)

  /** What convertFormulaTree returns: one tree, or the references a cell-range expands to. */
  datatype Converted = One(tree: Bound) | Many(refs: seq<Bound>)

  /** The values stored in cellEntries. */
  datatype Entry =
    | NumberEntry(number: real)
    | TextEntry(text: string)
    | StaticFormula(text: string, value: Val)
    | DynamicFormula(text: string)
    | InvalidFormula(text: string, index: int, length: int, message: string)

  /**
   * The value of a CellNode: undefined before its first setValue, null for an
   * empty cell, an entry, or a bound formula tree. A tree is a JavaScript
   * object, compared by identity, so it carries the identity it was made with.
   */
  datatype CellValue = Unset | Empty | Stored(entry: Entry) | Live(tree: Bound, identity: nat)

  /** A CellNode's fields; its callbacks are the graph's event log. */
  datatype Node = Node(name: string, value: CellValue, isDynamic: bool, dependsOn: set<Target>,
                       dependants: set<nat>, cycles: map<nat, nat>, cache: Val)

  /** What a cell displays: a value, or a string. */
  datatype Display = Shown(value: Val) | Text(text: string)

  /** One call of cellDisplayUpdateCallback. */
  datatype Event = Event(name: string, display: Display)

  /** isFormula */
  predicate IsFormulaEntry(entry: Entry)
  {
    entry.DynamicFormula? || entry.StaticFormula? || entry.InvalidFormula?
  }

  /** isDynamic: the value is a call or a bound reference. */
  predicate IsDynamic(value: CellValue)
  {
    value.Live? && IsDynamicTree(value.tree)
  }

  predicate IsDynamicTree(tree: Bound)
  {
    tree.BCall? || tree.BRef?
  }

  /**
   * value === prevValue: numbers, strings, null and undefined compare by
   * value; trees by identity; entry objects are never the same object twice,
   * since every one is made afresh.
   */
  predicate SameValue(a: CellValue, b: CellValue)
  {
    match (a, b)
    case (Unset, Unset) => true
    case (Empty, Empty) => true
    case (Stored(NumberEntry(x)), Stored(NumberEntry(y))) => x == y
    case (Stored(TextEntry(s)), Stored(TextEntry(t))) => s == t
    case (Live(_, o), Live(_, p)) => o == p
    case _ => false
  }

  /** The concatenation of a sequence of sequences. */
  function Flatten<T>(xss: seq<seq<T>>): seq<T>
  {
    if |xss| == 0 then [] else Flatten(xss[..|xss| - 1]) + xss[|xss| - 1]
  }

  /** The union of a sequence of sets. */
  function UnionAll(ss: seq<set<Target>>): set<Target>
  {
    if |ss| == 0 then {} else UnionAll(ss[..|ss| - 1]) + ss[|ss| - 1]
  }

  /** deriveDependOn: the targets of the references in a tree. */
  function DependOn(tree: Bound): set<Target>
  {
    match tree
    case BCall(_, args, _, _, _) => UnionAll(seq(|args|, k requires 0 <= k < |args| => DependOn(args[k])))
    case BRef(r) => {r.target}
    case _ => {}
  }

  /** The dependencies of a node's value: only a tree has any. */
  function ValueDependOn(value: CellValue): set<Target>
  {
    if value.Live? then DependOn(value.tree) else {}
  }

  /** The references of a tree, left to right. */
  function Refs(tree: Bound): seq<CellRef>
  {
    match tree
    case BCall(_, args, _, _, _) => Flatten(seq(|args|, k requires 0 <= k < |args| => Refs(args[k])))
    case BRef(r) => [r]
    case _ => []
  }

  /** The references of what convertFormulaTree returned. */
  function ConvertedRefs(c: Converted): seq<CellRef>
  {
    match c
    case One(tree) => Refs(tree)
    case Many(refs) => Flatten(seq(|refs|, k requires 0 <= k < |refs| => Refs(refs[k])))
  }

  /** The set of the targets of some references. */
  function TargetSet(refs: seq<CellRef>): set<Target>
  {
    if |refs| == 0 then {} else TargetSet(refs[..|refs| - 1]) + {refs[|refs| - 1].target}
  }

  /** Every reference target is Nowhere or a node below n. */
  predicate TargetsBelow(targets: set<Target>, n: nat)
  {
    forall t :: t in targets && t.Cell? ==> t.id < n
  }

  /** cellNode.cache, or undefined for null (and for a node outside the arena). */
  function TargetCache(t: Target, nodes: seq<Node>): Val
  {
    if t.Cell? && t.id < |nodes| then nodes[t.id].cache else Undefined
  }

  /**
   * evaluateFormula: a call is undefined as soon as one argument is, and
   * otherwise applies its function; a reference gives the cache of its node.
   */
  function Evaluate(tree: Bound, nodes: seq<Node>): Val
  {
    match tree
    case BCall(f, args, _, _, _) =>
      var vals := seq(|args|, k requires 0 <= k < |args| => Evaluate(args[k], nodes));
      if Undefined in vals then Undefined else Apply(f, vals)
    case BNumber(x) => Num(x)
    case BRef(r) => TargetCache(r.target, nodes)
    case BOther(_) => Undefined
  }

  /**
   * The cache rule of updateCache: a dynamic node in a cycle is undefined,
   * otherwise its formula's value; a number is itself, a static formula its
   * value, an empty cell null, and anything else (text, an invalid formula)
   * undefined.
   */
  function CacheRule(node: Node, nodes: seq<Node>): Val
  {
    if node.isDynamic then
      if |node.cycles| != 0 then Undefined
      else if node.value.Live? then Evaluate(node.value.tree, nodes)
      else Undefined
    else
      match node.value
      case Stored(NumberEntry(x)) => Num(x)
      case Stored(StaticFormula(_, v)) => v
      case Live(BNumber(x), _) => Num(x)
      case Empty => Null
      case _ => Undefined
  }

  /**
   * displayValue: a dynamic formula shows its node's cache, an invalid one
   * undefined, a static one its value, an empty cell the empty string, and a
   * number or text itself. A dynamic formula always has a node.
   */
  function DisplayValue(entry: Option<Entry>, activeCache: Option<Val>): Display
    requires entry.Some? && entry.value.DynamicFormula? ==> activeCache.Some?
  {
    match entry
    case None => Text("")
    case Some(DynamicFormula(_)) => Shown(activeCache.value)
    case Some(InvalidFormula(_, _, _, _)) => Shown(Undefined)
    case Some(StaticFormula(_, v)) => Shown(v)
    case Some(NumberEntry(x)) => Shown(Num(x))
    case Some(TextEntry(s)) => Text(s)
  }

  /** The value of one base-36 digit (0-9, then the letters of either case), or -1. */
  function Digit36(c: char): (r: int)
    ensures -1 <= r < 36
  {
    if '0' <= c <= '9' then c as int - '0' as int
    else if 'a' <= c <= 'z' then c as int - 'a' as int + 10
    else if 'A' <= c <= 'Z' then c as int - 'A' as int + 10
    else -1
  }

  /** The length of the leading run of base-36 digits. */
  function Digits36(s: string): (r: nat)
    ensures r <= |s|
  {
    if |s| == 0 || Digit36(s[0]) < 0 then 0 else 1 + Digits36(s[1..])
  }

  /** The number that base-36 digits stand for. */
  function Base36(s: string): nat
  {
    if |s| == 0 then 0 else Base36(s[..|s| - 1]) * 36 + (if Digit36(s[|s| - 1]) < 0 then 0 else Digit36(s[|s| - 1]))
  }

  /**
   * columnToNum: parseInt(column, 36), which skips leading whitespace, takes
   * an optional sign and the longest run of base-36 digits; NaN (None) when
   * there are none.
   */
  function ColumnToNum(column: string): (r: Option<int>)
  {
    var s := column[WhitespaceMatch(column)..];
    var signed := |s| > 0 && (s[0] == '-' || s[0] == '+');
    var digits := if signed then s[1..] else s;
    var d := Digits36(digits);
    var v: int := Base36(digits[..d]);
    if d == 0 then None
    else if signed && s[0] == '-' then Some(-v)
    else Some(v)
  }

  /** Number(cellRow) for the row of a reference: its digits, 0 for "", NaN (None) otherwise. */
  function RowNumber(row: string): Option<nat>
  {
    if |row| == 0 then Some(0) else if IsDigits(row) then Some(DigitsValue(row)) else None
  }

  function DigitChar(d: nat): (c: char)
    requires d < 10
    ensures IsDigit(c)
  {
    ('0' as int + d) as char
  }

  /** String(n): the decimal digits of n, without leading zeros. */
  function NatToString(n: nat): (r: string)
    ensures |r| > 0
  {
    if n < 10 then [DigitChar(n)] else NatToString(n / 10) + [DigitChar(n % 10)]
  }

  /**
   * The name getActiveCell gives a node, as corrected: the column and the
   * row's number written out, so that a row with leading zeros names the same
   * cell as the row without them.
   */
  function CellName(col: string, row: string): string
  {
    match RowNumber(row)
    case Some(n) => col + NatToString(n)
    case None => col + row
  }

  /** The name getActiveCell gives a node, as written: cellCol + cellRow. */
  function CellNameAsWritten(col: string, row: string): string
  {
    col + row
  }

  /** ^\s*= */
  predicate IsFormulaText(text: string)
  {
    WhitespaceMatch(text) < |text| && text[WhitespaceMatch(text)] == '='
  }

  /** text.replace(formulaRe, '').trim() */
  function FormulaTextOf(text: string): string
    requires IsFormulaText(text)
  {
    Trim(text[WhitespaceMatch(text) + 1..])
  }

  /** The text after leading whitespace and an optional minus sign. */
  function Unsigned(text: string): string
  {
    var s := text[WhitespaceMatch(text)..];
    if |s| > 0 && s[0] == '-' then s[1..] else s
  }

  /** numberRe: ^\s*-?[0-9]+(\.[0-9]+)?\s*$ */
  predicate IsNumberText(text: string)
  {
    var u := Unsigned(text);
    var n := NumberMatch(u);
    n > 0 && WhitespaceMatch(u[n..]) == |u| - n
  }

  /** Number(text) for a text numberRe accepts. */
  function NumberValue(text: string): real
    requires IsNumberText(text)
  {
    var s := text[WhitespaceMatch(text)..];
    var u := Unsigned(text);
    var v := DecimalValue(u[..NumberMatch(u)]);
    if |s| > 0 && s[0] == '-' then -v else v
  }

  /** The StaticFormula value of a converted formula that is not dynamic. */
  function StaticValue(c: Converted): Val
  {
    if c.One? && c.tree.BNumber? then Num(c.tree.value) else Undefined
  }

  /**
   * The entry setCellEntry stores for formula text, given what parseFormula
   * returned: an invalid formula with the error's span and message, a dynamic
   * formula for a call or a reference, otherwise a static formula.
   */
  function FormulaEntry(formulaText: string, parsed: Result<Elem>): Entry
  {
    match parsed
    case Err(e) => InvalidFormula(formulaText, e.index, e.length, e.message)
    case Ok(tree) =>
      if tree.Formula? || tree.Reference? then DynamicFormula(formulaText)
      else StaticFormula(formulaText, if tree.Number? then Num(tree.value) else Undefined)
  }

  /**
   * The entry setCellEntry stores for some text, None for null: a formula, a
   * number, or the text without trailing whitespace, null when nothing is left.
   */
  function EntryFor(text: string): Option<Entry>
  {
    if IsFormulaText(text) then
      var formulaText := FormulaTextOf(text);
      Some(FormulaEntry(formulaText, FormulaTree.ParseFormula(formulaText)))
    else if IsNumberText(text) then Some(NumberEntry(NumberValue(text)))
    else if TrimEnd(text) == "" then None
    else Some(TextEntry(TrimEnd(text)))
  }

  /** The value an active node takes for an entry that is not dynamic: the entry, or null. */
  function EntryValue(entry: Option<Entry>): CellValue
  {
    if entry.Some? then Stored(entry.value) else Empty
  }

  lemma FlattenAppend<T>(xss: seq<seq<T>>, xs: seq<T>)
    ensures Flatten(xss + [xs]) == Flatten(xss) + xs
  {
    assert (xss + [xs])[..|xss|] == xss;
  }

  /** A target is in a union exactly when it is in one of the sets. */
  lemma {:induction false} UnionAllMember(ss: seq<set<Target>>, t: Target)
    ensures t in UnionAll(ss) <==> exists k :: 0 <= k < |ss| && t in ss[k]
    decreases |ss|
  {
    if |ss| > 0 {
      var p := ss[..|ss| - 1];
      UnionAllMember(p, t);
      if t in UnionAll(p) {
        var k :| 0 <= k < |p| && t in p[k];
        assert t in ss[k];
      }
      if exists k :: 0 <= k < |ss| && t in ss[k] {
        var k :| 0 <= k < |ss| && t in ss[k];
        if k < |ss| - 1 {
          assert t in p[k];
        }
      }
    }
  }

  lemma {:induction false} TargetSetConcat(a: seq<CellRef>, b: seq<CellRef>)
    ensures TargetSet(a + b) == TargetSet(a) + TargetSet(b)
    decreases |b|
  {
    if |b| == 0 {
      assert a + b == a;
    } else {
      TargetSetConcat(a, b[..|b| - 1]);
      assert (a + b)[..|a + b| - 1] == a + b[..|b| - 1];
    }
  }

  /** A target is in TargetSet exactly when some reference has it. */
  lemma {:induction false} TargetSetMember(refs: seq<CellRef>, t: Target)
    ensures t in TargetSet(refs) <==> exists k :: 0 <= k < |refs| && refs[k].target == t
    decreases |refs|
  {
    if |refs| > 0 {
      var p := refs[..|refs| - 1];
      TargetSetMember(p, t);
      if t in TargetSet(p) {
        var k :| 0 <= k < |p| && p[k].target == t;
        assert refs[k].target == t;
      }
    }
  }

  lemma {:induction false} UnionFlatten(ds: seq<set<Target>>, rss: seq<seq<CellRef>>)
    requires |ds| == |rss|
    requires forall k :: 0 <= k < |ds| ==> ds[k] == TargetSet(rss[k])
    ensures UnionAll(ds) == TargetSet(Flatten(rss))
    decreases |ds|
  {
    if |ds| > 0 {
      var n := |ds| - 1;
      UnionFlatten(ds[..n], rss[..n]);
      TargetSetConcat(Flatten(rss[..n]), rss[n]);
    }
  }

  /** deriveDependOn collects exactly the targets of the tree's references. */
  lemma {:induction false} DependOnRefs(tree: Bound)
    ensures DependOn(tree) == TargetSet(Refs(tree))
  {
    match tree
    case BCall(_, args, _, _, _) =>
      var ds := seq(|args|, k requires 0 <= k < |args| => DependOn(args[k]));
      var rss := seq(|args|, k requires 0 <= k < |args| => Refs(args[k]));
      forall k | 0 <= k < |args|
        ensures ds[k] == TargetSet(rss[k])
      {
        DependOnRefs(args[k]);
      }
      UnionFlatten(ds, rss);
    case BRef(r) =>
      assert [r][..0] == [];
    case _ =>
  }

  /**
   * An undefined dependency makes the whole formula undefined: in particular
   * a reference out of scope (null) or to a cell holding text.
   */
  lemma {:induction false} UndefinedPoisons(tree: Bound, nodes: seq<Node>, t: Target)
    requires t in DependOn(tree) && TargetCache(t, nodes) == Undefined
    ensures Evaluate(tree, nodes) == Undefined
  {
    match tree
    case BCall(_, args, _, _, _) =>
      var ds := seq(|args|, k requires 0 <= k < |args| => DependOn(args[k]));
      UnionAllMember(ds, t);
      var k :| 0 <= k < |args| && t in ds[k];
      UndefinedPoisons(args[k], nodes, t);
      var vals := seq(|args|, k requires 0 <= k < |args| => Evaluate(args[k], nodes));
      assert vals[k] == Undefined;
    case BRef(r) =>
  }

  /** A formula's value depends only on the caches of the nodes it depends on. */
  lemma {:induction false} EvaluateLocal(tree: Bound, nodes1: seq<Node>, nodes2: seq<Node>)
    requires forall t :: t in DependOn(tree) ==> TargetCache(t, nodes1) == TargetCache(t, nodes2)
    ensures Evaluate(tree, nodes1) == Evaluate(tree, nodes2)
  {
    match tree
    case BCall(_, args, _, _, _) =>
      var ds := seq(|args|, k requires 0 <= k < |args| => DependOn(args[k]));
      forall k | 0 <= k < |args|
        ensures Evaluate(args[k], nodes1) == Evaluate(args[k], nodes2)
      {
        forall t | t in DependOn(args[k])
          ensures TargetCache(t, nodes1) == TargetCache(t, nodes2)
        {
          assert t in ds[k];
          UnionAllMember(ds, t);
        }
        EvaluateLocal(args[k], nodes1, nodes2);
      }
      assert seq(|args|, k requires 0 <= k < |args| => Evaluate(args[k], nodes1))
          == seq(|args|, k requires 0 <= k < |args| => Evaluate(args[k], nodes2));
    case _ =>
  }

  /** String(n) is a row of decimal digits whose value is n. */
  lemma {:induction false} NatToStringValue(n: nat)
    ensures IsDigits(NatToString(n)) && DigitsValue(NatToString(n)) == n
  {
    var s := NatToString(n);
    if n < 10 {
      assert s[..0] == [];
    } else {
      var p := NatToString(n / 10);
      NatToStringValue(n / 10);
      assert s == p + [DigitChar(n % 10)];
      assert s[..|s| - 1] == p;
    }
  }

  /** String(n) has no leading zero: it starts with 0 only for 0. */
  lemma {:induction false} NatToStringNoLeadingZero(n: nat)
    ensures (NatToString(n)[0] == '0') == (n == 0)
  {
    if n >= 10 {
      NatToStringNoLeadingZero(n / 10);
      assert NatToString(n)[0] == NatToString(n / 10)[0];
    }
  }

  /** parseInt's digits are the longest leading run: each is a base-36 digit, and the next character is not. */
  lemma {:induction false} Digits36Longest(s: string)
    ensures forall k :: 0 <= k < Digits36(s) ==> Digit36(s[k]) >= 0
    ensures Digits36(s) < |s| ==> Digit36(s[Digits36(s)]) < 0
  {
    if |s| > 0 && Digit36(s[0]) >= 0 {
      Digits36Longest(s[1..]);
      forall k | 0 < k < Digits36(s)
        ensures Digit36(s[k]) >= 0
      {
        assert s[1..][k - 1] == s[k];
      }
      if Digits36(s) < |s| {
        assert s[1..][Digits36(s[1..])] == s[Digits36(s)];
      }
    }
  }

  /**
   * The corrected name of a reference's node is that of the same row reached
   * through a cell-range, which writes the row with String(row).
   */
  lemma CellNameCanonical(col: string, row: string)
    requires IsDigits(row)
    ensures CellName(col, row) == col + NatToString(DigitsValue(row))
    ensures CellName(col, NatToString(DigitsValue(row))) == CellName(col, row)
  {
    NatToStringValue(DigitsValue(row));
  }

  /** As written, a row with a leading zero is in scope as row 46 but names a different node. */
  lemma LeadingZeroAsWritten()
    ensures RowNumber("046") == RowNumber("46") == Some(46)
    ensures CellNameAsWritten("a", "046") != CellNameAsWritten("a", "46")
  {
    DigitsOf46();
    assert CellNameAsWritten("a", "046")[1] == '0';
  }

  lemma DigitsOf46()
    ensures IsDigits("046") && IsDigits("46")
    ensures DigitsValue("046") == 46 && DigitsValue("46") == 46
  {
    assert "046"[..2] == "04" && "04"[..1] == "0" && "0"[..0] == "";
    assert "46"[..1] == "4" && "4"[..0] == "";
  }

  /** Corrected, the row with a leading zero names the node of row 46. */
  lemma LeadingZeroCorrected()
    ensures CellName("a", "046") == CellName("a", "46") == "a46"
  {
    DigitsOf46();
    assert NatToString(46) == "46";
  }

  lemma {:induction false} Digits36Lower(w: string)
    requires forall k :: 0 <= k < |w| ==> 'a' <= w[k] <= 'z'
    ensures Digits36(w) == |w|
  {
    if |w| > 0 {
      Digits36Lower(w[1..]);
    }
  }

  lemma {:induction false} Base36Lower(w: string)
    requires IsLowerWord(w)
    ensures Base36(w) >= 10
  {
    if |w| > 1 {
      Base36Lower(w[..|w| - 1]);
    }
  }

  /**
   * columnToNum on the lowercase column of a reference: the base-36 value of
   * the whole word, never below that of 'a', which is 10.
   */
  lemma ColumnOfWord(w: string)
    requires IsLowerWord(w)
    ensures ColumnToNum(w) == Some(Base36(w)) && Base36(w) >= 10
    ensures ColumnToNum("a") == Some(10)
  {
    Digits36Lower(w);
    Base36Lower(w);
    assert w[WhitespaceMatch(w)..] == w;
    assert w[..|w|] == w;
    assert "a"[WhitespaceMatch("a")..] == "a";
    Digits36Lower("a");
    assert "a"[..1] == "a";
  }

  /** A text of whitespace is an empty cell: nothing is stored for it. */
  lemma BlankIsEmpty(text: string)
    requires forall k :: 0 <= k < |text| ==> IsWhitespace(text[k])
    ensures EntryFor(text) == None
  {
    RunSpec(text, Spaces);
    assert WhitespaceMatch(text) == |text|;
    assert Unsigned(text) == [];
  }
}
