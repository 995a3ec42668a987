/**
 * Properties of the formula parser of modules/formula-tree.js, stated about
 * the functions of FormulaTree: the errors of the tokeniser and their spans,
 * bracket matching, the "Missing operator" check, the order and direction in
 * which the operator passes reduce, empty arguments, the spans of the nodes
 * built, and constant folding.
 */
module FormulaTreeProps {
  import opened Wrappers
  import opened FormulaValues
  import opened FormulaText
  import opened FormulaTree

  /** The change to the bracket depth made by one character. */
  function Delta(c: char): int
  {
    if c == '(' then 1 else if c == ')' then -1 else 0
  }

  /** The number of '(' less the number of ')' in s. */
  function Depth(s: string): int
  {
    if |s| == 0 then 0 else Delta(s[0]) + Depth(s[1..])
  }

  /**
   * The bracket matching of parseContent finds the first position at which
   * the depth, starting from count open brackets, comes back to zero, and
   * finds nothing exactly when the depth never does.
   */
  lemma {:induction false} ClosingBracketSpec(text: string, pos: nat, count: nat)
    requires count >= 1 && pos <= |text|
    ensures ClosingBracketFrom(text, pos, count).None? <==>
      forall j :: pos <= j <= |text| ==> count + Depth(text[pos..j]) >= 1
    ensures ClosingBracketFrom(text, pos, count).Some? ==>
      var e := ClosingBracketFrom(text, pos, count).value;
      && count + Depth(text[pos..e]) == 0
      && forall j :: pos <= j < e ==> count + Depth(text[pos..j]) >= 1
    decreases |text| - pos
  {
    assert text[pos..pos] == [];
    if pos < |text| {
      var c := count + Delta(text[pos]);
      forall j | pos < j <= |text|
        ensures count + Depth(text[pos..j]) == c + Depth(text[pos + 1..j])
      {
        assert text[pos..j][1..] == text[pos + 1..j];
      }
      if c >= 1 {
        ClosingBracketSpec(text, pos + 1, c);
        if ClosingBracketFrom(text, pos + 1, c).None? {
          forall j | pos <= j <= |text|
            ensures count + Depth(text[pos..j]) >= 1
          {
            if j > pos {
              assert c + Depth(text[pos + 1..j]) >= 1;
            }
          }
        } else {
          var e := ClosingBracketFrom(text, pos + 1, c).value;
          assert count + Depth(text[pos..e]) == 0;
        }
      } else {
        assert count + Depth(text[pos..pos + 1]) == 0;
      }
    }
  }

  /** A character that none of the tokens can start with. */
  predicate StartsNoToken(c: char)
  {
    !IsLetter(c) && !IsDigit(c) && !IsOperatorChar(c) && c != ',' && c != '(' && c != ')' && !IsWhitespace(c)
  }

  /** A separator outside the arguments of a call is refused, spanning the ','. */
  lemma SeparatorRefused(text: string, index: int, allowRange: bool)
    requires |text| > 0 && text[0] == ','
    ensures ScanElement(text, index, false, allowRange) == Err(ParseError(index, 1, "Separators not allowed"))
  {
    assert Run(text, Spaces) == 0 && Run(text, Digits) == 0;
  }

  /** A ')' that closes nothing is refused, spanning the ')'. */
  lemma StrayClosingBracket(text: string, index: int, allowSep: bool, allowRange: bool)
    requires |text| > 0 && text[0] == ')'
    ensures ScanElement(text, index, allowSep, allowRange) == Err(ParseError(index, 1, "Unmatched closing bracket"))
  {
    assert Run(text, Spaces) == 0 && Run(text, Digits) == 0 && Run(text, Letters) == 0;
  }

  /** Text that starts no token is refused, spanning all of the remaining text. */
  lemma UnrecognisedText(text: string, index: int, allowSep: bool, allowRange: bool)
    requires |text| > 0 && StartsNoToken(text[0])
    ensures ScanElement(text, index, allowSep, allowRange) == Err(ParseError(index, |text|, "Unrecognised text"))
  {
    assert Run(text, Spaces) == 0 && Run(text, Digits) == 0 && Run(text, Letters) == 0;
  }

  /** A run of class cls that stops at position l has length l. */
  lemma {:induction false} RunExactly(s: string, cls: CharClass, l: nat)
    requires l <= |s| && (forall k :: 0 <= k < l ==> InClass(s[k], cls)) && (l < |s| ==> !InClass(s[l], cls))
    ensures Run(s, cls) == l
    decreases l
  {
    if l > 0 {
      RunExactly(s[1..], cls, l - 1);
    }
  }

  /** The words that a call's name is matched from: letters then name characters. */
  lemma NameMatch(text: string, n: nat)
    requires 0 < n <= |text| && IsLetter(text[0])
    requires (forall k :: 1 <= k < n ==> IsNameChar(text[k])) && (n < |text| ==> !IsNameChar(text[n]))
    ensures var w := Run(text[n..], Spaces);
      FunctionSingletonMatch(text) == if n + w < |text| && text[n + w] == '(' then Some(FunctionMatch(n, n + w + 1)) else None
  {
    forall k | 0 <= k < n - 1
      ensures InClass(text[1..][k], NameChars)
    {
      assert text[1..][k] == text[k + 1];
    }
    RunExactly(text[1..], NameChars, n - 1);
  }

  /**
   * A word of letters that neither a digit (a reference) nor, after any
   * whitespace, a '(' (a call) follows is refused, spanning all of the
   * remaining text.
   */
  lemma UnrecognisedWord(text: string, index: int, allowSep: bool, allowRange: bool)
    requires |text| > 0 && IsLetter(text[0])
    requires var l := Run(text, Letters);
      (l < |text| ==> !IsNameChar(text[l]))
      && (l + Run(text[l..], Spaces) == |text| || text[l + Run(text[l..], Spaces)] != '(')
    ensures ScanElement(text, index, allowSep, allowRange) == Err(ParseError(index, |text|, "Unrecognised text"))
  {
    var l := Run(text, Letters);
    RunSpec(text, Letters);
    NameMatch(text, l);
    assert Run(text[l..], Digits) == 0;
    assert RefMatch(text) == 0 && RefRangeMatch(text) == 0;
  }

  /**
   * A bracket left open to the end of the text is refused with "Missing
   * closing bracket", spanning from the start of the token through the '('.
   */
  lemma MissingClosingBracket(text: string, index: int, allowSep: bool, allowRange: bool)
    requires |text| > 0 && FunctionSingletonMatch(text).Some?
    requires var p := FunctionSingletonMatch(text).value.length;
      forall j :: p <= j <= |text| ==> 1 + Depth(text[p..j]) >= 1
    ensures var p := FunctionSingletonMatch(text).value.length;
      && text[p - 1] == '('
      && ScanElement(text, index, allowSep, allowRange) == Err(ParseError(index, p, "Missing closing bracket"))
  {
    ClosingBracketSpec(text, FunctionSingletonMatch(text).value.length, 1);
  }

  /** A reference is a letter followed by name characters. */
  lemma RefHead(text: string)
    requires RefMatch(text) > 0
    ensures IsLetter(text[0]) && forall k :: 1 <= k < RefMatch(text) ==> IsNameChar(text[k])
  {
    var l := Run(text, Letters);
    RunSpec(text, Letters);
    RunSpec(text[l..], Digits);
    forall k | 1 <= k < RefMatch(text)
      ensures IsNameChar(text[k])
    {
      if k >= l {
        assert text[k] == text[l..][k - l];
      }
    }
  }

  /** A cell-range is not the name of a call. */
  lemma RangeIsNoCall(text: string)
    requires RefRangeMatch(text) > 0
    ensures FunctionSingletonMatch(text).None? && IsLetter(text[0])
  {
    var r1 := RefMatch(text);
    RefHead(text);
    assert text[r1] == ':';
    NameMatch(text, r1);
    assert Run(text[r1..], Spaces) == 0;
  }

  /** A cell-range outside the arguments of a call is refused, spanning the range. */
  lemma RangeRefused(text: string, index: int, allowSep: bool)
    requires RefRangeMatch(text) > 0
    ensures ScanElement(text, index, allowSep, false) == Err(ParseError(index, RefRangeMatch(text), "Cell-ranges not allowed"))
  {
    RangeIsNoCall(text);
    assert Run(text, Digits) == 0;
  }

  /** Neither of the neighbouring elements j - 1 and j is a symbol. */
  predicate Adjacent(elements: seq<Elem>, j: nat)
    requires 1 <= j < |elements|
  {
    !elements[j - 1].RawSymbol? && !elements[j].RawSymbol?
  }

  /**
   * The "Missing operator" error for the neighbours at j: it covers both when
   * both have a span, and otherwise the whole expression.
   */
  function MissingOperatorAt(elements: seq<Elem>, j: nat, startIndex: int, textLength: int): ParseError
    requires 1 <= j < |elements|
  {
    var prevEl := elements[j - 1];
    var el := elements[j];
    if HasSpan(prevEl) && HasSpan(el) then ParseError(prevEl.index, CoverLength(prevEl, el), "Missing operator")
    else ParseError(startIndex, textLength, "Missing operator")
  }

  /**
   * The "Missing operator" check fails exactly when two neighbouring elements
   * from i on are not symbols, and then reports the first such pair.
   */
  lemma {:induction false} MissingOperatorSpec(elements: seq<Elem>, i: nat, startIndex: int, textLength: int)
    requires 1 <= i
    ensures MissingOperatorFrom(elements, i, startIndex, textLength).None? <==>
      forall j :: i <= j < |elements| ==> !Adjacent(elements, j)
    ensures MissingOperatorFrom(elements, i, startIndex, textLength).Some? ==>
      exists j :: i <= j < |elements| && Adjacent(elements, j) && (forall k :: i <= k < j ==> !Adjacent(elements, k))
        && MissingOperatorFrom(elements, i, startIndex, textLength).value == MissingOperatorAt(elements, j, startIndex, textLength)
    decreases |elements| - i
  {
    if i < |elements| && !Adjacent(elements, i) {
      MissingOperatorSpec(elements, i + 1, startIndex, textLength);
      if MissingOperatorFrom(elements, i, startIndex, textLength).Some? {
        var j :| i + 1 <= j < |elements| && Adjacent(elements, j) && (forall k :: i + 1 <= k < j ==> !Adjacent(elements, k))
          && MissingOperatorFrom(elements, i + 1, startIndex, textLength).value == MissingOperatorAt(elements, j, startIndex, textLength);
        assert forall k :: i <= k < j ==> !Adjacent(elements, k);
      }
    } else if i < |elements| {
      assert Adjacent(elements, i);
    }
  }
  /** A symbol element for the operator op. */
  predicate IsSymbol(el: Elem, op: string)
  {
    el.RawSymbol? && el.text == op
  }

  /** The node an operator builds over its arguments, spanning from index over length. */
  function Node(f: Func, args: seq<Elem>, index: int, length: int): Elem
  {
    NumOrNew(f, args, index, length, false)
  }

  /** A pass over slots from i on none of which holds an operator of the pass changes nothing. */
  lemma {:induction false} NoOperatorsPass(s: Slots, opSet: seq<string>, i: nat)
    requires i <= |s|
    requires forall k :: i <= k < |s| ==> !IsOperatorAt(s, opSet, k)
    ensures UnaryPass(s, opSet, i) == Ok(s) && BinaryPass(s, opSet, i) == Ok(s)
    decreases |s| - i
  {
    if i < |s| {
      NoOperatorsPass(s, opSet, i + 1);
    }
  }

  /** A unary minus spans from the operator through its argument. */
  lemma UnaryMinus(m: Elem, a: Elem)
    requires IsSymbol(m, "-") && IsOpArg(a)
    ensures var node := Node(NegateFn, [a], m.index, CoverLength(m, a));
      && OperatorPasses(Wrap([m, a])) == Ok([Some(node), None])
      && node.index == m.index && node.index + node.length == a.index + a.length
  {
    var s := Wrap([m, a]);
    var node := Node(NegateFn, [a], m.index, CoverLength(m, a));
    assert s == [Some(m), Some(a)];
    assert s[0 := Some(node)][1 := None] == [Some(node), None];
    assert UnaryStep(s, ["-"], 0) == Ok([Some(node), None]);
    NoOperatorsPass([Some(node), None], ["-"], 1);
    NoOperatorsPass([Some(node), None], ["/", "*"], 0);
    NoOperatorsPass([Some(node), None], ["+", "-"], 0);
  }

  /** A minus after an operand is binary: it subtracts its neighbours. */
  lemma MinusAfterOperand(a: Elem, m: Elem, b: Elem)
    requires IsOpArg(a) && IsSymbol(m, "-") && IsOpArg(b)
    ensures OperatorPasses(Wrap([a, m, b])) == Ok([None, Some(Node(MinusFn, [a, b], a.index, CoverLength(a, b))), None])
  {
    var s := Wrap([a, m, b]);
    assert s == [Some(a), Some(m), Some(b)];
    NoOperatorsPass(s, ["-"], 2);
    assert UnaryStep(s, ["-"], 1) == Ok(s);
    assert UnaryPass(s, ["-"], 1) == Ok(s);
    assert UnaryPass(s, ["-"], 0) == Ok(s);
    NoOperatorsPass(s, ["/", "*"], 2);
    assert BinaryPass(s, ["/", "*"], 1) == Ok(s);
    assert BinaryPass(s, ["/", "*"], 0) == Ok(s);
    var s' := [None, Some(Node(MinusFn, [a, b], a.index, CoverLength(a, b))), None];
    assert s[1 := s'[1]][0 := None][2 := None] == s';
    assert BinaryStep(s, ["+", "-"], 1) == Ok(s');
    NoOperatorsPass(s', ["+", "-"], 2);
    assert BinaryPass(s, ["+", "-"], 1) == Ok(s');
  }

  /** A unary minus whose argument is another operator is refused: there is no double unary minus. */
  lemma NoDoubleUnary(m1: Elem, m2: Elem, a: Elem)
    requires IsSymbol(m1, "-") && m2.RawSymbol?
    ensures OperatorPasses(Wrap([m1, m2, a])) == Err(OperatorWrongArgError("Unary", m1, "first", m2))
  {
    var s := Wrap([m1, m2, a]);
    assert UnaryStep(s, ["-"], 0) == Err(OperatorWrongArgError("Unary", m1, "first", m2));
  }
  /** The function of a binary operator symbol. */
  function BinaryOf(op: Elem): Func
    requires op.RawSymbol? && BinaryFunction(op.text).Some?
  {
    BinaryFunction(op.text).value
  }

  /** Minus and plus: the operators of the last pass. */
  predicate IsAdditive(op: Elem)
  {
    IsSymbol(op, "+") || IsSymbol(op, "-")
  }

  /** Times and divide: the operators of the middle pass. */
  predicate IsMultiplicative(op: Elem)
  {
    IsSymbol(op, "*") || IsSymbol(op, "/")
  }

  /** The unary pass leaves a b c d e alone when every operator follows an operand. */
  lemma UnaryPassKeeps(a: Elem, o1: Elem, b: Elem, o2: Elem, c: Elem)
    requires IsOpArg(a) && o1.RawSymbol? && IsOpArg(b) && o2.RawSymbol? && IsOpArg(c)
    ensures UnaryPass(Wrap([a, o1, b, o2, c]), ["-"], 0) == Ok(Wrap([a, o1, b, o2, c]))
  {
    var s := Wrap([a, o1, b, o2, c]);
    assert s == [Some(a), Some(o1), Some(b), Some(o2), Some(c)];
    NoOperatorsPass(s, ["-"], 4);
    assert UnaryStep(s, ["-"], 3) == Ok(s);
    assert UnaryPass(s, ["-"], 3) == Ok(s);
    assert UnaryPass(s, ["-"], 2) == Ok(s);
    assert UnaryStep(s, ["-"], 1) == Ok(s);
    assert UnaryPass(s, ["-"], 1) == Ok(s);
  }

  /**
   * Two operators of one pass reduce left to right: a o1 b o2 c is
   * (a o1 b) o2 c, spanning from a through c.
   */
  lemma LeftToRight(a: Elem, o1: Elem, b: Elem, o2: Elem, c: Elem, opSet: seq<string>)
    requires IsOpArg(a) && IsOpArg(b) && IsOpArg(c)
    requires o1.RawSymbol? && o2.RawSymbol? && o1.text in opSet && o2.text in opSet
    requires BinaryFunction(o1.text).Some? && BinaryFunction(o2.text).Some?
    ensures var inner := Node(BinaryOf(o1), [a, b], a.index, CoverLength(a, b));
      BinaryPass(Wrap([a, o1, b, o2, c]), opSet, 0)
        == Ok([None, None, None, Some(Node(BinaryOf(o2), [inner, c], a.index, CoverLength(a, c))), None])
  {
    var s := Wrap([a, o1, b, o2, c]);
    assert s == [Some(a), Some(o1), Some(b), Some(o2), Some(c)];
    var inner := Node(BinaryOf(o1), [a, b], a.index, CoverLength(a, b));
    var s1 := [None, Some(inner), None, Some(o2), Some(c)];
    assert s[1 := Some(inner)][0 := None][2 := None] == s1;
    assert BinaryStep(s, opSet, 1) == Ok(s1);
    var outer := Node(BinaryOf(o2), [inner, c], a.index, CoverLength(a, c));
    var s3 := [None, None, None, Some(outer), None];
    assert PrevFrom(s1, 2) == 1;
    assert s1[3 := Some(outer)][1 := None][4 := None] == s3;
    assert BinaryStep(s1, opSet, 3) == Ok(s3);
    NoOperatorsPass(s3, opSet, 4);
    assert BinaryPass(s1, opSet, 3) == Ok(s3);
    assert BinaryPass(s1, opSet, 2) == Ok(s3);
    assert BinaryPass(s, opSet, 1) == Ok(s3);
  }

  /** Plus and minus associate to the left: a o1 b o2 c is (a o1 b) o2 c. */
  lemma AdditiveLeftToRight(a: Elem, o1: Elem, b: Elem, o2: Elem, c: Elem)
    requires IsOpArg(a) && IsAdditive(o1) && IsOpArg(b) && IsAdditive(o2) && IsOpArg(c)
    ensures var inner := Node(BinaryOf(o1), [a, b], a.index, CoverLength(a, b));
      OperatorPasses(Wrap([a, o1, b, o2, c]))
        == Ok([None, None, None, Some(Node(BinaryOf(o2), [inner, c], a.index, CoverLength(a, c))), None])
  {
    var s := Wrap([a, o1, b, o2, c]);
    UnaryPassKeeps(a, o1, b, o2, c);
    assert s == [Some(a), Some(o1), Some(b), Some(o2), Some(c)];
    NoOperatorsPass(s, ["/", "*"], 0);
    LeftToRight(a, o1, b, o2, c, ["+", "-"]);
  }

  /** Times and divide associate to the left: a o1 b o2 c is (a o1 b) o2 c. */
  lemma MultiplicativeLeftToRight(a: Elem, o1: Elem, b: Elem, o2: Elem, c: Elem)
    requires IsOpArg(a) && IsMultiplicative(o1) && IsOpArg(b) && IsMultiplicative(o2) && IsOpArg(c)
    ensures var inner := Node(BinaryOf(o1), [a, b], a.index, CoverLength(a, b));
      OperatorPasses(Wrap([a, o1, b, o2, c]))
        == Ok([None, None, None, Some(Node(BinaryOf(o2), [inner, c], a.index, CoverLength(a, c))), None])
  {
    var s := Wrap([a, o1, b, o2, c]);
    UnaryPassKeeps(a, o1, b, o2, c);
    LeftToRight(a, o1, b, o2, c, ["/", "*"]);
    var inner := Node(BinaryOf(o1), [a, b], a.index, CoverLength(a, b));
    var s3 := [None, None, None, Some(Node(BinaryOf(o2), [inner, c], a.index, CoverLength(a, c))), None];
    NoOperatorsPass(s3, ["+", "-"], 0);
  }

  /** The middle pass on a p b t c reduces b t c only. */
  lemma MiddlePass(a: Elem, p: Elem, b: Elem, t: Elem, c: Elem)
    requires IsOpArg(a) && IsAdditive(p) && IsOpArg(b) && IsMultiplicative(t) && IsOpArg(c)
    ensures BinaryPass(Wrap([a, p, b, t, c]), ["/", "*"], 0)
      == Ok([Some(a), Some(p), None, Some(Node(BinaryOf(t), [b, c], b.index, CoverLength(b, c))), None])
  {
    var s := Wrap([a, p, b, t, c]);
    assert s == [Some(a), Some(p), Some(b), Some(t), Some(c)];
    var inner := Node(BinaryOf(t), [b, c], b.index, CoverLength(b, c));
    var s2 := [Some(a), Some(p), None, Some(inner), None];
    assert s[3 := Some(inner)][2 := None][4 := None] == s2;
    assert BinaryStep(s, ["/", "*"], 3) == Ok(s2);
    NoOperatorsPass(s2, ["/", "*"], 4);
    assert BinaryPass(s, ["/", "*"], 3) == Ok(s2);
    assert BinaryPass(s, ["/", "*"], 2) == Ok(s2);
    assert BinaryStep(s, ["/", "*"], 1) == Ok(s);
    assert BinaryPass(s, ["/", "*"], 1) == Ok(s2);
  }

  /** Times and divide bind tighter than plus and minus: a p b t c is a p (b t c). */
  lemma MultiplyBeforeAdd(a: Elem, p: Elem, b: Elem, t: Elem, c: Elem)
    requires IsOpArg(a) && IsAdditive(p) && IsOpArg(b) && IsMultiplicative(t) && IsOpArg(c)
    ensures var inner := Node(BinaryOf(t), [b, c], b.index, CoverLength(b, c));
      OperatorPasses(Wrap([a, p, b, t, c]))
        == Ok([None, Some(Node(BinaryOf(p), [a, inner], a.index, CoverLength(a, c))), None, None, None])
  {
    UnaryPassKeeps(a, p, b, t, c);
    MiddlePass(a, p, b, t, c);
    var inner := Node(BinaryOf(t), [b, c], b.index, CoverLength(b, c));
    var s2 := [Some(a), Some(p), None, Some(inner), None];
    var outer := Node(BinaryOf(p), [a, inner], a.index, CoverLength(a, c));
    var s3 := [None, Some(outer), None, None, None];
    assert NextFrom(s2, 2) == 3;
    assert s2[1 := Some(outer)][0 := None][3 := None] == s3;
    assert BinaryStep(s2, ["+", "-"], 1) == Ok(s3);
    NoOperatorsPass(s3, ["+", "-"], 2);
    assert BinaryPass(s2, ["+", "-"], 1) == Ok(s3);
  }
  /** A single element that is not a symbol reduces to itself. */
  lemma ReducesToItself(a: Elem, startIndex: int, textLength: int)
    requires !a.RawSymbol?
    ensures ReplaceOperatorRawSymbols([a], startIndex, textLength) == Ok(a)
  {
    NoOperatorsPass(Wrap([a]), ["-"], 0);
    NoOperatorsPass(Wrap([a]), ["/", "*"], 0);
    NoOperatorsPass(Wrap([a]), ["+", "-"], 0);
    assert Present(Wrap([a])) == [a] by {
      assert Wrap([a]) == [Some(a)];
      assert Present(Wrap([a])[1..]) == [];
    }
  }

  /** A leading separator is an empty first argument, spanning that separator. */
  lemma EmptyFirstArgument(c: Elem, rest: seq<Elem>, startIndex: int, contentEnd: int)
    requires IsSeparator(c)
    ensures ArgumentsFrom([c] + rest, 0, startIndex, contentEnd, [], [], None)
      == Err(ParseError(c.index, c.length, "Empty argument"))
  {
  }

  /**
   * The loop of parseArguments runs through a prefix whose arguments all
   * parse and which ends in an element, up to the separator that follows it:
   * it then holds the prefix's arguments, and that separator is the previous
   * one.
   */
  lemma {:induction false} ArgumentsThroughPrefix(pre: seq<Elem>, tail: seq<Elem>, i: nat, startIndex: int, contentEnd: int,
                                                  args: seq<Elem>, argElements: seq<Elem>, prevSep: Option<Elem>)
    requires i <= |pre| && |tail| > 0 && IsSeparator(tail[0])
    requires prevSep.Some? ==> prevSep.value.RawSymbol?
    requires (i < |pre| ==> !IsSeparator(pre[|pre| - 1])) && (i == |pre| ==> argElements != [])
    requires ArgumentsFrom(pre, i, startIndex, tail[0].index, args, argElements, prevSep).Ok?
    ensures ArgumentsFrom(pre + tail, i, startIndex, contentEnd, args, argElements, prevSep)
      == ArgumentsFrom(pre + tail, |pre| + 1, tail[0].index + tail[0].length, contentEnd,
                       ArgumentsFrom(pre, i, startIndex, tail[0].index, args, argElements, prevSep).value, [], Some(tail[0]))
    decreases |pre| - i
  {
    var elements := pre + tail;
    var c := tail[0];
    if i == |pre| {
      assert elements[i] == c;
    } else {
      var el := pre[i];
      assert elements[i] == el;
      if IsSeparator(el) {
        match ReplaceOperatorRawSymbols(argElements, startIndex, el.index - startIndex)
        case Err(e) =>
        case Ok(a) =>
          ArgumentsThroughPrefix(pre, tail, i + 1, el.index + el.length, contentEnd, args + [a], [], Some(el));
      } else {
        ArgumentsThroughPrefix(pre, tail, i + 1, startIndex, contentEnd, args, argElements + [el], None);
      }
    }
  }

  /**
   * Two separators with nothing between them, after arguments that all
   * parse, are an empty argument, spanning from the first separator through
   * the second, whatever follows.
   */
  lemma EmptyMiddleArgument(pre: seq<Elem>, c1: Elem, c2: Elem, rest: seq<Elem>, startIndex: int, contentEnd: int)
    requires |pre| > 0 && !IsSeparator(pre[|pre| - 1]) && IsSeparator(c1) && IsSeparator(c2)
    requires ArgumentsFrom(pre, 0, startIndex, c1.index, [], [], None).Ok?
    ensures ArgumentsFrom(pre + ([c1, c2] + rest), 0, startIndex, contentEnd, [], [], None)
      == Err(ParseError(c1.index, CoverLength(c1, c2), "Empty argument"))
  {
    var tail := [c1, c2] + rest;
    ArgumentsThroughPrefix(pre, tail, 0, startIndex, contentEnd, [], [], None);
    assert (pre + tail)[|pre| + 1] == c2;
  }

  /** A trailing separator after arguments that all parse is an empty last argument, spanning that separator. */
  lemma EmptyLastArgument(pre: seq<Elem>, c: Elem, startIndex: int, contentEnd: int)
    requires |pre| > 0 && !IsSeparator(pre[|pre| - 1]) && IsSeparator(c)
    requires ArgumentsFrom(pre, 0, startIndex, c.index, [], [], None).Ok?
    ensures ArgumentsFrom(pre + [c], 0, startIndex, contentEnd, [], [], None)
      == Err(ParseError(c.index, c.length, "Empty argument"))
  {
    ArgumentsThroughPrefix(pre, [c], 0, startIndex, contentEnd, [], [], None);
  }

  /** A single operand before the separators is an argument that parses. */
  lemma OneArgument(a: Elem, startIndex: int, end: int)
    requires !a.RawSymbol?
    ensures ArgumentsFrom([a], 0, startIndex, end, [], [], None) == Ok([a])
  {
    ReducesToItself(a, startIndex, end - startIndex);
    assert ReplaceOperatorRawSymbols([a], startIndex, end - startIndex) == Ok(a);
    assert ArgumentsFrom([a], 1, startIndex, end, [], [a], None) == Ok([] + [a]);
    assert [] + [a] == [a];
  }

  /** The number of separators in elements. */
  function SeparatorCount(elements: seq<Elem>): nat
  {
    if |elements| == 0 then 0 else (if IsSeparator(elements[0]) then 1 else 0) + SeparatorCount(elements[1..])
  }

  /** No argument is empty: no separator first, last, or next to another. */
  predicate NoEmptyArgument(elements: seq<Elem>)
  {
    |elements| > 0 ==>
      && !IsSeparator(elements[0]) && !IsSeparator(elements[|elements| - 1])
      && forall k :: 1 <= k < |elements| ==> !(IsSeparator(elements[k - 1]) && IsSeparator(elements[k]))
  }

  /** What the loop of parseArguments, from element i on, has shown once it succeeds. */
  lemma {:induction false} ArgumentsFromShape(elements: seq<Elem>, i: nat, startIndex: int, contentEnd: int,
                                               args: seq<Elem>, argElements: seq<Elem>, prevSep: Option<Elem>)
    requires i <= |elements|
    requires prevSep.Some? ==> prevSep.value.RawSymbol? && argElements == []
    ensures var r := ArgumentsFrom(elements, i, startIndex, contentEnd, args, argElements, prevSep);
      r.Ok? ==>
        && (forall k :: i < k < |elements| ==> !(IsSeparator(elements[k - 1]) && IsSeparator(elements[k])))
        && (i < |elements| && argElements == [] ==> !IsSeparator(elements[i]))
        && (i < |elements| ==> !IsSeparator(elements[|elements| - 1]))
        && (i == |elements| ==> prevSep.None?)
        && |r.value| == |args| + SeparatorCount(elements[i..]) + (if argElements != [] || i < |elements| then 1 else 0)
    decreases |elements| - i
  {
    if i < |elements| {
      var el := elements[i];
      assert elements[i..][1..] == elements[i + 1..];
      if IsSeparator(el) {
        if |argElements| != 0 {
          match ReplaceOperatorRawSymbols(argElements, startIndex, el.index - startIndex)
          case Err(e) =>
          case Ok(a) =>
            ArgumentsFromShape(elements, i + 1, el.index + el.length, contentEnd, args + [a], [], Some(el));
        }
      } else {
        ArgumentsFromShape(elements, i + 1, startIndex, contentEnd, args, argElements + [el], None);
      }
    }
  }

  /**
   * parseArguments succeeds only when no argument is empty, and then returns
   * one argument more than there are separators (none for no elements).
   */
  lemma ArgumentsShape(elements: seq<Elem>, startIndex: int, contentEnd: int)
    ensures var r := ArgumentsFrom(elements, 0, startIndex, contentEnd, [], [], None);
      r.Ok? ==> NoEmptyArgument(elements) && |r.value| == if |elements| == 0 then 0 else SeparatorCount(elements) + 1
  {
    ArgumentsFromShape(elements, 0, startIndex, contentEnd, [], [], None);
    assert elements[0..] == elements;
  }
  /**
   * A binary operator that reduces becomes a node over its nearest operands,
   * which it consumes, spanning from the first operand to the end of the
   * second; no other slot changes.
   */
  lemma BinaryStepSpan(s: Slots, opSet: seq<string>, i: nat)
    requires i < |s| && IsOperatorAt(s, opSet, i) && BinaryStep(s, opSet, i).Ok?
    ensures var r := BinaryStep(s, opSet, i).value;
      var prev := PrevFrom(s, i - 1);
      var next := NextFrom(s, i + 1);
      && 0 <= prev < i < next < |s|
      && IsOpArg(s[prev].value) && IsOpArg(s[next].value)
      && r[prev].None? && r[next].None? && r[i].Some?
      && r[i].value.index == s[prev].value.index
      && r[i].value.length == CoverLength(s[prev].value, s[next].value)
      && (r[i].value.RawNumber? || r[i].value.args == [s[prev].value, s[next].value])
      && forall k :: 0 <= k < |s| && k != prev && k != i && k != next ==> r[k] == s[k]
  {
  }

  /**
   * A unary operator that reduces becomes a node over the operand after it,
   * which it consumes, spanning from the operator through that operand; no
   * other slot changes.
   */
  lemma UnaryStepSpan(s: Slots, opSet: seq<string>, i: nat)
    requires i < |s| && IsOperatorAt(s, opSet, i) && UnaryStep(s, opSet, i).Ok? && UnaryStep(s, opSet, i).value != s
    ensures var r := UnaryStep(s, opSet, i).value;
      var next := NextFrom(s, i + 1);
      var prev := PrevFrom(s, i - 1);
      && (prev == -1 || !IsOpArg(s[prev].value))
      && i < next < |s| && IsOpArg(s[next].value)
      && r[next].None? && r[i].Some?
      && r[i].value.index == s[i].value.index
      && r[i].value.index + r[i].value.length == s[next].value.index + s[next].value.length
      && (r[i].value.RawNumber? || r[i].value.args == [s[next].value])
      && forall k :: 0 <= k < |s| && k != i && k != next ==> r[k] == s[k]
  {
  }

  /**
   * A call spans from the start of its name through its closing bracket, and
   * a bracketed sub-expression is widened by one position to each side.
   */
  lemma BracketSpan(text: string, index: int, fm: FunctionMatch, end: nat)
    requires fm.nameLength < fm.length < end <= |text|
    requires ScanBracket(text, index, fm, end).Ok?
    ensures var el := ScanBracket(text, index, fm, end).value.el;
      && (fm.nameLength > 0 ==> HasSpan(el) && el.index == index && el.length == end)
      && (fm.nameLength == 0 && HasSpan(el) ==>
        exists inner :: HasSpan(inner) && el == Widen(inner)
          && ParseSingleton(text[fm.length..end - 1], index + fm.length) == Ok(Widen(inner)))
  {
    var el := ScanBracket(text, index, fm, end).value.el;
    if fm.nameLength == 0 && HasSpan(el) {
      var content := text[fm.length..end - 1];
      var inner :| ReplaceOperatorRawSymbols(ParseContent(content, index + fm.length, false, false).value, index + fm.length, |content|) == Ok(inner);
      assert el == Widen(inner);
    }
  }

  /**
   * numOrNew folds a call into a number with the call's span exactly when
   * every argument is a literal number and the result is a number.
   */
  lemma NumOrNewFolds(func: Func, args: seq<Elem>, index: int, length: int, allowNull: bool)
    ensures var r := NumOrNew(func, args, index, length, allowNull);
      && (r.RawNumber? <==> AllRawNumbers(args) && Apply(func, Numbers(args)).Num?)
      && (r.RawNumber? ==> Num(r.number) == Apply(func, Numbers(args)) && r.index == index && r.length == length)
      && (!r.RawNumber? ==> r == Formula(func, args, index, length, allowNull))
  {
  }

  /** avg() has no value, so a call of avg with no arguments is kept. */
  lemma EmptyAvgKept(index: int, length: int)
    ensures NumOrNew(AvgFn, [], index, length, true) == Formula(AvgFn, [], index, length, true)
  {
    EmptyCalls();
  }
  /** The call 'avg  ()' scanned from the text 'avg  () ' at position 1. */
  lemma AvgScanned(t: string)
    requires t == "avg  () "
    ensures ScanElement(t, 1, false, false) == Ok(Scanned(Formula(AvgFn, [], 1, 7, true), 7))
  {
    RunExactly(t[1..], NameChars, 2);
    RunExactly(t[3..], Spaces, 2);
    assert FunctionSingletonMatch(t) == Some(FunctionMatch(3, 6));
    assert ClosingBracketFrom(t, 6, 1) == Some(7);
    assert t[..3] == "avg" && t[6..6] == "";
    assert Lower("avg") == "avg";
    assert ParseArguments("", 7) == Ok([]);
    EmptyAvgKept(1, 7);
    assert FormulaFromString(t[..3], 1, t[6..6], 7) == Ok(Formula(AvgFn, [], 1, 7, true));
  }

  lemma PrependLast(el: Elem)
    ensures PrependTo(el, Ok([])) == Ok([el])
  {
    assert [el] + [] == [el];
  }

  /** The elements of ' avg  () ': the one call. */
  lemma AvgContent(text: string)
    requires text == " avg  () "
    ensures ParseContent(text, 0, false, false) == Ok([Formula(AvgFn, [], 1, 7, true)])
  {
    RunExactly(text, Spaces, 1);
    var t := text[1..];
    AvgScanned(t);
    RunExactly(t[7..], Spaces, 1);
    assert ParseContent(t[7..], 8, false, false) == Ok([]);
    var f := Formula(AvgFn, [], 1, 7, true);
    PrependLast(f);
    assert ParseElements(t, 1, false, false) == PrependTo(f, ParseContent(t[7..], 1 + 7, false, false));
  }

  /** ' avg  () ' parses to the call of avg with no arguments, spanning 'avg  ()'. */
  lemma EmptyAvgFormula(text: string)
    requires text == " avg  () "
    ensures ParseFormula(text) == Ok(Formula(AvgFn, [], 1, 7, true))
  {
    var f := Formula(AvgFn, [], 1, 7, true);
    AvgContent(text);
    ReducesToItself(f, 0, |text|);
    assert ReplaceRawNumbers(f) == f;
  }

  /** A non-empty word of letters, in either case. */
  predicate IsLetterWord(s: string)
  {
    |s| > 0 && forall k :: 0 <= k < |s| ==> IsLetter(s[k])
  }

  /** A cell name followed by anything but a digit is matched as that reference. */
  lemma RefMatchOfName(name: string, rest: string)
    requires IsCellName(name) && (|rest| > 0 ==> !IsDigit(rest[0]))
    ensures RefMatch(name + rest) == |name| && (name + rest)[..|name|] == name
  {
    var t := name + rest;
    var l := Run(name, Letters);
    RunSpec(name, Letters);
    RunSpec(name[l..], Digits);
    assert forall k :: 0 <= k <= l ==> t[k] == name[k];
    RunExactly(t, Letters, l);
    var u := t[l..];
    assert forall k :: 0 <= k < |name| - l ==> u[k] == name[l..][k];
    assert |name| - l < |u| ==> u[|name| - l] == rest[0];
    RunExactly(u, Digits, |name| - l);
  }

  /** Letters then digits form a cell name, split at the end of the letters. */
  lemma CellNameOf(c: string, r: string)
    requires IsLetterWord(c) && IsDigits(r)
    ensures IsCellName(c + r) && Run(c + r, Letters) == |c|
    ensures (c + r)[..|c|] == c && (c + r)[|c|..] == r
  {
    var t := c + r;
    assert forall k :: 0 <= k < |c| ==> t[k] == c[k];
    assert t[|c|] == r[0];
    RunExactly(t, Letters, |c|);
    assert t[|c|..] == r;
    RunExactly(r, Digits, |r|);
  }

  /**
   * ReferenceRange.fromString on a well-formed range c1 r1 ':' c2 r2: the
   * columns must agree up to case, and then the rows decide between the two
   * row errors and a range from r1 to r2 over the lowercased column.
   */
  lemma RangeErrors(c1: string, r1: string, c2: string, r2: string, index: int)
    requires IsLetterWord(c1) && IsDigits(r1) && IsLetterWord(c2) && IsDigits(r2)
    ensures var t := c1 + r1 + [':'] + c2 + r2;
      var r := ReferenceRangeFromString(t, index);
      && (Lower(c1) != Lower(c2) ==> r == Err(ParseError(index, |t|, "Mismatched columns in cell-range")))
      && (Lower(c1) == Lower(c2) && DigitsValue(r1) == DigitsValue(r2) ==>
            r == Err(ParseError(index, |t|, "Cell-range starts and ends at the same row")))
      && (Lower(c1) == Lower(c2) && DigitsValue(r1) > DigitsValue(r2) ==>
            r == Err(ParseError(index, |t|, "Cell-range end row before the start row")))
      && (Lower(c1) == Lower(c2) && DigitsValue(r1) < DigitsValue(r2) ==>
            r == Ok(ReferenceRange(Lower(c1), r1, r2, index, |t|)))
  {
    var first := c1 + r1;
    var second := c2 + r2;
    var t := c1 + r1 + [':'] + c2 + r2;
    assert t == first + [':'] + second;
    CellNameOf(c1, r1);
    CellNameOf(c2, r2);
    RangeTextOf(first, second);
  }

  /** Two cell names around a ':' are range text that splits at that ':'. */
  lemma RangeTextOf(first: string, second: string)
    requires IsCellName(first) && IsCellName(second)
    ensures var t := first + [':'] + second;
      && IsRangeText(t) && RefMatch(t) == |first| && t[..|first|] == first && t[|first| + 1..] == second
  {
    var t := first + [':'] + second;
    assert t == first + ([':'] + second);
    RefMatchOfName(first, [':'] + second);
    assert t[|first| + 1..] == second;
  }

  /** A formula of nothing but whitespace is refused with "Empty Formula", spanning all of it. */
  lemma EmptyFormula(text: string)
    requires forall k :: 0 <= k < |text| ==> IsWhitespace(text[k])
    ensures ParseFormula(text) == Err(ParseError(0, |text|, "Empty Formula"))
  {
    RunExactly(text, Spaces, |text|);
  }

  /** Brackets around nothing but whitespace are refused with "Empty Brackets", spanning both brackets. */
  lemma EmptyBrackets(text: string, index: int, allowSep: bool, allowRange: bool)
    requires |text| >= 2 && text[0] == '(' && text[|text| - 1] == ')'
    requires forall k :: 1 <= k < |text| - 1 ==> IsWhitespace(text[k])
    ensures ScanElement(text, index, allowSep, allowRange) == Err(ParseError(index, |text|, "Empty Brackets"))
  {
    assert Run(text, Spaces) == 0;
    assert FunctionSingletonMatch(text) == Some(FunctionMatch(0, 1));
    BlankThenClose(text, 1);
    var content := text[1..|text| - 1];
    assert forall k :: 0 <= k < |content| ==> content[k] == text[k + 1];
    RunExactly(content, Spaces, |content|);
    assert ParseContent(content, index + 1, false, false) == Ok([]);
    assert ParseSingleton(content, index + 1) == Err(ParseError(index, |text|, "Empty Brackets"));
    assert ScanBracket(text, index, FunctionMatch(0, 1), |text|) == Err(ParseError(index, |text|, "Empty Brackets"));
  }

  /** From pos, whitespace up to a final ')' closes the one open bracket at the end of the text. */
  lemma {:induction false} BlankThenClose(text: string, pos: nat)
    requires 1 <= pos < |text| && text[|text| - 1] == ')'
    requires forall k :: pos <= k < |text| - 1 ==> IsWhitespace(text[k])
    ensures ClosingBracketFrom(text, pos, 1) == Some(|text|)
    decreases |text| - pos
  {
    if pos < |text| - 1 {
      assert IsWhitespace(text[pos]);
      BlankThenClose(text, pos + 1);
    }
  }

  /**
   * A call whose name is neither sum nor avg, in any case, is refused with
   * "Unknown function", spanning the name, whatever its arguments are.
   */
  lemma UnknownFunction(text: string, index: int, allowSep: bool, allowRange: bool)
    requires |text| > 0 && FunctionSingletonMatch(text).Some? && FunctionSingletonMatch(text).value.nameLength > 0
    requires ClosingBracketFrom(text, FunctionSingletonMatch(text).value.length, 1).Some?
    requires var name := Lower(text[..FunctionSingletonMatch(text).value.nameLength]); name != "sum" && name != "avg"
    ensures ScanElement(text, index, allowSep, allowRange) ==
      Err(ParseError(index, FunctionSingletonMatch(text).value.nameLength, "Unknown function"))
  {
    var fm := FunctionSingletonMatch(text).value;
    var end := ClosingBracketFrom(text, fm.length, 1).value;
    assert LookupFunction(text[..fm.nameLength]).None?;
    assert ScanBracket(text, index, fm, end) == Err(ParseError(index, fm.nameLength, "Unknown function"));
  }
}
