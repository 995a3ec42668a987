/**
 * The formula parser of modules/formula-tree.js, as functions.
 *
 * The text is tokenised into a flat list of elements; a bracket (a call
 * "name(...)" or a parenthesised sub-expression) is matched by a depth
 * counter and its content parsed recursively. The operators are then reduced
 * in three passes over the list (unary minus; then times and divide; then
 * plus and minus, each left to right), a consumed slot becoming null. Every
 * element carries the span (index, length) of the text it came from, and a
 * malformed text gives a ParseError naming a span and a message.
 *
 * These functions are the specification the imperative parser of
 * FormulaParser is proved against.
 */
module FormulaTree {
  import opened Wrappers
  import opened FormulaValues
  import opened FormulaText

  datatype ParseError = ParseError(index: int, length: int, message: string)

  /** A result, or the ParseError the source throws. */
  datatype Result<T> = Ok(value: T) | Err(error: ParseError)

  /**
   * The elements of a formula. A Number is a RawNumber stripped of its span
   * once parsing is complete.
   */
  datatype Elem =
    | RawNumber(number: real, index: int, length: int)
    | RawSymbol(text: string, index: int, length: int)
    | Formula(func: Func, args: seq<Elem>, index: int, length: int, allowNull: bool)
    | Reference(refCol: string, refRow: string, index: int, length: int)
    | ReferenceRange(refCol: string, rowStart: string, rowEnd: string, index: int, length: int)
    | Number(value: real)

  /** The element list during the operator passes: null marks a consumed slot. */
  type Slots = seq<Option<Elem>>

  /** new RawSymbol(text, index): the length is that of the text. */
  function MakeRawSymbol(text: string, index: int): (r: Elem)
    ensures r.RawSymbol? && r.text == text && r.index == index && r.length == |text|
  {
    RawSymbol(text, index, |text|)
  }

  /** haveIndexAndLength */
  predicate HasSpan(el: Elem)
  {
    !el.Number?
  }

  /** coverLength: the length from the start of first to the end of second. */
  function CoverLength(first: Elem, second: Elem): int
    requires HasSpan(first) && HasSpan(second)
  {
    second.index - first.index + second.length
  }

  /** isOpArg: what an operator accepts as an argument (not a cell-range). */
  predicate IsOpArg(el: Elem)
  {
    el.RawNumber? || el.Reference? || el.Formula?
  }

  predicate AllRawNumbers(args: seq<Elem>)
  {
    forall k :: 0 <= k < |args| ==> args[k].RawNumber?
  }

  /** The values of literal number arguments. */
  function Numbers(args: seq<Elem>): (r: seq<Val>)
    requires AllRawNumbers(args)
    ensures |r| == |args|
  {
    if |args| == 0 then [] else [Num(args[0].number)] + Numbers(args[1..])
  }

  /**
   * Formula.numOrNew: a call whose arguments are all literal numbers is
   * folded into a RawNumber with the call's span, unless its value is not a
   * number (avg() is undefined), in which case the call is kept.
   */
  function NumOrNew(func: Func, args: seq<Elem>, index: int, length: int, allowNull: bool): (r: Elem)
    ensures r.RawNumber? || r == Formula(func, args, index, length, allowNull)
    ensures r.index == index && r.length == length
  {
    if AllRawNumbers(args) && Apply(func, Numbers(args)).Num? then
      RawNumber(Apply(func, Numbers(args)).n, index, length)
    else
      Formula(func, args, index, length, allowNull)
  }

  /** namedFunctions[name.toLowerCase()] */
  function LookupFunction(name: string): Option<Func>
  {
    var lower := Lower(name);
    if lower == "sum" then Some(SumFn)
    else if lower == "avg" then Some(AvgFn)
    else None
  }

  function UnaryFunction(text: string): Option<Func>
  {
    if text == "-" then Some(NegateFn) else None
  }

  function BinaryFunction(text: string): Option<Func>
  {
    if text == "*" then Some(MultiplyFn)
    else if text == "/" then Some(DivideFn)
    else if text == "+" then Some(AddFn)
    else if text == "-" then Some(MinusFn)
    else None
  }

  /** The letters of text followed by digits that run to its end, if that is all it is. */
  predicate IsCellName(text: string)
  {
    var l := Run(text, Letters);
    0 < l < |text| && Run(text[l..], Digits) == |text| - l
  }

  /** Reference.fromString: /^([a-zA-Z]+)([0-9]+)$/, the column lowercased. */
  function ReferenceFromString(text: string, index: int): (r: Result<Elem>)
  {
    if IsCellName(text) then
      var l := Run(text, Letters);
      Ok(Reference(Lower(text[..l]), text[l..], index, |text|))
    else
      Err(ParseError(index, |text|, "Unknown cell format"))
  }

  /**
   * A reference is made exactly from a cell name: the lowercased column
   * letters and the row digits, which together spell the name; anything
   * else is an "Unknown cell format" error covering the whole text.
   */
  lemma ReferenceFromStringSpec(text: string, index: int)
    ensures ReferenceFromString(text, index).Ok? <==> IsCellName(text)
    ensures var r := ReferenceFromString(text, index);
      r.Ok? ==> (r.value.Reference? && r.value.index == index && r.value.length == |text|
        && IsLowerWord(r.value.refCol) && IsDigits(r.value.refRow)
        && r.value.refCol + r.value.refRow == Lower(text))
    ensures var r := ReferenceFromString(text, index);
      r.Err? ==> r.error == ParseError(index, |text|, "Unknown cell format")
  {
    if IsCellName(text) {
      CellNameParts(text);
    }
  }

  /** A cell name is a word of letters followed by a run of digits. */
  lemma CellNameParts(text: string)
    requires IsCellName(text)
    ensures var l := Run(text, Letters);
      IsLowerWord(Lower(text[..l])) && IsDigits(text[l..])
      && (forall k :: 0 <= k < l ==> IsLetter(text[k]))
      && Lower(text[..l]) + text[l..] == Lower(text)
  {
    var l := Run(text, Letters);
    RunSpec(text, Letters);
    RunSpec(text[l..], Digits);
    LowerSpec(text[..l]);
    assert forall k :: 0 <= k < l ==> text[..l][k] == text[k];
    LowerSplit(text, l);
  }

  /** Lowercasing a text whose tail has no letters lowercases only the head. */
  lemma LowerSplit(text: string, l: int)
    requires 0 <= l <= |text|
    requires forall k :: l <= k < |text| ==> !IsLetter(text[k])
    ensures Lower(text[..l]) + text[l..] == Lower(text)
  {
    LowerNoLetters(text[l..]);
    LowerAppend(text[..l], text[l..]);
    assert text[..l] + text[l..] == text;
  }

  /** The text splits into two cell names around a ':'. */
  predicate IsRangeText(text: string)
  {
    var i := RefMatch(text);
    0 < i < |text| && text[i] == ':' && IsCellName(text[..i]) && IsCellName(text[i + 1..])
  }

  predicate IsDigits(s: string)
  {
    |s| > 0 && forall k :: 0 <= k < |s| ==> IsDigit(s[k])
  }

  predicate IsLowerWord(s: string)
  {
    |s| > 0 && forall k :: 0 <= k < |s| ==> 'a' <= s[k] <= 'z'
  }

  /**
   * ReferenceRange.fromString: /^([a-zA-Z]+)([0-9]+):([a-zA-Z]+)([0-9]+)$/
   * with the columns lowercased; the columns must agree and the start row
   * must be strictly before the end row.
   */
  function ReferenceRangeFromString(text: string, index: int): (r: Result<Elem>)
  {
    if !IsRangeText(text) then Err(ParseError(index, |text|, "Unknown cell-range format"))
    else
      var i := RefMatch(text);
      var first := text[..i];
      var second := text[i + 1..];
      var l1 := Run(first, Letters);
      var l2 := Run(second, Letters);
      var refCol1 := Lower(first[..l1]);
      var rowStart := first[l1..];
      var refCol2 := Lower(second[..l2]);
      var rowEnd := second[l2..];
      if refCol1 != refCol2 then Err(ParseError(index, |text|, "Mismatched columns in cell-range"))
      else if DigitsValue(rowStart) == DigitsValue(rowEnd) then
        Err(ParseError(index, |text|, "Cell-range starts and ends at the same row"))
      else if DigitsValue(rowStart) > DigitsValue(rowEnd) then
        Err(ParseError(index, |text|, "Cell-range end row before the start row"))
      else
        Ok(ReferenceRange(refCol1, rowStart, rowEnd, index, |text|))
  }

  /**
   * Every error of ReferenceRange.fromString covers the whole token; a
   * range has a lowercase column and digit rows, the start row before the
   * end row.
   */
  lemma ReferenceRangeFromStringSpec(text: string, index: int)
    ensures var r := ReferenceRangeFromString(text, index);
      r.Err? ==> r.error.index == index && r.error.length == |text|
    ensures var r := ReferenceRangeFromString(text, index);
      r.Ok? ==> (r.value.ReferenceRange? && r.value.index == index && r.value.length == |text|
        && IsLowerWord(r.value.refCol) && IsDigits(r.value.rowStart) && IsDigits(r.value.rowEnd)
        && DigitsValue(r.value.rowStart) < DigitsValue(r.value.rowEnd))
  {
    if IsRangeText(text) {
      var i := RefMatch(text);
      CellNameParts(text[..i]);
      CellNameParts(text[i + 1..]);
    }
  }

  /** operatorError: the span of the operator and a message naming it. */
  function OperatorError(opType: string, symbol: Elem, problem: string): ParseError
    requires symbol.RawSymbol?
  {
    ParseError(symbol.index, symbol.length, opType + " operator \"" + symbol.text + "\" " + problem)
  }

  /**
   * operatorWrongArgError: the span runs from the operator to the wrong
   * argument, whichever comes first, or is the operator's alone when the
   * argument has no span.
   */
  function OperatorWrongArgError(opType: string, symbol: Elem, argNum: string, wrongArg: Elem): (r: ParseError)
    requires symbol.RawSymbol?
    ensures !HasSpan(wrongArg) ==> r.index == symbol.index && r.length == symbol.length
    ensures HasSpan(wrongArg) && symbol.index < wrongArg.index ==>
      r.index == symbol.index && r.index + r.length == wrongArg.index + wrongArg.length
    ensures HasSpan(wrongArg) && wrongArg.index <= symbol.index ==>
      r.index == wrongArg.index && r.index + r.length == symbol.index + symbol.length
  {
    var message := "Incorrect " + argNum + " argument for the " + opType + " operator \"" + symbol.text + "\"";
    if !HasSpan(wrongArg) then ParseError(symbol.index, symbol.length, message)
    else if symbol.index < wrongArg.index then ParseError(symbol.index, CoverLength(symbol, wrongArg), message)
    else ParseError(wrongArg.index, CoverLength(wrongArg, symbol), message)
  }

  /** findNext from position i on: the first non-null slot, or -1. */
  function NextFrom(s: Slots, i: nat): (r: int)
    ensures r == -1 || (i <= r < |s| && s[r].Some?)
    ensures forall k :: i <= k < |s| && (r == -1 || k < r) ==> s[k].None?
    decreases |s| - i
  {
    if i >= |s| then -1 else if s[i].Some? then i else NextFrom(s, i + 1)
  }

  /** findPrev from position i down: the last non-null slot, or -1. */
  function PrevFrom(s: Slots, i: int): (r: int)
    requires i < |s|
    ensures r == -1 || (0 <= r <= i && s[r].Some?)
    ensures forall k :: 0 <= k <= i && r < k ==> s[k].None?
    decreases i + 1
  {
    if i < 0 then -1 else if s[i].Some? then i else PrevFrom(s, i - 1)
  }

  /** Slot i holds an operator symbol from opSet. */
  predicate IsOperatorAt(s: Slots, opSet: seq<string>, i: nat)
    requires i < |s|
  {
    s[i].Some? && s[i].value.RawSymbol? && s[i].value.text in opSet
  }

  /**
   * One iteration of replaceUnaryRawSymbols: an operator from opSet not
   * preceded by an operand becomes a unary node covering it and its argument.
   */
  function UnaryStep(s: Slots, opSet: seq<string>, i: nat): (r: Result<Slots>)
    requires i < |s|
    ensures r.Ok? ==> |r.value| == |s|
  {
    if !IsOperatorAt(s, opSet, i) then Ok(s)
    else
      var el := s[i].value;
      var prev := PrevFrom(s, i - 1);
      if prev != -1 && IsOpArg(s[prev].value) then Ok(s)
      else
        var next := NextFrom(s, i + 1);
        if next == -1 then Err(OperatorError("Unary", el, "missing an argument"))
        else
          var nextEl := s[next].value;
          if !IsOpArg(nextEl) then Err(OperatorWrongArgError("Unary", el, "first", nextEl))
          else match UnaryFunction(el.text)
            case None => Err(OperatorError("Unary", el, "not handled"))
            case Some(f) =>
              Ok(s[i := Some(NumOrNew(f, [nextEl], el.index, CoverLength(el, nextEl), false))][next := None])
  }

  /** replaceUnaryRawSymbols from slot i on. */
  function UnaryPass(s: Slots, opSet: seq<string>, i: nat): (r: Result<Slots>)
    requires i <= |s|
    ensures r.Ok? ==> |r.value| == |s|
    decreases |s| - i
  {
    if i == |s| then Ok(s)
    else match UnaryStep(s, opSet, i)
      case Err(e) => Err(e)
      case Ok(s') => UnaryPass(s', opSet, i + 1)
  }

  /**
   * One iteration of replaceBinaryRawSymbols: an operator from opSet becomes
   * a binary node over its nearest operands, spanning from the first to the
   * end of the second.
   */
  function BinaryStep(s: Slots, opSet: seq<string>, i: nat): (r: Result<Slots>)
    requires i < |s|
    ensures r.Ok? ==> |r.value| == |s|
  {
    if !IsOperatorAt(s, opSet, i) then Ok(s)
    else
      var el := s[i].value;
      var prev := PrevFrom(s, i - 1);
      var next := NextFrom(s, i + 1);
      if prev == -1 then Err(OperatorError("Binary", el, "missing a first argument"))
      else if next == -1 then Err(OperatorError("Binary", el, "missing a second argument"))
      else
        var prevEl := s[prev].value;
        var nextEl := s[next].value;
        if !IsOpArg(prevEl) then Err(OperatorWrongArgError("Binary", el, "first", prevEl))
        else if !IsOpArg(nextEl) then Err(OperatorWrongArgError("Binary", el, "second", nextEl))
        else match BinaryFunction(el.text)
          case None => Err(OperatorError("Binary", el, "not handled"))
          case Some(f) =>
            Ok(s[i := Some(NumOrNew(f, [prevEl, nextEl], prevEl.index, CoverLength(prevEl, nextEl), false))]
                [prev := None][next := None])
  }

  /** replaceBinaryRawSymbols from slot i on. */
  function BinaryPass(s: Slots, opSet: seq<string>, i: nat): (r: Result<Slots>)
    requires i <= |s|
    ensures r.Ok? ==> |r.value| == |s|
    decreases |s| - i
  {
    if i == |s| then Ok(s)
    else match BinaryStep(s, opSet, i)
      case Err(e) => Err(e)
      case Ok(s') => BinaryPass(s', opSet, i + 1)
  }

  /**
   * The "Missing operator" scan of replaceOperatorRawSymbols from position i
   * on: the first two neighbouring elements neither of which is a symbol.
   */
  function MissingOperatorFrom(elements: seq<Elem>, i: nat, startIndex: int, textLength: int): (r: Option<ParseError>)
    requires 1 <= i
    ensures r.Some? ==> r.value.message == "Missing operator"
    decreases |elements| - i
  {
    if i >= |elements| then None
    else
      var prevEl := elements[i - 1];
      var el := elements[i];
      if !el.RawSymbol? && !prevEl.RawSymbol? then
        if HasSpan(prevEl) && HasSpan(el) then Some(ParseError(prevEl.index, CoverLength(prevEl, el), "Missing operator"))
        else Some(ParseError(startIndex, textLength, "Missing operator"))
      else MissingOperatorFrom(elements, i + 1, startIndex, textLength)
  }

  function Wrap(elements: seq<Elem>): (r: Slots)
    ensures |r| == |elements|
    ensures forall k :: 0 <= k < |r| ==> r[k] == Some(elements[k])
  {
    if |elements| == 0 then [] else [Some(elements[0])] + Wrap(elements[1..])
  }

  /** elements.filter(e => e !== null) */
  function Present(s: Slots): (r: seq<Elem>)
    ensures |r| <= |s|
  {
    if |s| == 0 then []
    else (if s[0].Some? then [s[0].value] else []) + Present(s[1..])
  }

  /** The three operator passes in the source's order. */
  function OperatorPasses(s: Slots): (r: Result<Slots>)
    ensures r.Ok? ==> |r.value| == |s|
  {
    match UnaryPass(s, ["-"], 0)
    case Err(e) => Err(e)
    case Ok(s1) =>
      match BinaryPass(s1, ["/", "*"], 0)
      case Err(e) => Err(e)
      case Ok(s2) => BinaryPass(s2, ["+", "-"], 0)
  }

  /**
   * replaceOperatorRawSymbols: reduce the elements of one (sub-)expression
   * to the single element they stand for. startIndex and textLength are the
   * span of the whole expression, used when no narrower one exists.
   */
  function ReplaceOperatorRawSymbols(elements: seq<Elem>, startIndex: int, textLength: int): Result<Elem>
  {
    match MissingOperatorFrom(elements, 1, startIndex, textLength)
    case Some(e) => Err(e)
    case None =>
      match OperatorPasses(Wrap(elements))
      case Err(e) => Err(e)
      case Ok(s) =>
        var noNull := Present(s);
        if |noNull| != 1 then
          if |noNull| != 0 then Err(ParseError(startIndex, textLength, "Unhandled symbols"))
          else Err(ParseError(startIndex, textLength, "No elements found"))
        else Ok(noNull[0])
  }

  /**
   * The do-while of parseContent that matches brackets: from position pos
   * with count brackets open, the position just after the one that closes
   * them all, if the text has it.
   */
  function ClosingBracketFrom(text: string, pos: nat, count: nat): (r: Option<nat>)
    requires count >= 1
    ensures r.Some? ==> pos < r.value <= |text| && text[r.value - 1] == ')'
    decreases |text| - pos
  {
    if pos >= |text| then None
    else
      var c := if text[pos] == ')' then count - 1 else if text[pos] == '(' then count + 1 else count;
      if c == 0 then Some(pos + 1) else ClosingBracketFrom(text, pos + 1, c)
  }

  /** One element scanned from the front of the text, and how much text it used. */
  datatype Scanned = Scanned(el: Elem, consumed: nat)

  function PrependTo(el: Elem, r: Result<seq<Elem>>): Result<seq<Elem>>
  {
    match r
    case Err(e) => Err(e)
    case Ok(rest) => Ok([el] + rest)
  }

  /**
   * parseContent: the elements of text, which starts at position index of
   * the formula. Separators and cell-ranges are refused unless allowed.
   */
  function ParseContent(text: string, index: int, allowSep: bool, allowRange: bool): Result<seq<Elem>>
    decreases |text|, 4
  {
    var w := WhitespaceMatch(text);
    if w == |text| then Ok([])
    else ParseElements(text[w..], index + w, allowSep, allowRange)
  }

  /** parseContent once the leading whitespace is skipped: an element, then the rest. */
  function ParseElements(text: string, index: int, allowSep: bool, allowRange: bool): Result<seq<Elem>>
    requires |text| > 0
    decreases |text|, 3
  {
    match ScanElement(text, index, allowSep, allowRange)
    case Err(e) => Err(e)
    case Ok(sc) => PrependTo(sc.el, ParseContent(text[sc.consumed..], index + sc.consumed, allowSep, allowRange))
  }

  /**
   * The body of parseContent's loop, at a text that does not start with
   * whitespace: a call or bracketed sub-expression, else a token.
   */
  function ScanElement(text: string, index: int, allowSep: bool, allowRange: bool): (r: Result<Scanned>)
    requires |text| > 0
    ensures r.Ok? ==> 1 <= r.value.consumed <= |text|
    decreases |text|, 2
  {
    match FunctionSingletonMatch(text)
    case Some(fm) =>
      (match ClosingBracketFrom(text, fm.length, 1)
       case None => Err(ParseError(index, fm.length, "Missing closing bracket"))
       case Some(end) => ScanBracket(text, index, fm, end))
    case None => ScanToken(text, index, allowSep, allowRange)
  }

  /**
   * A call or bracketed sub-expression whose closing bracket ends just before
   * position end: the content between the brackets is parsed as the
   * arguments of the named function, or as a singleton when there is no name.
   */
  function ScanBracket(text: string, index: int, fm: FunctionMatch, end: nat): (r: Result<Scanned>)
    requires fm.nameLength < fm.length < end <= |text|
    ensures r.Ok? ==> r.value.consumed == end
    decreases |text|, 0
  {
    var content := text[fm.length..end - 1];
    var el := if fm.nameLength == 0 then ParseSingleton(content, index + fm.length)
      else FormulaFromString(text[..fm.nameLength], index, content, index + fm.length);
    match el
    case Err(e) => Err(e)
    case Ok(e) => Ok(Scanned(e, end))
  }

  /**
   * The rest of parseContent's loop body, for a text that does not start a
   * call or bracketed sub-expression: a number, an operator, a separator, a
   * cell-range or a reference, in that order of preference.
   */
  function ScanToken(text: string, index: int, allowSep: bool, allowRange: bool): (r: Result<Scanned>)
    requires |text| > 0
    ensures r.Ok? ==> 1 <= r.value.consumed <= |text|
  {
    var n := NumberMatch(text);
    if n > 0 then Ok(Scanned(RawNumber(DecimalValue(text[..n]), index, n), n))
    else if OperatorMatch(text) > 0 then Ok(Scanned(MakeRawSymbol(text[..1], index), 1))
    else if SeparatorMatch(text) > 0 then
      if !allowSep then Err(ParseError(index, 1, "Separators not allowed"))
      else Ok(Scanned(MakeRawSymbol(text[..1], index), 1))
    else if RefRangeMatch(text) > 0 then
      var m := RefRangeMatch(text);
      if !allowRange then Err(ParseError(index, m, "Cell-ranges not allowed"))
      else (match ReferenceRangeFromString(text[..m], index)
        case Err(e) => Err(e)
        case Ok(e) => Ok(Scanned(e, m)))
    else if RefMatch(text) > 0 then
      var m := RefMatch(text);
      (match ReferenceFromString(text[..m], index)
       case Err(e) => Err(e)
       case Ok(e) => Ok(Scanned(e, m)))
    else if ClosingBracketMatch(text) > 0 then Err(ParseError(index, 1, "Unmatched closing bracket"))
    else Err(ParseError(index, |text|, "Unrecognised text"))
  }

  /**
   * parseSingleton: a bracketed sub-expression reduces to its one element,
   * stretched to cover the brackets.
   */
  function ParseSingleton(text: string, startIndex: int): Result<Elem>
    decreases |text|, 6
  {
    match ParseContent(text, startIndex, false, false)
    case Err(e) => Err(e)
    case Ok(elements) =>
      if |elements| == 0 then Err(ParseError(startIndex - 1, |text| + 2, "Empty Brackets"))
      else match ReplaceOperatorRawSymbols(elements, startIndex, |text|)
        case Err(e) => Err(e)
        case Ok(el) => Ok(Widen(el))
  }

  /** Stretch an element one position to each side. */
  function Widen(el: Elem): (r: Elem)
    ensures HasSpan(el) ==> HasSpan(r) && r.index == el.index - 1 && r.length == el.length + 2
    ensures !HasSpan(el) ==> r == el
  {
    if HasSpan(el) then el.(index := el.index - 1, length := el.length + 2) else el
  }

  /**
   * Formula.fromString: a named call; its span runs from the name through the
   * closing bracket. The name is looked up before the arguments are parsed.
   */
  function FormulaFromString(funcName: string, funcIndex: int, content: string, contentIndex: int): Result<Elem>
    decreases |content|, 8
  {
    var length := contentIndex - funcIndex + |content| + 1;
    match LookupFunction(funcName)
    case None => Err(ParseError(funcIndex, |funcName|, "Unknown function"))
    case Some(func) =>
      match ParseArguments(content, contentIndex)
      case Err(e) => Err(e)
      case Ok(args) => Ok(NumOrNew(func, args, funcIndex, length, true))
  }

  /** parseArguments: the content of a call, split at its separators. */
  function ParseArguments(text: string, startIndex: int): Result<seq<Elem>>
    decreases |text|, 6
  {
    match ParseContent(text, startIndex, true, true)
    case Err(e) => Err(e)
    case Ok(elements) => ArgumentsFrom(elements, 0, startIndex, startIndex + |text|, [], [], None)
  }

  predicate IsSeparator(el: Elem)
  {
    el.RawSymbol? && el.text == ","
  }

  /**
   * The loop of parseArguments from element i on: args holds the finished
   * arguments, argElements the elements since the last separator, which
   * started at startIndex, and prevSep the separator just seen, if the
   * previous element was one.
   */
  function ArgumentsFrom(elements: seq<Elem>, i: nat, startIndex: int, contentEnd: int,
                         args: seq<Elem>, argElements: seq<Elem>, prevSep: Option<Elem>): Result<seq<Elem>>
    requires i <= |elements|
    requires prevSep.Some? ==> prevSep.value.RawSymbol?
    decreases |elements| - i
  {
    if i == |elements| then
      if prevSep.Some? then Err(ParseError(prevSep.value.index, prevSep.value.length, "Empty argument"))
      else if |argElements| != 0 then
        (match ReplaceOperatorRawSymbols(argElements, startIndex, contentEnd - startIndex)
         case Err(e) => Err(e)
         case Ok(a) => Ok(args + [a]))
      else Ok(args)
    else
      var el := elements[i];
      if IsSeparator(el) then
        if |argElements| == 0 then
          if prevSep.None? then Err(ParseError(el.index, el.length, "Empty argument"))
          else Err(ParseError(prevSep.value.index, CoverLength(prevSep.value, el), "Empty argument"))
        else
          match ReplaceOperatorRawSymbols(argElements, startIndex, el.index - startIndex)
          case Err(e) => Err(e)
          case Ok(a) => ArgumentsFrom(elements, i + 1, el.index + el.length, contentEnd, args + [a], [], Some(el))
      else
        ArgumentsFrom(elements, i + 1, startIndex, contentEnd, args, argElements + [el], None)
  }

  /** replaceRawNumbers: numbers lose their spans, throughout the tree. */
  function ReplaceRawNumbers(el: Elem): (r: Elem)
    ensures !r.RawNumber?
  {
    match el
    case Formula(f, args, index, length, allowNull) =>
      Formula(f, seq(|args|, k requires 0 <= k < |args| => ReplaceRawNumbers(args[k])), index, length, allowNull)
    case RawNumber(n, _, _) => Number(n)
    case _ => el
  }

  /** parseFormula: the tree of a whole formula (the text after the '='). */
  function ParseFormula(text: string): Result<Elem>
  {
    match ParseContent(text, 0, false, false)
    case Err(e) => Err(e)
    case Ok(elements) =>
      if |elements| == 0 then Err(ParseError(0, |text|, "Empty Formula"))
      else match ReplaceOperatorRawSymbols(elements, 0, |text|)
        case Err(e) => Err(e)
        case Ok(el) => Ok(ReplaceRawNumbers(el))
  }
}
