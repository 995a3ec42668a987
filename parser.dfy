/**
 * The imperative parser of modules/formula-tree.js: the tokenising loop
 * over a TextMarker, the operator passes that rewrite an array of slots in
 * place, and the argument-splitting loop. Each method is proved to compute
 * what the corresponding function of FormulaTree specifies.
 */
module FormulaParser {
  import opened Wrappers
  import opened FormulaValues
  import opened FormulaText
  import opened FormulaTree

  /** The patterns TextMarker.startsWith is given. */
  datatype Pattern = Whitespace | NumberPattern | OperatorPattern | SeparatorPattern
                   | RefRangePattern | RefPattern | ClosingBracketPattern

  function MatchLength(pattern: Pattern, s: string): (r: nat)
    ensures r <= |s|
  {
    match pattern
    case Whitespace => WhitespaceMatch(s)
    case NumberPattern => NumberMatch(s)
    case OperatorPattern => OperatorMatch(s)
    case SeparatorPattern => SeparatorMatch(s)
    case RefRangePattern => RefRangeMatch(s)
    case RefPattern => RefMatch(s)
    case ClosingBracketPattern => ClosingBracketMatch(s)
  }

  /** The unparsed rest of the text and the formula position where it starts. */
  class TextMarker {
    var text: string
    var index: int

    constructor (text: string, startIndex: int)
      ensures this.text == text && this.index == startIndex
    {
      this.text := text;
      this.index := startIndex;
    }

    /** Drop num characters from the front (slice gives "" past the end). */
    method ShiftBy(num: nat)
      modifies this
      ensures text == if num <= |old(text)| then old(text)[num..] else []
      ensures index == old(index) + num
    {
      text := if num <= |text| then text[num..] else [];
      index := index + num;
    }

    /**
     * The text matched by pattern at the front, or null: the longest prefix
     * of the text in the pattern's language, null when no non-empty prefix is.
     */
    function StartsWith(pattern: Pattern): (r: Option<string>)
      reads this
      ensures r.Some? ==> IsToken(pattern, r.value) && r.value <= text
      ensures forall n :: (if r.Some? then |r.value| else 0) < n <= |text| ==> !IsToken(pattern, text[..n])
    {
      LongestMatch(pattern, text);
      Matched(pattern, text)
    }
  }

  /** regex.exec(text)[0] for a pattern anchored at the start, or null. */
  function Matched(pattern: Pattern, text: string): (r: Option<string>)
    ensures r.Some? <==> MatchLength(pattern, text) > 0
    ensures r.Some? ==> r.value == text[..MatchLength(pattern, text)]
  {
    var n := MatchLength(pattern, text);
    if n == 0 then None else Some(text[..n])
  }

  /** The texts a pattern matches whole: the language of each regular expression. */
  predicate IsToken(pattern: Pattern, m: string)
  {
    match pattern
    case Whitespace => |m| > 0 && forall k :: 0 <= k < |m| ==> IsWhitespace(m[k])
    case NumberPattern =>
      // digits, then optionally a point and more digits
      var d := Run(m, Digits);
      d > 0 && (d == |m| || (m[d] == '.' && IsDigits(m[d + 1..])))
    case OperatorPattern => |m| == 1 && IsOperatorChar(m[0])
    case SeparatorPattern => m == [',']
    case RefRangePattern => IsRangeText(m)
    case RefPattern => IsCellName(m)
    case ClosingBracketPattern => m == [')']
  }

  /**
   * Each pattern matches greedily: the match is the longest prefix of the
   * text in the pattern's language, and there is none exactly when no
   * non-empty prefix is in it.
   */
  lemma LongestMatch(pattern: Pattern, text: string)
    ensures MatchLength(pattern, text) > 0 ==> IsToken(pattern, text[..MatchLength(pattern, text)])
    ensures forall n :: MatchLength(pattern, text) < n <= |text| ==> !IsToken(pattern, text[..n])
  {
    match pattern
    case Whitespace => WhitespaceLongest(text);
    case NumberPattern => NumberLongest(text);
    case OperatorPattern =>
    case SeparatorPattern =>
    case RefRangePattern => RefRangeLongest(text);
    case RefPattern => RefLongest(text);
    case ClosingBracketPattern =>
  }

  lemma WhitespaceLongest(t: string)
    ensures WhitespaceMatch(t) > 0 ==> IsToken(Whitespace, t[..WhitespaceMatch(t)])
    ensures forall n :: WhitespaceMatch(t) < n <= |t| ==> !IsToken(Whitespace, t[..n])
  {
    var w := WhitespaceMatch(t);
    RunSpec(t, Spaces);
    forall n | w < n <= |t|
      ensures !IsToken(Whitespace, t[..n])
    {
      assert t[..n][w] == t[w];
    }
  }

  lemma NumberLongest(t: string)
    ensures NumberMatch(t) > 0 ==> IsToken(NumberPattern, t[..NumberMatch(t)])
    ensures forall n :: NumberMatch(t) < n <= |t| ==> !IsToken(NumberPattern, t[..n])
  {
    var d := Run(t, Digits);
    var r := NumberMatch(t);
    RunSpec(t, Digits);
    if d < |t| {
      RunSpec(t[d + 1..], Digits);
    }
    if r > d {
      var f := Run(t[d + 1..], Digits);
      RunPrefix(t, Digits, r);
      assert t[..r][d + 1..] == t[d + 1..][..f];
    } else if r > 0 {
      RunPrefix(t, Digits, r);
    }
    forall n | r < n <= |t|
      ensures !IsToken(NumberPattern, t[..n])
    {
      RunPrefix(t, Digits, n);
      if d > 0 && t[d] == '.' {
        var f := Run(t[d + 1..], Digits);
        assert t[..n][d + 1..] == t[d + 1..][..n - d - 1];
        if n - d - 1 > 0 {
          assert t[..n][d + 1..][f] == t[d + 1..][f];
        }
      }
    }
  }

  /** Every character the reference pattern takes is a letter or a digit. */
  lemma RefMatchChars(t: string)
    ensures forall k :: 0 <= k < RefMatch(t) ==> IsLetter(t[k]) || IsDigit(t[k])
  {
    var l := Run(t, Letters);
    RunSpec(t, Letters);
    if l > 0 {
      RunSpec(t[l..], Digits);
      forall k | l <= k < RefMatch(t)
        ensures IsDigit(t[k])
      {
        assert t[l..][k - l] == t[k];
      }
    }
  }

  /** Cutting the text after the reference's match leaves the match. */
  lemma RefMatchPrefix(t: string, n: nat)
    requires RefMatch(t) <= n <= |t|
    ensures RefMatch(t[..n]) == RefMatch(t)
  {
    var l := Run(t, Letters);
    RunPrefix(t, Letters, n);
    if l < n {
      assert t[..n][l..] == t[l..][..n - l];
      RunPrefix(t[l..], Digits, n - l);
    } else {
      assert t[..n][n..] == [];
    }
  }

  lemma RefLongest(t: string)
    ensures RefMatch(t) > 0 ==> IsCellName(t[..RefMatch(t)])
    ensures forall n :: RefMatch(t) < n <= |t| ==> !IsCellName(t[..n])
  {
    var l := Run(t, Letters);
    var r := RefMatch(t);
    if r > 0 {
      var dd := Run(t[l..], Digits);
      RunPrefix(t, Letters, r);
      assert t[..r][l..] == t[l..][..dd];
      RunPrefix(t[l..], Digits, dd);
    }
    forall n | r < n <= |t|
      ensures !IsCellName(t[..n])
    {
      RunPrefix(t, Letters, n);
      if 0 < l < n {
        assert t[..n][l..] == t[l..][..n - l];
        RunPrefix(t[l..], Digits, n - l);
      }
    }
  }

  lemma RefRangeLongest(t: string)
    ensures RefRangeMatch(t) > 0 ==> IsRangeText(t[..RefRangeMatch(t)])
    ensures forall n :: RefRangeMatch(t) < n <= |t| ==> !IsRangeText(t[..n])
  {
    if RefRangeMatch(t) > 0 {
      RefRangeMatched(t);
    }
    forall n | RefRangeMatch(t) < n <= |t|
      ensures !IsRangeText(t[..n])
    {
      RefRangeNoLonger(t, n);
    }
  }

  lemma RefRangeMatched(t: string)
    requires RefRangeMatch(t) > 0
    ensures IsRangeText(t[..RefRangeMatch(t)])
  {
    var r1 := RefMatch(t);
    var r := RefRangeMatch(t);
    var u := t[r1 + 1..];
    RefLongest(t);
    RefLongest(u);
    RefMatchPrefix(t, r);
    assert t[..r][..r1] == t[..r1];
    assert t[..r][r1 + 1..] == u[..RefMatch(u)];
  }

  lemma RefRangeNoLonger(t: string, n: nat)
    requires RefRangeMatch(t) < n <= |t|
    ensures !IsRangeText(t[..n])
  {
    var r1 := RefMatch(t);
    var m := t[..n];
    if r1 <= n {
      RefMatchPrefix(t, n);
      if 0 < r1 < n && t[r1] == ':' {
        var u := t[r1 + 1..];
        RefLongest(u);
        assert m[r1 + 1..] == u[..n - r1 - 1];
      }
    } else {
      RefMatchChars(t);
      var i := RefMatch(m);
      if 0 < i < n {
        assert m[i] == t[i];
      }
    }
  }

  /** findNext */
  method FindNext(elements: array<Option<Elem>>, start: int) returns (r: int)
    requires 0 <= start < elements.Length
    ensures r == NextFrom(elements[..], start + 1)
  {
    var i := start + 1;
    while i < elements.Length
      invariant start + 1 <= i <= elements.Length
      invariant NextFrom(elements[..], start + 1) == NextFrom(elements[..], i)
    {
      if elements[i] == None {
        i := i + 1;
        continue;
      }
      return i;
    }
    return -1;
  }

  /** findPrev */
  method FindPrev(elements: array<Option<Elem>>, start: int) returns (r: int)
    requires 0 <= start < elements.Length
    ensures r == PrevFrom(elements[..], start - 1)
  {
    var i := start - 1;
    while i >= 0
      invariant -1 <= i <= start - 1
      invariant PrevFrom(elements[..], start - 1) == PrevFrom(elements[..], i)
    {
      if elements[i] == None {
        i := i - 1;
        continue;
      }
      return i;
    }
    return -1;
  }

  /** A pass's outcome as a Result: the new slots, or the error it threw. */
  function PassResult(err: Option<ParseError>, s: Slots): Result<Slots>
  {
    if err.None? then Ok(s) else Err(err.value)
  }

  /** replaceUnaryRawSymbols, rewriting the slots in place. */
  method ReplaceUnaryRawSymbols(elements: array<Option<Elem>>, opSet: seq<string>) returns (err: Option<ParseError>)
    modifies elements
    ensures UnaryPass(old(elements[..]), opSet, 0) == PassResult(err, elements[..])
  {
    var len := elements.Length;
    for i := 0 to len
      invariant UnaryPass(old(elements[..]), opSet, 0) == UnaryPass(elements[..], opSet, i)
    {
      ghost var before := elements[..];
      var el := elements[i];
      if el.Some? && el.value.RawSymbol? && el.value.text in opSet {
        var prev := FindPrev(elements, i);
        if prev != -1 && IsOpArg(elements[prev].value) {
          continue;
        }
        var next := FindNext(elements, i);
        if next == -1 {
          return Some(OperatorError("Unary", el.value, "missing an argument"));
        }
        var nextEl := elements[next].value;
        if !IsOpArg(nextEl) {
          return Some(OperatorWrongArgError("Unary", el.value, "first", nextEl));
        }
        var func := UnaryFunction(el.value.text);
        if func.None? {
          return Some(OperatorError("Unary", el.value, "not handled"));
        }
        var length := CoverLength(el.value, nextEl);
        elements[i] := Some(NumOrNew(func.value, [nextEl], el.value.index, length, false));
        elements[next] := None;
        assert elements[..] == before[i := elements[i]][next := None];
      }
    }
    return None;
  }

  /** replaceBinaryRawSymbols, rewriting the slots in place. */
  method ReplaceBinaryRawSymbols(elements: array<Option<Elem>>, opSet: seq<string>) returns (err: Option<ParseError>)
    modifies elements
    ensures BinaryPass(old(elements[..]), opSet, 0) == PassResult(err, elements[..])
  {
    var len := elements.Length;
    for i := 0 to len
      invariant BinaryPass(old(elements[..]), opSet, 0) == BinaryPass(elements[..], opSet, i)
    {
      ghost var before := elements[..];
      var el := elements[i];
      if el.Some? && el.value.RawSymbol? && el.value.text in opSet {
        var prev := FindPrev(elements, i);
        var next := FindNext(elements, i);
        if prev == -1 {
          return Some(OperatorError("Binary", el.value, "missing a first argument"));
        }
        if next == -1 {
          return Some(OperatorError("Binary", el.value, "missing a second argument"));
        }
        var prevEl := elements[prev].value;
        var nextEl := elements[next].value;
        if !IsOpArg(prevEl) {
          return Some(OperatorWrongArgError("Binary", el.value, "first", prevEl));
        }
        if !IsOpArg(nextEl) {
          return Some(OperatorWrongArgError("Binary", el.value, "second", nextEl));
        }
        var func := BinaryFunction(el.value.text);
        if func.None? {
          return Some(OperatorError("Binary", el.value, "not handled"));
        }
        var length := CoverLength(prevEl, nextEl);
        elements[i] := Some(NumOrNew(func.value, [prevEl, nextEl], prevEl.index, length, false));
        elements[prev] := None;
        elements[next] := None;
        assert elements[..] == before[i := elements[i]][prev := None][next := None];
      }
    }
    return None;
  }

  /** replaceOperatorRawSymbols: the missing-operator scan, then the three passes. */
  method ReplaceOperatorRawSymbols(elements: seq<Elem>, startIndex: int, textLength: int) returns (r: Result<Elem>)
    ensures r == FormulaTree.ReplaceOperatorRawSymbols(elements, startIndex, textLength)
  {
    if |elements| > 0 {
      var prevEl := elements[0];
      for i := 1 to |elements|
        invariant prevEl == elements[i - 1]
        invariant MissingOperatorFrom(elements, 1, startIndex, textLength)
          == MissingOperatorFrom(elements, i, startIndex, textLength)
      {
        var el := elements[i];
        if !el.RawSymbol? && !prevEl.RawSymbol? {
          var length;
          var index;
          if HasSpan(prevEl) && HasSpan(el) {
            length := CoverLength(prevEl, el);
            index := prevEl.index;
          } else {
            length := textLength;
            index := startIndex;
          }
          return Err(ParseError(index, length, "Missing operator"));
        }
        prevEl := el;
      }
    }
    var slots := new Option<Elem>[|elements|](k requires 0 <= k < |elements| => Some(elements[k]));
    assert slots[..] == Wrap(elements);
    var err := ReplaceUnaryRawSymbols(slots, ["-"]);
    if err.Some? {
      return Err(err.value);
    }
    err := ReplaceBinaryRawSymbols(slots, ["/", "*"]);
    if err.Some? {
      return Err(err.value);
    }
    err := ReplaceBinaryRawSymbols(slots, ["+", "-"]);
    if err.Some? {
      return Err(err.value);
    }
    var noNull := Present(slots[..]);
    if |noNull| != 1 {
      if |noNull| != 0 {
        return Err(ParseError(startIndex, textLength, "Unhandled symbols"));
      }
      return Err(ParseError(startIndex, textLength, "No elements found"));
    }
    return Ok(noNull[0]);
  }

  /** The do-while that finds the bracket closing the one just before start. */
  method FindClosingBracket(text: string, start: nat) returns (end: Option<nat>)
    requires start <= |text|
    ensures end == ClosingBracketFrom(text, start, 1)
  {
    var pos := start;
    var count := 1;
    while true
      invariant start <= pos <= |text| && count >= 1
      invariant ClosingBracketFrom(text, start, 1) == ClosingBracketFrom(text, pos, count)
      decreases |text| - pos
    {
      if pos >= |text| {
        return None;
      }
      var ch := text[pos];
      if ch == ')' {
        count := count - 1;
      } else if ch == '(' {
        count := count + 1;
      }
      pos := pos + 1;
      if count == 0 {
        return Some(pos);
      }
    }
  }

  function PrependAll(elements: seq<Elem>, r: Result<seq<Elem>>): Result<seq<Elem>>
  {
    match r
    case Err(e) => Err(e)
    case Ok(rest) => Ok(elements + rest)
  }

  lemma PrependNothing(r: Result<seq<Elem>>)
    ensures PrependAll([], r) == r
  {
    if r.Ok? {
      assert [] + r.value == r.value;
    }
  }

  lemma PrependOne(elements: seq<Elem>, el: Elem, r: Result<seq<Elem>>)
    ensures PrependAll(elements, PrependTo(el, r)) == PrependAll(elements + [el], r)
  {
    if r.Ok? {
      assert elements + ([el] + r.value) == elements + [el] + r.value;
    }
  }

  /** parseContent: the tokenising loop over a TextMarker. */
  method ParseContent(text: string, startIndex: int, allowSep: bool, allowRange: bool) returns (r: Result<seq<Elem>>)
    ensures r == Content(text, startIndex, allowSep, allowRange)
    decreases |text|, 3
  {
    var elements: seq<Elem> := [];
    var marker := new TextMarker(text, startIndex);
    PrependNothing(Content(text, startIndex, allowSep, allowRange));
    while true
      invariant |marker.text| <= |text|
      invariant Content(text, startIndex, allowSep, allowRange)
        == PrependAll(elements, Content(marker.text, marker.index, allowSep, allowRange))
      decreases |marker.text|
    {
      SkipWhitespace(marker, allowSep, allowRange);
      var current, index := marker.text, marker.index;
      if |current| == 0 {
        ContentEnd(elements, current, index, allowSep, allowRange);
        return Ok(elements);
      }
      var scanned := NextElement(current, index, allowSep, allowRange);
      if scanned.Err? {
        return Err(scanned.error);
      }
      PrependOne(elements, scanned.value.el,
                 Content(current[scanned.value.consumed..], index + scanned.value.consumed, allowSep, allowRange));
      elements := elements + [scanned.value.el];
      marker.ShiftBy(scanned.value.consumed);
    }
  }

  /** The head of parseContent's loop: leading whitespace is skipped, which the parse does not see. */
  method SkipWhitespace(marker: TextMarker, ghost allowSep: bool, ghost allowRange: bool)
    modifies marker
    ensures |marker.text| <= |old(marker.text)| && WhitespaceMatch(marker.text) == 0
    ensures Content(marker.text, marker.index, allowSep, allowRange)
      == Content(old(marker.text), old(marker.index), allowSep, allowRange)
  {
    ContentSkip(marker.text, marker.index, allowSep, allowRange);
    var whitespace := marker.StartsWith(Whitespace);
    if whitespace.Some? {
      marker.ShiftBy(|whitespace.value|);
    }
  }

  /**
   * The body of parseContent's loop at a text with no leading whitespace:
   * the element scanned, after which parsing goes on, or the error that ends
   * the loop.
   */
  method NextElement(current: string, index: int, allowSep: bool, allowRange: bool) returns (r: Result<Scanned>)
    requires |current| > 0 && WhitespaceMatch(current) == 0
    ensures r.Ok? ==> 1 <= r.value.consumed <= |current|
    ensures r.Err? ==> Content(current, index, allowSep, allowRange) == Err(r.error)
    ensures r.Ok? ==>
      (Content(current, index, allowSep, allowRange)
       == PrependTo(r.value.el, Content(current[r.value.consumed..], index + r.value.consumed, allowSep, allowRange)))
    decreases |current|, 2
  {
    r := ScanElement(current, index, allowSep, allowRange);
    ContentUnfold(current, index, allowSep, allowRange);
  }

  /** parseContent, one iteration unrolled at a text with no leading whitespace. */
  lemma ContentUnfold(current: string, index: int, allowSep: bool, allowRange: bool)
    requires |current| > 0 && WhitespaceMatch(current) == 0
    ensures Content(current, index, allowSep, allowRange)
      == match Scan(current, index, allowSep, allowRange)
         case Err(e) => Err(e)
         case Ok(sc) => PrependTo(sc.el, Content(current[sc.consumed..], index + sc.consumed, allowSep, allowRange))
  {
    ContentElements(current, index, allowSep, allowRange);
    ElementsUnfold(current, index, allowSep, allowRange);
  }

  /** At a text with no leading whitespace, parseContent goes straight to the elements. */
  lemma ContentElements(current: string, index: int, allowSep: bool, allowRange: bool)
    requires |current| > 0 && WhitespaceMatch(current) == 0
    ensures Content(current, index, allowSep, allowRange) == Elements(current, index, allowSep, allowRange)
  {
    assert current[0..] == current;
  }

  /** The elements of a text: the first one scanned, then the content after it. */
  lemma ElementsUnfold(current: string, index: int, allowSep: bool, allowRange: bool)
    requires |current| > 0
    ensures Elements(current, index, allowSep, allowRange)
      == match Scan(current, index, allowSep, allowRange)
         case Err(e) => Err(e)
         case Ok(sc) => PrependTo(sc.el, Content(current[sc.consumed..], index + sc.consumed, allowSep, allowRange))
  {
  }

  /*
   * Content and Scan name the specification functions for the lemmas of the
   * loop below; going through a non-recursive function makes the verifier
   * unfold the specification only one level deep.
   */
  ghost function Content(text: string, index: int, allowSep: bool, allowRange: bool): Result<seq<Elem>>
  {
    FormulaTree.ParseContent(text, index, allowSep, allowRange)
  }

  ghost function Elements(text: string, index: int, allowSep: bool, allowRange: bool): Result<seq<Elem>>
    requires |text| > 0
  {
    FormulaTree.ParseElements(text, index, allowSep, allowRange)
  }

  ghost function Scan(text: string, index: int, allowSep: bool, allowRange: bool): Result<Scanned>
    requires |text| > 0
  {
    FormulaTree.ScanElement(text, index, allowSep, allowRange)
  }

  /** Skipping the leading whitespace changes nothing, and leaves none. */
  lemma ContentSkip(rest: string, restIndex: int, allowSep: bool, allowRange: bool)
    ensures var w := WhitespaceMatch(rest);
      WhitespaceMatch(rest[w..]) == 0
      && Content(rest, restIndex, allowSep, allowRange) == Content(rest[w..], restIndex + w, allowSep, allowRange)
  {
    var w := WhitespaceMatch(rest);
    RunSpec(rest, Spaces);
    if w < |rest| {
      assert rest[w..][0] == rest[w];
    }
    assert rest[w..][0..] == rest[w..];
  }

  /** The loop of parseContent stops when no text is left. */
  lemma ContentEnd(elements: seq<Elem>, current: string, index: int, allowSep: bool, allowRange: bool)
    requires |current| == 0
    ensures PrependAll(elements, Content(current, index, allowSep, allowRange)) == Ok(elements)
  {
    assert elements + [] == elements;
  }

  /** The body of parseContent's loop: one element at the front of text. */
  method ScanElement(text: string, index: int, allowSep: bool, allowRange: bool) returns (r: Result<Scanned>)
    requires |text| > 0
    ensures r == Scan(text, index, allowSep, allowRange)
    decreases |text|, 1
  {
    var funcMatch := FunctionSingletonMatch(text);
    if funcMatch.None? {
      r := ScanToken(text, index, allowSep, allowRange);
      return;
    }
    var start := funcMatch.value.length;
    var end := FindClosingBracket(text, start);
    if end.None? {
      return Err(ParseError(index, start, "Missing closing bracket"));
    }
    r := ScanBracket(text, index, funcMatch.value, end.value);
  }

  /** A call or bracketed sub-expression whose brackets have been matched. */
  method ScanBracket(text: string, index: int, funcMatch: FunctionMatch, end: nat) returns (r: Result<Scanned>)
    requires funcMatch.nameLength < funcMatch.length < end <= |text|
    ensures r == FormulaTree.ScanBracket(text, index, funcMatch, end)
    decreases |text|, 0
  {
    var funcName := text[..funcMatch.nameLength];
    var start := funcMatch.length;
    var content := text[start..end - 1];
    var el;
    if funcMatch.nameLength == 0 {
      el := ParseSingleton(content, index + start);
    } else {
      el := FormulaFromString(funcName, index, content, index + start);
    }
    if el.Err? {
      return Err(el.error);
    }
    return Ok(Scanned(el.value, end));
  }

  /** A number, an operator or a separator, else a reference. */
  method ScanToken(text: string, index: int, allowSep: bool, allowRange: bool) returns (r: Result<Scanned>)
    requires |text| > 0
    ensures r == FormulaTree.ScanToken(text, index, allowSep, allowRange)
  {
    var m := Matched(NumberPattern, text);
    if m.Some? {
      return Ok(Scanned(RawNumber(DecimalValue(m.value), index, |m.value|), |m.value|));
    }
    m := Matched(OperatorPattern, text);
    if m.Some? {
      return Ok(Scanned(MakeRawSymbol(m.value, index), |m.value|));
    }
    m := Matched(SeparatorPattern, text);
    if m.Some? {
      if !allowSep {
        return Err(ParseError(index, |m.value|, "Separators not allowed"));
      }
      return Ok(Scanned(MakeRawSymbol(m.value, index), |m.value|));
    }
    r := ScanReference(text, index, allowRange);
  }

  /** The tail of ScanToken: a cell-range or a reference, or an error. */
  method ScanReference(text: string, index: int, allowRange: bool) returns (r: Result<Scanned>)
    requires |text| > 0
    requires NumberMatch(text) == 0 && OperatorMatch(text) == 0 && SeparatorMatch(text) == 0
    ensures r == FormulaTree.ScanToken(text, index, false, allowRange)
    ensures r == FormulaTree.ScanToken(text, index, true, allowRange)
  {
    var m := Matched(RefRangePattern, text);
    if m.Some? {
      if !allowRange {
        return Err(ParseError(index, |m.value|, "Cell-ranges not allowed"));
      }
      var range := ReferenceRangeFromString(m.value, index);
      if range.Err? {
        return Err(range.error);
      }
      return Ok(Scanned(range.value, |m.value|));
    }
    m := Matched(RefPattern, text);
    if m.Some? {
      var ref := ReferenceFromString(m.value, index);
      if ref.Err? {
        return Err(ref.error);
      }
      return Ok(Scanned(ref.value, |m.value|));
    }
    m := Matched(ClosingBracketPattern, text);
    if m.Some? {
      return Err(ParseError(index, |m.value|, "Unmatched closing bracket"));
    }
    return Err(ParseError(index, |text|, "Unrecognised text"));
  }

  /** parseSingleton */
  method ParseSingleton(text: string, startIndex: int) returns (r: Result<Elem>)
    ensures r == FormulaTree.ParseSingleton(text, startIndex)
    decreases |text|, 4
  {
    var length := |text|;
    var elements := ParseContent(text, startIndex, false, false);
    if elements.Err? {
      return Err(elements.error);
    }
    if |elements.value| == 0 {
      return Err(ParseError(startIndex - 1, length + 2, "Empty Brackets"));
    }
    var el := ReplaceOperatorRawSymbols(elements.value, startIndex, length);
    if el.Err? {
      return el;
    }
    return Ok(Widen(el.value));
  }

  /** Formula.fromString */
  method FormulaFromString(funcName: string, funcIndex: int, content: string, contentIndex: int) returns (r: Result<Elem>)
    ensures r == FormulaTree.FormulaFromString(funcName, funcIndex, content, contentIndex)
    decreases |content|, 5
  {
    var length := contentIndex - funcIndex + |content| + 1;
    var func := LookupFunction(funcName);
    if func.None? {
      return Err(ParseError(funcIndex, |funcName|, "Unknown function"));
    }
    var args := ParseArguments(content, contentIndex);
    if args.Err? {
      return Err(args.error);
    }
    return Ok(NumOrNew(func.value, args.value, funcIndex, length, true));
  }

  /** parseArguments: split the elements of a call's content at its separators. */
  method ParseArguments(text: string, startIndex: int) returns (r: Result<seq<Elem>>)
    ensures r == FormulaTree.ParseArguments(text, startIndex)
    decreases |text|, 4
  {
    var contentEnd := startIndex + |text|;
    var parsed := ParseContent(text, startIndex, true, true);
    if parsed.Err? {
      return Err(parsed.error);
    }
    var elements := parsed.value;
    var args: seq<Elem> := [];
    var argElements: seq<Elem> := [];
    var prevSep: Option<Elem> := None;
    var argStart := startIndex;
    for i := 0 to |elements|
      invariant prevSep.Some? ==> prevSep.value.RawSymbol?
      invariant FormulaTree.ParseArguments(text, startIndex)
        == ArgumentsFrom(elements, i, argStart, contentEnd, args, argElements, prevSep)
    {
      var el := elements[i];
      if el.RawSymbol? && el.text == "," {
        if |argElements| == 0 {
          if prevSep.None? {
            return Err(ParseError(el.index, el.length, "Empty argument"));
          } else {
            var length := CoverLength(prevSep.value, el);
            return Err(ParseError(prevSep.value.index, length, "Empty argument"));
          }
        }
        prevSep := Some(el);
        var length := el.index - argStart;
        var arg := ReplaceOperatorRawSymbols(argElements, argStart, length);
        if arg.Err? {
          return Err(arg.error);
        }
        args := args + [arg.value];
        argElements := [];
        argStart := el.index + el.length;
      } else {
        argElements := argElements + [el];
        prevSep := None;
      }
    }
    if prevSep.Some? {
      return Err(ParseError(prevSep.value.index, prevSep.value.length, "Empty argument"));
    }
    if |argElements| != 0 {
      var length := contentEnd - argStart;
      var arg := ReplaceOperatorRawSymbols(argElements, argStart, length);
      if arg.Err? {
        return Err(arg.error);
      }
      args := args + [arg.value];
    }
    return Ok(args);
  }

  /** parseFormula */
  method ParseFormula(text: string) returns (r: Result<Elem>)
    ensures r == FormulaTree.ParseFormula(text)
  {
    var length := |text|;
    var elements := ParseContent(text, 0, false, false);
    if elements.Err? {
      return Err(elements.error);
    }
    if |elements.value| == 0 {
      return Err(ParseError(0, length, "Empty Formula"));
    }
    var element := ReplaceOperatorRawSymbols(elements.value, 0, length);
    if element.Err? {
      return element;
    }
    return Ok(ReplaceRawNumbers(element.value));
  }
}
