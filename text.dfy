/**
 * Character classes and the regular expressions of the formula tokeniser
 * (modules/formula-tree.js, top-level patterns) and of the cell-entry
 * classifier (modules/cell-graph.js), written as explicit scanners. Each
 * scanner returns the length of the match at the start of the text, 0 for no
 * match (every pattern here matches at least one character when it matches).
 */
module FormulaText {
  import opened Wrappers

  /** JavaScript's \s, which is also the set String.prototype.trim removes. */
  predicate IsWhitespace(c: char)
  {
    c == ' ' || c == '\t' || c == '\n' || c == '\r' || c == '\U{000B}' || c == '\U{000C}'
    || c == '\U{00A0}' || c == '\U{1680}' || ('\U{2000}' <= c <= '\U{200A}')
    || c == '\U{2028}' || c == '\U{2029}' || c == '\U{202F}' || c == '\U{205F}'
    || c == '\U{3000}' || c == '\U{FEFF}'
  }

  predicate IsLetter(c: char)
  {
    ('a' <= c <= 'z') || ('A' <= c <= 'Z')
  }

  predicate IsDigit(c: char)
  {
    '0' <= c <= '9'
  }

  /** The characters of a function name after the first: [a-zA-Z0-9_]. */
  predicate IsNameChar(c: char)
  {
    IsLetter(c) || IsDigit(c) || c == '_'
  }

  /** The character classes the patterns repeat. */
  datatype CharClass = Spaces | Letters | Digits | NameChars

  predicate InClass(c: char, cls: CharClass)
  {
    match cls
    case Spaces => IsWhitespace(c)
    case Letters => IsLetter(c)
    case Digits => IsDigit(c)
    case NameChars => IsNameChar(c)
  }

  /** The length of the longest prefix of s whose characters are all of class cls. */
  function Run(s: seq<char>, cls: CharClass): (r: nat)
    ensures r <= |s|
  {
    if |s| == 0 || !InClass(s[0], cls) then 0 else 1 + Run(s[1..], cls)
  }

  /** Run stops at the first character outside the class, and not before. */
  lemma {:induction false} RunSpec(s: seq<char>, cls: CharClass)
    ensures forall k :: 0 <= k < Run(s, cls) ==> InClass(s[k], cls)
    ensures Run(s, cls) < |s| ==> !InClass(s[Run(s, cls)], cls)
  {
    if |s| > 0 && InClass(s[0], cls) {
      RunSpec(s[1..], cls);
      forall k | 0 < k < Run(s, cls)
        ensures InClass(s[k], cls)
      {
        assert s[k] == s[1..][k - 1];
      }
    }
  }

  /** The run of a prefix is the run of the whole text, cut at the prefix's end. */
  lemma {:induction false} RunPrefix(s: seq<char>, cls: CharClass, n: nat)
    requires n <= |s|
    ensures Run(s[..n], cls) == if Run(s, cls) <= n then Run(s, cls) else n
  {
    if n > 0 && InClass(s[0], cls) {
      RunPrefix(s[1..], cls, n - 1);
      assert s[..n][1..] == s[1..][..n - 1];
    }
  }

  /** ^\s+ */
  function WhitespaceMatch(s: seq<char>): nat
  {
    Run(s, Spaces)
  }

  /** ^[0-9]+(\.[0-9]+)? */
  function NumberMatch(s: seq<char>): (r: nat)
    ensures r <= |s|
  {
    var d := Run(s, Digits);
    if d == 0 then 0
    else if d < |s| && s[d] == '.' && Run(s[d + 1..], Digits) > 0 then d + 1 + Run(s[d + 1..], Digits)
    else d
  }

  predicate IsOperatorChar(c: char)
  {
    c == '-' || c == '+' || c == '*' || c == '/'
  }

  /** ^[-+*\/] */
  function OperatorMatch(s: seq<char>): nat
  {
    if |s| > 0 && IsOperatorChar(s[0]) then 1 else 0
  }

  /** ^, */
  function SeparatorMatch(s: seq<char>): nat
  {
    if |s| > 0 && s[0] == ',' then 1 else 0
  }

  /** ^\) */
  function ClosingBracketMatch(s: seq<char>): nat
  {
    if |s| > 0 && s[0] == ')' then 1 else 0
  }

  /** ^[a-zA-Z]+[0-9]+ */
  function RefMatch(s: seq<char>): (r: nat)
    ensures r <= |s|
  {
    var l := Run(s, Letters);
    if l == 0 || Run(s[l..], Digits) == 0 then 0 else l + Run(s[l..], Digits)
  }

  /** ^[a-zA-Z]+[0-9]+:[a-zA-Z]+[0-9]+ */
  function RefRangeMatch(s: seq<char>): (r: nat)
    ensures r <= |s|
  {
    var r1 := RefMatch(s);
    if r1 == 0 || r1 >= |s| || s[r1] != ':' || RefMatch(s[r1 + 1..]) == 0 then 0
    else r1 + 1 + RefMatch(s[r1 + 1..])
  }

  /**
   * A match of ^([a-zA-Z][a-zA-Z0-9_]*)?\s*\( : the length of the function
   * name (0 when the optional group did not take part) and of the whole match,
   * which ends just after the opening bracket.
   */
  datatype FunctionMatch = FunctionMatch(nameLength: nat, length: nat)

  function FunctionSingletonMatch(s: seq<char>): (r: Option<FunctionMatch>)
    ensures r.Some? ==> r.value.nameLength < r.value.length <= |s| && s[r.value.length - 1] == '('
  {
    if |s| > 0 && IsLetter(s[0]) then
      var n := 1 + Run(s[1..], NameChars);
      var w := Run(s[n..], Spaces);
      if n + w < |s| && s[n + w] == '(' then Some(FunctionMatch(n, n + w + 1)) else None
    else
      var w := Run(s, Spaces);
      if w < |s| && s[w] == '(' then Some(FunctionMatch(0, w + 1)) else None
  }

  function Pow10(k: nat): (r: nat)
    ensures r >= 1
  {
    if k == 0 then 1 else 10 * Pow10(k - 1)
  }

  /** The number written by a string of decimal digits. */
  function DigitsValue(s: seq<char>): nat
  {
    if |s| == 0 then 0
    else DigitsValue(s[..|s| - 1]) * 10 + (if IsDigit(s[|s| - 1]) then s[|s| - 1] as int - '0' as int else 0)
  }

  /**
   * Number(text) for a match of ^[0-9]+(\.[0-9]+)?, taken exactly: the
   * integer digits plus the fraction digits over the matching power of ten.
   */
  function DecimalValue(s: seq<char>): real
  {
    var d := Run(s, Digits);
    if d < |s| then DigitsValue(s[..d]) as real + DigitsValue(s[d + 1..]) as real / Pow10(|s| - d - 1) as real
    else DigitsValue(s) as real
  }

  function LowerChar(c: char): (r: char)
    ensures IsLetter(c) ==> 'a' <= r <= 'z'
    ensures !IsLetter(c) ==> r == c
  {
    if 'A' <= c <= 'Z' then (c as int - 'A' as int + 'a' as int) as char else c
  }

  /** toLowerCase, on the ASCII letters the patterns admit. */
  function Lower(s: seq<char>): (r: seq<char>)
    ensures |r| == |s|
  {
    if |s| == 0 then [] else [LowerChar(s[0])] + Lower(s[1..])
  }

  lemma {:induction false} LowerSpec(s: seq<char>)
    ensures forall k :: 0 <= k < |s| ==> Lower(s)[k] == LowerChar(s[k])
  {
    if |s| > 0 {
      LowerSpec(s[1..]);
      forall k | 0 < k < |s|
        ensures Lower(s)[k] == LowerChar(s[k])
      {
        assert s[k] == s[1..][k - 1];
      }
    }
  }

  lemma {:induction false} LowerAppend(a: seq<char>, b: seq<char>)
    ensures Lower(a + b) == Lower(a) + Lower(b)
  {
    if |a| > 0 {
      LowerAppend(a[1..], b);
      assert (a + b)[1..] == a[1..] + b;
    } else {
      assert a + b == b;
    }
  }

  /** Lowercasing leaves a string without letters unchanged. */
  lemma LowerNoLetters(s: seq<char>)
    requires forall k :: 0 <= k < |s| ==> !IsLetter(s[k])
    ensures Lower(s) == s
  {
    LowerSpec(s);
  }

  /** String.prototype.trimEnd. */
  function TrimEnd(s: seq<char>): (r: seq<char>)
    ensures |r| <= |s| && r == s[..|r|]
    ensures |r| > 0 ==> !IsWhitespace(r[|r| - 1])
    ensures forall k :: |r| <= k < |s| ==> IsWhitespace(s[k])
  {
    if |s| == 0 || !IsWhitespace(s[|s| - 1]) then s else TrimEnd(s[..|s| - 1])
  }

  /** String.prototype.trim. */
  function Trim(s: seq<char>): seq<char>
  {
    TrimEnd(s[WhitespaceMatch(s)..])
  }
}
