/**
 * Column letters (getColumnLetters in modules/spreadsheet.js).
 *
 * Columns are named in bijective base 26 over 'a'..'z': a, b, ..., z, aa,
 * ab, ..., az, ba, ..., zz, aaa, ... The source produces the first n names
 * by repeatedly incrementing an array of character codes with a carry.
 */
module ColumnLetters {

  predicate IsLetter(c: char)
  {
    'a' <= c <= 'z'
  }

  predicate Letters(s: seq<char>)
  {
    forall k :: 0 <= k < |s| ==> IsLetter(s[k])
  }

  /** k copies of c. */
  function Repeat(c: char, k: nat): (r: seq<char>)
    ensures |r| == k
    ensures forall j :: 0 <= j < k ==> r[j] == c
  {
    if k == 0 then [] else Repeat(c, k - 1) + [c]
  }

  /** The letter after c, for c in 'a'..'y': the base-26 digit worth one more. */
  function NextLetter(c: char): (r: char)
    requires 'a' <= c < 'z'
    ensures IsLetter(r) && Value([r]) == Value([c]) + 1
  {
    (c as int + 1) as char
  }

  /**
   * The successor of a column name: a trailing 'z' rolls over to 'a' and
   * carries into the letter before it, and a name that is all 'z' gains a
   * leading 'a'.
   */
  function Succ(s: seq<char>): (r: seq<char>)
    requires Letters(s)
    ensures Letters(r) && |r| > 0
    decreases |s|
  {
    if |s| == 0 then ['a']
    else if s[|s| - 1] == 'z' then Succ(s[..|s| - 1]) + ['a']
    else s[..|s| - 1] + [NextLetter(s[|s| - 1])]
  }

  /** The number a name stands for in bijective base 26 ("a" is 1, "z" 26, "aa" 27). */
  function Value(s: seq<char>): nat
    requires Letters(s)
    decreases |s|
  {
    if |s| == 0 then 0
    else Value(s[..|s| - 1]) * 26 + (s[|s| - 1] as int - 'a' as int + 1)
  }

  /** The name of column number n (counted from 1); the empty name for 0. */
  function ColumnName(n: nat): (r: seq<char>)
    ensures Letters(r)
    ensures |r| == 0 <==> n == 0
  {
    if n == 0 then []
    else ColumnName((n - 1) / 26) + [((n - 1) % 26 + 'a' as int) as char]
  }

  /** The successor of a name stands for the next number. */
  lemma {:induction false} SuccValue(s: seq<char>)
    requires Letters(s)
    ensures Value(Succ(s)) == Value(s) + 1
    decreases |s|
  {
    if |s| == 0 {
    } else {
      var p := s[..|s| - 1];
      if s[|s| - 1] == 'z' {
        SuccValue(p);
        var r := Succ(p) + ['a'];
        assert r[..|r| - 1] == Succ(p);
      } else {
        var r := p + [NextLetter(s[|s| - 1])];
        assert r[..|r| - 1] == p;
      }
    }
  }

  /** ColumnName inverts Value: every letter string is the name of its own value. */
  lemma {:induction false} NameOfValue(s: seq<char>)
    requires Letters(s)
    ensures ColumnName(Value(s)) == s
    decreases |s|
  {
    if |s| > 0 {
      var p := s[..|s| - 1];
      var d := s[|s| - 1] as int - 'a' as int;
      NameOfValue(p);
      assert Value(s) - 1 == Value(p) * 26 + d;
      assert (Value(s) - 1) / 26 == Value(p);
      assert (Value(s) - 1) % 26 == d;
      assert s == p + [s[|s| - 1]];
    }
  }

  /** Value inverts ColumnName: the name of n stands for n. */
  lemma {:induction false} ValueOfName(n: nat)
    ensures Value(ColumnName(n)) == n
  {
    if n > 0 {
      var r := ColumnName(n);
      ValueOfName((n - 1) / 26);
      assert r[..|r| - 1] == ColumnName((n - 1) / 26);
    }
  }

  /** Distinct numbers have distinct names. */
  lemma ColumnNameInjective(n: nat, m: nat)
    requires n != m
    ensures ColumnName(n) != ColumnName(m)
  {
    ValueOfName(n);
    ValueOfName(m);
  }

  /** Incrementing the name of n gives the name of n + 1. */
  lemma SuccName(n: nat)
    ensures Succ(ColumnName(n)) == ColumnName(n + 1)
  {
    ValueOfName(n);
    SuccValue(ColumnName(n));
    NameOfValue(Succ(ColumnName(n)));
  }

  /** The first 26 names are the single letters; the 27th is "aa". */
  lemma FirstNames()
    ensures ColumnName(1) == "a" && ColumnName(26) == "z" && ColumnName(27) == "aa"
  {
  }

  /**
   * The position of the last letter that is not 'z' (-1 when there is none):
   * the letter a carry stops at.
   */
  function LastNonZ(s: seq<char>): (r: int)
    ensures -1 <= r < |s|
    ensures r >= 0 ==> s[r] != 'z'
    ensures forall k :: r < k < |s| ==> s[k] == 'z'
    decreases |s|
  {
    if |s| == 0 then -1
    else if s[|s| - 1] != 'z' then |s| - 1
    else LastNonZ(s[..|s| - 1])
  }

  /**
   * The successor, written as the carry computes it: every 'z' after the
   * last other letter becomes 'a', and that letter is incremented, or an 'a'
   * is put in front when there is none.
   */
  lemma {:induction false} SuccCarry(s: seq<char>)
    requires Letters(s)
    ensures LastNonZ(s) < 0 ==> Succ(s) == ['a'] + Repeat('a', |s|)
    ensures LastNonZ(s) >= 0 ==>
      (Succ(s) == s[..LastNonZ(s)] + [NextLetter(s[LastNonZ(s)])] + Repeat('a', |s| - 1 - LastNonZ(s)))
    decreases |s|
  {
    if |s| > 0 && s[|s| - 1] == 'z' {
      var p := s[..|s| - 1];
      var i := LastNonZ(p);
      SuccCarry(p);
      if i >= 0 {
        assert p[..i] == s[..i] && p[i] == s[i];
      }
    }
  }

  /**
   * The body of getColumnLetters' loop: the carry loop turns trailing 'z's
   * into 'a's, then either the first non-'z' letter from the right is
   * incremented or, when every letter was 'z', an 'a' is put in front.
   */
  method Increment(code: seq<char>) returns (colCode: seq<char>)
    requires Letters(code)
    ensures colCode == Succ(code)
  {
    var i;
    colCode, i := Carry(code);
    SuccCarry(code);
    if i < 0 {
      colCode := ['a'] + colCode;
    } else {
      BumpAfterCarry(code, i, colCode);
      colCode := colCode[i := NextLetter(colCode[i])];
    }
  }

  /**
   * The carry loop: from the right, every 'z' becomes 'a'; it stops at the
   * last letter that is not 'z', or at -1.
   */
  method Carry(code: seq<char>) returns (colCode: seq<char>, i: int)
    requires Letters(code)
    ensures i == LastNonZ(code)
    ensures colCode == code[..i + 1] + Repeat('a', |code| - 1 - i)
  {
    colCode := code;
    i := |colCode| - 1;
    assert code[..i + 1] == code;
    while i >= 0 && colCode[i] == 'z'
      invariant -1 <= i < |code| && |colCode| == |code|
      invariant colCode == code[..i + 1] + Repeat('a', |code| - 1 - i)
      invariant LastNonZ(code) == LastNonZ(code[..i + 1])
    {
      assert code[..i + 1][..i] == code[..i];
      colCode := colCode[i := 'a'];
      i := i - 1;
    }
  }

  /** Incrementing the letter the carry stopped at. */
  lemma BumpAfterCarry(code: seq<char>, i: int, colCode: seq<char>)
    requires Letters(code) && 0 <= i < |code| && code[i] != 'z'
    requires colCode == code[..i + 1] + Repeat('a', |code| - 1 - i)
    ensures colCode[i] == code[i]
    ensures colCode[i := NextLetter(code[i])] == code[..i] + [NextLetter(code[i])] + Repeat('a', |code| - 1 - i)
  {
    assert code[..i + 1] == code[..i] + [code[i]];
  }

  /** In a list of the first names in order, each is the successor of the one before, and none repeats. */
  lemma NamesInOrder(names: seq<seq<char>>)
    requires forall c :: 0 <= c < |names| ==> names[c] == ColumnName(c + 1)
    ensures forall c :: 0 <= c < |names| ==> Letters(names[c])
    ensures forall c :: 0 < c < |names| ==> names[c] == Succ(names[c - 1])
    ensures forall c, d :: 0 <= c < d < |names| ==> names[c] != names[d]
  {
    forall c | 0 < c < |names|
      ensures names[c] == Succ(names[c - 1])
    {
      SuccName(c);
    }
    forall c, d | 0 <= c < d < |names|
      ensures names[c] != names[d]
    {
      ColumnNameInjective(c + 1, d + 1);
    }
  }

  /**
   * getColumnLetters: the names of the first numColumns columns, the c-th
   * being the name of column c + 1, so the first is "a" and each is the
   * successor of the one before; all are distinct letter strings.
   */
  method GetColumnLetters(numColumns: nat) returns (colLetters: array<seq<char>>)
    ensures fresh(colLetters) && colLetters.Length == numColumns
    ensures forall c :: 0 <= c < numColumns ==> colLetters[c] == ColumnName(c + 1)
    ensures numColumns > 0 ==> colLetters[0] == "a"
    ensures forall c :: 0 <= c < numColumns ==> Letters(colLetters[c])
    ensures forall c :: 0 < c < numColumns ==> colLetters[c] == Succ(colLetters[c - 1])
    ensures forall c, d :: 0 <= c < d < numColumns ==> colLetters[c] != colLetters[d]
  {
    colLetters := new seq<char>[numColumns];
    var colCode: seq<char> := [];
    for c := 0 to numColumns
      invariant colCode == ColumnName(c)
      invariant forall k :: 0 <= k < c ==> colLetters[k] == ColumnName(k + 1)
    {
      colCode := Increment(colCode);
      SuccName(c);
      colLetters[c] := colCode;
    }
    FirstNames();
    NamesInOrder(colLetters[..]);
  }
}
