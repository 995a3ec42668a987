/**
 * The built-in functions of the formula language (modules/formula-tree.js).
 *
 * A value flowing through a formula is a number, null (an empty cell) or
 * undefined (anything that is not a number: text, an error, a missing
 * argument). Numbers are modelled as exact reals.
 */
module FormulaValues {

  datatype Val = Num(n: real) | Null | Undefined

  /** The functions a formula node can apply: the operators and the named functions. */
  datatype Func = NegateFn | AddFn | MinusFn | MultiplyFn | DivideFn | SumFn | AvgFn

  /**
   * Real division; a zero divisor gives 0 as a stand-in for the IEEE
   * infinity or NaN the source produces. Either way the result is a number.
   */
  function Quotient(a: real, b: real): real
  {
    if b == 0.0 then 0.0 else a / b
  }

  /** A missing argument of a JavaScript call is undefined. */
  function Arg(args: seq<Val>, k: nat): Val
  {
    if k < |args| then args[k] else Undefined
  }

  function Negate(arg: Val): Val
  {
    if arg.Num? then Num(-arg.n) else Undefined
  }

  function Add(arg1: Val, arg2: Val): Val
  {
    if arg1.Num? && arg2.Num? then Num(arg1.n + arg2.n) else Undefined
  }

  function Minus(arg1: Val, arg2: Val): Val
  {
    if arg1.Num? && arg2.Num? then Num(arg1.n - arg2.n) else Undefined
  }

  function Multiply(arg1: Val, arg2: Val): Val
  {
    if arg1.Num? && arg2.Num? then Num(arg1.n * arg2.n) else Undefined
  }

  function Divide(arg1: Val, arg2: Val): Val
  {
    if arg1.Num? && arg2.Num? then Num(Quotient(arg1.n, arg2.n)) else Undefined
  }

  /** Some argument is neither a number nor null. */
  predicate HasUndefined(args: seq<Val>)
  {
    exists k :: 0 <= k < |args| && args[k].Undefined?
  }

  /** The sum of the numeric arguments; null contributes nothing. */
  function Total(args: seq<Val>): real
  {
    if |args| == 0 then 0.0
    else Total(args[..|args| - 1]) + (if args[|args| - 1].Num? then args[|args| - 1].n else 0.0)
  }

  /** How many arguments are numbers. */
  function Count(args: seq<Val>): (r: nat)
    ensures r <= |args|
    ensures r == |args| <==> forall k :: 0 <= k < |args| ==> args[k].Num?
    ensures r == 0 <==> forall k :: 0 <= k < |args| ==> !args[k].Num?
  {
    if |args| == 0 then 0
    else Count(args[..|args| - 1]) + (if args[|args| - 1].Num? then 1 else 0)
  }

  /** What sum computes: undefined if some argument is not a number or null. */
  function SumOf(args: seq<Val>): Val
  {
    if HasUndefined(args) then Undefined else Num(Total(args))
  }

  /** What avg computes: like sum, and undefined when no argument is a number. */
  function AvgOf(args: seq<Val>): Val
  {
    if HasUndefined(args) || Count(args) == 0 then Undefined
    else Num(Total(args) / Count(args) as real)
  }

  /** Calling a formula node's function on its argument values. */
  function Apply(f: Func, args: seq<Val>): Val
  {
    match f
    case NegateFn => Negate(Arg(args, 0))
    case AddFn => Add(Arg(args, 0), Arg(args, 1))
    case MinusFn => Minus(Arg(args, 0), Arg(args, 1))
    case MultiplyFn => Multiply(Arg(args, 0), Arg(args, 1))
    case DivideFn => Divide(Arg(args, 0), Arg(args, 1))
    case SumFn => SumOf(args)
    case AvgFn => AvgOf(args)
  }

  /** sum: the accumulator loop, returning undefined at the first bad argument. */
  method Sum(args: seq<Val>) returns (r: Val)
    ensures r == SumOf(args)
  {
    var tot := 0.0;
    for i := 0 to |args|
      invariant !HasUndefined(args[..i])
      invariant tot == Total(args[..i])
    {
      var arg := args[i];
      assert args[..i + 1][..i] == args[..i];
      if arg.Num? {
        tot := tot + arg.n;
      } else if arg != Null {
        assert args[i].Undefined?;
        return Undefined;
      }
      assert args[..i + 1] == args[..i] + [arg];
      HasUndefinedConcat(args[..i], [arg]);
    }
    assert args[..|args|] == args;
    return Num(tot);
  }

  /** avg: the same loop also counting the numbers, then the division. */
  method Avg(args: seq<Val>) returns (r: Val)
    ensures r == AvgOf(args)
  {
    var count := 0;
    var tot := 0.0;
    for i := 0 to |args|
      invariant !HasUndefined(args[..i])
      invariant tot == Total(args[..i])
      invariant count == Count(args[..i])
    {
      var arg := args[i];
      assert args[..i + 1][..i] == args[..i];
      if arg.Num? {
        tot := tot + arg.n;
        count := count + 1;
      } else if arg != Null {
        assert args[i].Undefined?;
        return Undefined;
      }
      assert args[..i + 1] == args[..i] + [arg];
      HasUndefinedConcat(args[..i], [arg]);
    }
    assert args[..|args|] == args;
    if count == 0 {
      return Undefined;
    }
    return Num(tot / count as real);
  }

  /** The operators give a number exactly when every argument they use is a number. */
  lemma OperatorsNeedNumbers(f: Func, args: seq<Val>)
    requires f != SumFn && f != AvgFn
    ensures Apply(f, args).Num? <==>
      (Arg(args, 0).Num? && (f != NegateFn ==> Arg(args, 1).Num?))
  {
  }

  /** With no arguments, sum is 0 and avg is undefined. */
  lemma EmptyCalls()
    ensures SumOf([]) == Num(0.0)
    ensures AvgOf([]) == Undefined
  {
  }

  lemma {:induction false} TotalConcat(a: seq<Val>, b: seq<Val>)
    ensures Total(a + b) == Total(a) + Total(b)
    ensures Count(a + b) == Count(a) + Count(b)
    decreases |b|
  {
    if |b| == 0 {
      assert a + b == a;
    } else {
      var ab := a + b;
      assert ab[..|ab| - 1] == a + b[..|b| - 1];
      TotalConcat(a, b[..|b| - 1]);
    }
  }

  lemma HasUndefinedConcat(a: seq<Val>, b: seq<Val>)
    ensures HasUndefined(a + b) <==> HasUndefined(a) || HasUndefined(b)
  {
    if HasUndefined(a + b) {
      var k :| 0 <= k < |a + b| && (a + b)[k].Undefined?;
      if k < |a| {
        assert a[k] == (a + b)[k];
      } else {
        assert b[k - |a|] == (a + b)[k];
      }
    }
    if HasUndefined(a) {
      var k :| 0 <= k < |a| && a[k].Undefined?;
      assert (a + b)[k] == a[k];
    }
    if HasUndefined(b) {
      var k :| 0 <= k < |b| && b[k].Undefined?;
      assert (a + b)[|a| + k] == b[k];
    }
  }

  /** Null arguments are ignored: removing one changes neither sum nor avg. */
  lemma NullIgnored(a: seq<Val>, b: seq<Val>)
    ensures SumOf(a + [Null] + b) == SumOf(a + b)
    ensures AvgOf(a + [Null] + b) == AvgOf(a + b)
  {
    TotalConcat(a, [Null]);
    TotalConcat(a + [Null], b);
    TotalConcat(a, b);
    assert Total([Null]) == 0.0 && Count([Null]) == 0 by {
      assert [Null][..0] == [];
    }
    HasUndefinedConcat(a, [Null]);
    HasUndefinedConcat(a + [Null], b);
    HasUndefinedConcat(a, b);
    assert !HasUndefined([Null]);
  }

  /** Sum is additive over a split of its arguments when both halves are defined. */
  lemma SumSplit(a: seq<Val>, b: seq<Val>)
    requires SumOf(a).Num? && SumOf(b).Num?
    ensures SumOf(a + b) == Num(SumOf(a).n + SumOf(b).n)
  {
    TotalConcat(a, b);
    HasUndefinedConcat(a, b);
  }

  /** An undefined argument anywhere makes sum and avg undefined. */
  lemma UndefinedPoisons(a: seq<Val>, b: seq<Val>)
    ensures SumOf(a + [Undefined] + b) == Undefined
    ensures AvgOf(a + [Undefined] + b) == Undefined
  {
    assert (a + [Undefined] + b)[|a|] == Undefined;
  }
}
