/**
 * The cache flood of CellNode.updateCache (modules/cell-graph.js) as a log
 * of steps. Each step is one call of updateCache: it recomputes one node's
 * cache by the cache rule against the caches as they are at that moment. A
 * step that changes a cache reports it when the node is dynamic and, while
 * depth remains, is followed by a step for each of the node's dependants.
 * The order in which a Set of dependants is visited is left open.
 */
module CacheFlood {
  import opened FormulaValues
  import opened CellValues
  import opened CellArena

  /** One call of updateCache: the node, its cache before and after, and the depth left below it. */
  datatype Step = Step(node: nat, before: Val, after: Val, fuel: nat)

  /** `this.cache !== prevCache` */
  predicate Changed(s: Step)
  {
    s.after != s.before
  }

  /** The arena after node k takes cache c. */
  function SetCache(nodes: seq<Node>, k: nat, c: Val): seq<Node>
    requires k < |nodes|
  {
    nodes[k := nodes[k].(cache := c)]
  }

  /**
   * The log, replayed from nodes, ends in final: each step's node is in the
   * arena, its before is the node's cache at that moment and its after is
   * what the cache rule gives at that moment, which becomes the node's cache.
   */
  ghost predicate Replays(nodes: seq<Node>, log: seq<Step>, final: seq<Node>)
    decreases |log|
  {
    if log == [] then final == nodes
    else
      var s := log[0];
      && s.node < |nodes| && s.before == nodes[s.node].cache && s.after == CacheRule(nodes[s.node], nodes)
      && Replays(SetCache(nodes, s.node, s.after), log[1..], final)
  }

  /** dynamicCacheChangedCallback: a step reports when its cache changed and its node is dynamic. */
  predicate Reports(s: Step, nodes: seq<Node>)
  {
    Changed(s) && s.node < |nodes| && nodes[s.node].isDynamic
  }

  /** The event a reporting step sends: the node's name and its new cache. */
  function StepEvent(s: Step, nodes: seq<Node>): Event
    requires s.node < |nodes|
  {
    Event(nodes[s.node].name, Shown(s.after))
  }

  /** The events of a log, in its order. */
  function FloodEvents(log: seq<Step>, nodes: seq<Node>): seq<Event>
    decreases |log|
  {
    if log == [] then []
    else (if Reports(log[0], nodes) then [StepEvent(log[0], nodes)] else []) + FloodEvents(log[1..], nodes)
  }

  /** Some step after position lo recomputes node d with depth f left. */
  ghost predicate Visits(log: seq<Step>, d: nat, f: nat, lo: nat)
  {
    exists j :: lo < j < |log| && log[j].node == d && log[j].fuel == f
  }

  /** Step i, when it changed the cache and depth remains, is followed by a step for each dependant. */
  ghost predicate PassedOn(log: seq<Step>, nodes: seq<Node>, i: nat)
    requires i < |log|
  {
    Changed(log[i]) && log[i].fuel > 0 && log[i].node < |nodes| ==>
      forall d :: d in nodes[log[i].node].dependants ==> Visits(log, d, log[i].fuel - 1, i)
  }

  /** Step j recomputes a dependant of an earlier step that changed its cache, one level deeper. */
  ghost predicate CausedBy(log: seq<Step>, nodes: seq<Node>, j: nat)
    requires j < |log|
  {
    exists i :: 0 <= i < j && Changed(log[i]) && log[i].node < |nodes|
      && log[j].node in nodes[log[i].node].dependants && log[j].fuel + 1 == log[i].fuel
  }

  /**
   * The flood from node n with depth fuel: it starts with n, stops there when
   * n's cache is unchanged, passes every change on to the dependants while
   * depth remains, visits nothing that no change caused, and replays to final.
   */
  ghost predicate Flood(nodes: seq<Node>, n: nat, fuel: nat, log: seq<Step>, final: seq<Node>)
  {
    && |log| > 0 && log[0].node == n && log[0].fuel == fuel
    && (!Changed(log[0]) ==> |log| == 1)
    && Replays(nodes, log, final)
    && (forall i :: 0 <= i < |log| ==> PassedOn(log, nodes, i))
    && (forall j :: 0 < j < |log| ==> CausedBy(log, nodes, j))
  }

  /** A flood under way at n: its dependants in done have had their floods. */
  ghost predicate Partial(nodes: seq<Node>, n: nat, fuel: nat, log: seq<Step>, final: seq<Node>, done: set<nat>)
  {
    && |log| > 0 && log[0].node == n && log[0].fuel == fuel && Changed(log[0])
    && Replays(nodes, log, final)
    && (forall i :: 1 <= i < |log| ==> PassedOn(log, nodes, i))
    && (forall j :: 1 <= j < |log| ==> CausedBy(log, nodes, j))
    && (forall d :: d in done ==> fuel > 0 && Visits(log, d, fuel - 1, 0))
  }

  /** The cache of node k after the log: the after of the last step on k, or c when there is none. */
  function LastCache(log: seq<Step>, k: nat, c: Val): Val
    decreases |log|
  {
    if log == [] then c else LastCache(log[1..], k, if log[0].node == k then log[0].after else c)
  }

  /** Replaying one log and then another replays their concatenation. */
  lemma {:induction false} ReplaysConcat(nodes: seq<Node>, a: seq<Step>, mid: seq<Node>, b: seq<Step>, final: seq<Node>)
    requires Replays(nodes, a, mid) && Replays(mid, b, final)
    ensures Replays(nodes, a + b, final)
    decreases |a|
  {
    if a != [] {
      var s := a[0];
      var next := SetCache(nodes, s.node, s.after);
      assert Replays(next, a[1..], mid);
      ReplaysConcat(next, a[1..], mid, b, final);
      assert (a + b)[0] == s && (a + b)[1..] == a[1..] + b;
      assert Replays(next, (a + b)[1..], final);
    } else {
      assert a + b == b;
    }
  }

  /**
   * A replay changes only caches, and each node ends with the cache its last
   * step computed, or the one it had when no step recomputes it.
   */
  lemma {:induction false} ReplaysFinal(nodes: seq<Node>, log: seq<Step>, final: seq<Node>)
    requires Replays(nodes, log, final)
    ensures SameButCaches(nodes, final)
    ensures forall k :: 0 <= k < |nodes| ==> final[k].cache == LastCache(log, k, nodes[k].cache)
    ensures forall k :: 0 <= k < |nodes| && (forall i :: 0 <= i < |log| ==> log[i].node != k) ==> final[k] == nodes[k]
    decreases |log|
  {
    if log == [] {
      assert SameButCaches(nodes, final) by {
        forall k | 0 <= k < |nodes|
          ensures final[k] == nodes[k].(cache := final[k].cache)
        {
        }
      }
    } else {
      var s := log[0];
      var next := SetCache(nodes, s.node, s.after);
      ReplaysFinal(next, log[1..], final);
      forall k | 0 <= k < |nodes|
        ensures final[k] == nodes[k].(cache := final[k].cache)
        ensures final[k].cache == LastCache(log, k, nodes[k].cache)
      {
        assert next[k] == nodes[k].(cache := next[k].cache);
        assert next[k].cache == if s.node == k then s.after else nodes[k].cache;
      }
      forall k | 0 <= k < |nodes| && (forall i :: 0 <= i < |log| ==> log[i].node != k)
        ensures final[k] == nodes[k]
      {
        assert log[0].node != k;
        forall i | 0 <= i < |log[1..]|
          ensures log[1..][i].node != k
        {
          assert log[1..][i] == log[i + 1];
        }
      }
    }
  }

  /** Every change of cache that a log makes on a dynamic node in a cycle is to undefined. */
  lemma {:induction false} CycleStepsUndefined(nodes: seq<Node>, log: seq<Step>, final: seq<Node>, i: nat)
    requires Replays(nodes, log, final) && i < |log|
    requires log[i].node < |nodes| && nodes[log[i].node].isDynamic && |nodes[log[i].node].cycles| != 0
    ensures log[i].after == Undefined
    decreases i
  {
    if i > 0 {
      var s := log[0];
      var next := SetCache(nodes, s.node, s.after);
      assert log[1..][i - 1] == log[i];
      assert next[log[i].node] == nodes[log[i].node].(cache := next[log[i].node].cache);
      CycleStepsUndefined(next, log[1..], final, i - 1);
    }
  }

  /** The events of a concatenation are the events of its parts. */
  lemma {:induction false} FloodEventsConcat(a: seq<Step>, b: seq<Step>, nodes: seq<Node>)
    ensures FloodEvents(a + b, nodes) == FloodEvents(a, nodes) + FloodEvents(b, nodes)
    decreases |a|
  {
    if a != [] {
      var head := if Reports(a[0], nodes) then [StepEvent(a[0], nodes)] else [];
      assert (a + b)[0] == a[0] && (a + b)[1..] == a[1..] + b;
      FloodEventsConcat(a[1..], b, nodes);
      calc {
        FloodEvents(a + b, nodes);
        head + FloodEvents(a[1..] + b, nodes);
        head + (FloodEvents(a[1..], nodes) + FloodEvents(b, nodes));
        (head + FloodEvents(a[1..], nodes)) + FloodEvents(b, nodes);
      }
    } else {
      assert a + b == b;
    }
  }

  /** The events depend on the nodes' names and kinds only, which caches leave alone. */
  lemma {:induction false} FloodEventsSame(log: seq<Step>, nodes1: seq<Node>, nodes2: seq<Node>)
    requires SameButCaches(nodes1, nodes2)
    ensures FloodEvents(log, nodes1) == FloodEvents(log, nodes2)
    decreases |log|
  {
    if log != [] {
      if log[0].node < |nodes1| {
        assert nodes2[log[0].node] == nodes1[log[0].node].(cache := nodes2[log[0].node].cache);
      }
      FloodEventsSame(log[1..], nodes1, nodes2);
    }
  }

  /**
   * The events are exactly those of the steps that changed the cache of a
   * dynamic node, each naming the node and its new cache: a static node, or
   * a node whose cache stayed the same, reports nothing.
   */
  lemma {:induction false} FloodEventsSpec(log: seq<Step>, nodes: seq<Node>)
    ensures |FloodEvents(log, nodes)| <= |log|
    ensures forall i :: 0 <= i < |log| && Reports(log[i], nodes) ==> StepEvent(log[i], nodes) in FloodEvents(log, nodes)
    ensures forall e :: e in FloodEvents(log, nodes) ==>
      exists i :: 0 <= i < |log| && Reports(log[i], nodes) && e == StepEvent(log[i], nodes)
    decreases |log|
  {
    if log != [] {
      FloodEventsSpec(log[1..], nodes);
      var head := if Reports(log[0], nodes) then [StepEvent(log[0], nodes)] else [];
      assert FloodEvents(log, nodes) == head + FloodEvents(log[1..], nodes);
      forall i | 0 < i < |log| && Reports(log[i], nodes)
        ensures StepEvent(log[i], nodes) in FloodEvents(log, nodes)
      {
        assert log[1..][i - 1] == log[i];
      }
      forall e | e in FloodEvents(log, nodes)
        ensures exists i :: 0 <= i < |log| && Reports(log[i], nodes) && e == StepEvent(log[i], nodes)
      {
        if e !in head {
          var i :| 0 <= i < |log[1..]| && Reports(log[1..][i], nodes) && e == StepEvent(log[1..][i], nodes);
          assert log[1..][i] == log[i + 1];
        }
      }
    }
  }

  /** A step that leaves the cache alone, or has no depth left, is the whole flood. */
  lemma FloodLeaf(nodes: seq<Node>, n: nat, fuel: nat)
    requires n < |nodes|
    requires CacheRule(nodes[n], nodes) == nodes[n].cache || fuel == 0 || nodes[n].dependants == {}
    ensures var s := Step(n, nodes[n].cache, CacheRule(nodes[n], nodes), fuel);
      Flood(nodes, n, fuel, [s], SetCache(nodes, n, s.after))
  {
    var s := Step(n, nodes[n].cache, CacheRule(nodes[n], nodes), fuel);
    assert [s][1..] == [];
    assert Replays(SetCache(nodes, n, s.after), [], SetCache(nodes, n, s.after));
  }

  /** A node that does not depend on itself has a rule that does not read its own cache. */
  lemma RuleIgnoresOwnCache(nodes: seq<Node>, k: nat, c: Val)
    requires k < |nodes| && Cell(k) !in ValueDependOn(nodes[k].value)
    ensures CacheRule(SetCache(nodes, k, c)[k], SetCache(nodes, k, c)) == CacheRule(nodes[k], nodes)
  {
    var nodes' := SetCache(nodes, k, c);
    if nodes[k].value.Live? {
      forall t | t in DependOn(nodes[k].value.tree)
        ensures TargetCache(t, nodes) == TargetCache(t, nodes')
      {
      }
      EvaluateLocal(nodes[k].value.tree, nodes, nodes');
    }
  }

  /** The second step of a flood, if any, recomputes a dependant of its first node. */
  lemma FloodSecond(nodes: seq<Node>, n: nat, fuel: nat, log: seq<Step>, final: seq<Node>)
    requires Flood(nodes, n, fuel, log, final) && n < |nodes|
    ensures |log| > 1 ==> log[1].node in nodes[n].dependants
  {
    if |log| > 1 {
      assert CausedBy(log, nodes, 1);
    }
  }

  /** The flood from a node that nothing depends on is its own single step. */
  lemma FloodAlone(nodes: seq<Node>, n: nat, fuel: nat, log: seq<Step>, final: seq<Node>)
    requires Flood(nodes, n, fuel, log, final) && n < |nodes| && nodes[n].dependants == {}
    ensures log == [Step(n, nodes[n].cache, CacheRule(nodes[n], nodes), fuel)]
    ensures final == SetCache(nodes, n, CacheRule(nodes[n], nodes))
  {
    FloodSecond(nodes, n, fuel, log, final);
    assert |log| == 1;
    assert Replays(SetCache(nodes, n, log[0].after), log[1..], final);
  }

  /** A step that changes the cache starts a flood under way with no dependant done. */
  lemma FloodStart(nodes: seq<Node>, n: nat, fuel: nat)
    requires n < |nodes| && CacheRule(nodes[n], nodes) != nodes[n].cache
    ensures var s := Step(n, nodes[n].cache, CacheRule(nodes[n], nodes), fuel);
      Partial(nodes, n, fuel, [s], SetCache(nodes, n, s.after), {})
  {
    var s := Step(n, nodes[n].cache, CacheRule(nodes[n], nodes), fuel);
    assert [s][1..] == [];
    assert Replays(SetCache(nodes, n, s.after), [], SetCache(nodes, n, s.after));
  }

  /** A flood under way whose every dependant is done is the flood from n. */
  lemma FloodDone(nodes: seq<Node>, n: nat, fuel: nat, log: seq<Step>, final: seq<Node>, done: set<nat>)
    requires n < |nodes| && Partial(nodes, n, fuel, log, final, done)
    requires fuel > 0 ==> nodes[n].dependants <= done
    ensures Flood(nodes, n, fuel, log, final)
  {
    assert PassedOn(log, nodes, 0);
  }

  /** The flood of dependant d, which starts from the arena the flood under way reached, joins it. */
  lemma FloodJoin(nodes: seq<Node>, n: nat, fuel: nat, a: seq<Step>, mid: seq<Node>, done: set<nat>,
                  d: nat, b: seq<Step>, final: seq<Node>)
    requires n < |nodes| && fuel > 0 && d in nodes[n].dependants
    requires Partial(nodes, n, fuel, a, mid, done)
    requires SameButCaches(nodes, mid) && Flood(mid, d, fuel - 1, b, final)
    ensures Partial(nodes, n, fuel, a + b, final, done + {d})
  {
    var log := a + b;
    ReplaysConcat(nodes, a, mid, b, final);
    assert log[|a|] == b[0];
    forall i | |a| <= i < |log|
      ensures log[i] == b[i - |a|]
    {
    }
    forall k | 0 <= k < |nodes|
      ensures mid[k].dependants == nodes[k].dependants
    {
      assert mid[k] == nodes[k].(cache := mid[k].cache);
    }
    forall i | 1 <= i < |log|
      ensures PassedOn(log, nodes, i)
    {
      if i < |a| {
        assert log[i] == a[i];
        if Changed(log[i]) && log[i].fuel > 0 && log[i].node < |nodes| {
          forall e | e in nodes[log[i].node].dependants
            ensures Visits(log, e, log[i].fuel - 1, i)
          {
            assert PassedOn(a, nodes, i);
            var j :| i < j < |a| && a[j].node == e && a[j].fuel == a[i].fuel - 1;
            assert log[j] == a[j];
          }
        }
      } else {
        var i' := i - |a|;
        assert PassedOn(b, mid, i');
        if Changed(log[i]) && log[i].fuel > 0 && log[i].node < |nodes| {
          forall e | e in nodes[log[i].node].dependants
            ensures Visits(log, e, log[i].fuel - 1, i)
          {
            var j :| i' < j < |b| && b[j].node == e && b[j].fuel == b[i'].fuel - 1;
            assert log[|a| + j] == b[j];
          }
        }
      }
    }
    forall j | 1 <= j < |log|
      ensures CausedBy(log, nodes, j)
    {
      if j < |a| {
        assert CausedBy(a, nodes, j);
        var i :| 0 <= i < j && Changed(a[i]) && a[i].node < |nodes| && a[j].node in nodes[a[i].node].dependants && a[j].fuel + 1 == a[i].fuel;
        assert log[i] == a[i] && log[j] == a[j];
      } else if j == |a| {
        assert log[0] == a[0];
      } else {
        var j' := j - |a|;
        assert CausedBy(b, mid, j');
        var i :| 0 <= i < j' && Changed(b[i]) && b[i].node < |mid| && b[j'].node in mid[b[i].node].dependants && b[j'].fuel + 1 == b[i].fuel;
        assert log[|a| + i] == b[i];
      }
    }
    forall e | e in done + {d}
      ensures Visits(log, e, fuel - 1, 0)
    {
      if e in done {
        var j :| 0 < j < |a| && a[j].node == e && a[j].fuel == fuel - 1;
        assert log[j] == a[j];
      }
    }
    assert log[0] == a[0];
  }

  /** The arena after the caches of a log's steps are set, in order. */
  function Replayed(nodes: seq<Node>, log: seq<Step>): (r: seq<Node>)
    ensures |r| == |nodes|
    decreases |log|
  {
    if log == [] then nodes
    else if log[0].node < |nodes| then Replayed(SetCache(nodes, log[0].node, log[0].after), log[1..])
    else Replayed(nodes, log[1..])
  }

  /**
   * The arena at step j of a replay is the start with the caches of the
   * steps before j set: that is what step j's cache rule reads.
   */
  lemma {:induction false} ReplaysAt(nodes: seq<Node>, log: seq<Step>, final: seq<Node>, j: nat)
    requires Replays(nodes, log, final) && j < |log|
    ensures var m := Replayed(nodes, log[..j]);
      && log[j].node < |m| && log[j].before == m[log[j].node].cache && log[j].after == CacheRule(m[log[j].node], m)
      && Replays(m, log[j..], final)
    decreases j
  {
    if j > 0 {
      var s := log[0];
      var next := SetCache(nodes, s.node, s.after);
      ReplaysAt(next, log[1..], final, j - 1);
      assert log[..j][0] == s && log[..j][1..] == log[1..][..j - 1];
      assert log[1..][j - 1] == log[j] && log[1..][j - 1..] == log[j..];
    }
  }

  /** The last step on node k, at position i, gives k its cache. */
  lemma {:induction false} LastStep(log: seq<Step>, k: nat, c: Val, i: nat)
    requires i < |log| && log[i].node == k
    requires forall j :: i < j < |log| ==> log[j].node != k
    ensures LastCache(log, k, c) == log[i].after
    decreases |log|
  {
    if i > 0 {
      forall j | i - 1 < j < |log[1..]|
        ensures log[1..][j].node != k
      {
        assert log[1..][j] == log[j + 1];
      }
      LastStep(log[1..], k, if log[0].node == k then log[0].after else c, i - 1);
    } else {
      LastUntouched(log[1..], k, log[0].after);
    }
  }

  /** No step on node k leaves its cache c. */
  lemma {:induction false} LastUntouched(log: seq<Step>, k: nat, c: Val)
    requires forall j :: 0 <= j < |log| ==> log[j].node != k
    ensures LastCache(log, k, c) == c
    decreases |log|
  {
    if log != [] {
      forall j | 0 <= j < |log[1..]|
        ensures log[1..][j].node != k
      {
        assert log[1..][j] == log[j + 1];
      }
      LastUntouched(log[1..], k, c);
    }
  }

  /** Setting caches leaves every node's other fields, and each node's cache is then its last step's. */
  lemma {:induction false} ReplayedCaches(nodes: seq<Node>, log: seq<Step>)
    ensures SameButCaches(nodes, Replayed(nodes, log))
    ensures forall k :: 0 <= k < |nodes| ==> Replayed(nodes, log)[k].cache == LastCache(log, k, nodes[k].cache)
    decreases |log|
  {
    if log == [] {
      forall k | 0 <= k < |nodes|
        ensures nodes[k] == nodes[k].(cache := nodes[k].cache)
      {
      }
    } else {
      var s := log[0];
      var next := if s.node < |nodes| then SetCache(nodes, s.node, s.after) else nodes;
      assert Replayed(nodes, log) == Replayed(next, log[1..]);
      ReplayedCaches(next, log[1..]);
      forall k | 0 <= k < |nodes|
        ensures Replayed(nodes, log)[k] == nodes[k].(cache := Replayed(nodes, log)[k].cache)
        ensures Replayed(nodes, log)[k].cache == LastCache(log, k, nodes[k].cache)
      {
        assert next[k] == nodes[k].(cache := next[k].cache);
        if s.node == k {
          assert s.node < |nodes| && next[k].cache == s.after;
        } else {
          assert next[k].cache == nodes[k].cache;
        }
      }
    }
  }

  /**
   * A change passes down a reference: when step i gives node k a new cache
   * with depth left, and no later step touches k, a dependant d whose formula
   * is a lone reference to k, dynamic and in no cycle, is recomputed later in
   * the flood to that same value.
   */
  lemma RefFollows(nodes: seq<Node>, n: nat, fuel: nat, log: seq<Step>, final: seq<Node>, i: nat, k: nat, d: nat)
    requires Flood(nodes, n, fuel, log, final)
    requires i < |log| && log[i].node == k && k < |nodes| && Changed(log[i]) && log[i].fuel > 0
    requires forall j :: i < j < |log| ==> log[j].node != k
    requires d in nodes[k].dependants && d < |nodes|
    requires nodes[d].isDynamic && |nodes[d].cycles| == 0 && nodes[d].value.Live?
    requires nodes[d].value.tree.BRef? && nodes[d].value.tree.ref.target == Cell(k)
    ensures exists j :: i < j < |log| && log[j].node == d && log[j].after == log[i].after
  {
    assert PassedOn(log, nodes, i);
    var j :| i < j < |log| && log[j].node == d && log[j].fuel == log[i].fuel - 1;
    ReplaysAt(nodes, log, final, j);
    var m := Replayed(nodes, log[..j]);
    ReplayedCaches(nodes, log[..j]);
    forall q | i < q < |log[..j]|
      ensures log[..j][q].node != k
    {
      assert log[..j][q] == log[q];
    }
    assert log[..j][i] == log[i];
    LastStep(log[..j], k, nodes[k].cache, i);
    assert m[d] == nodes[d].(cache := m[d].cache);
    assert m[k].cache == log[i].after;
  }
}
