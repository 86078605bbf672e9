/**
 * The depth-first dependency walk that `TrueTypeFont.Deserialize` and
 * `TrueTypeFont.Validate` both run over the font's table list
 * (`src/TrueType/TrueTypeFont.cs`).
 *
 * Each table declares the kinds of table it needs handled first.  A
 * dependency resolves to the first table in list order of that kind.  Two
 * boolean arrays mark the tables whose walk has started and the ones that are
 * finished; meeting a started but unfinished table again means the walk has
 * gone round a cycle.  The walk returns the tables in the order they were
 * handled, which is the order the context list receives them.
 */
module Dependencies {
  import opened Wrappers

  /**
   * One table as the walk sees it: its kind, the kinds it depends on in this
   * pass, and whether the table's own step (its `Deserialize` or `Validate`)
   * throws, and with what.
   */
  datatype Node<K> = Node(kind: K, deps: seq<K>, failure: Option<Error>)

  /** The first table of kind k, or |tables| when there is none. */
  function FirstOfKind<K(==)>(tables: seq<Node<K>>, k: K): (j: nat)
    ensures j <= |tables|
    ensures j < |tables| ==> tables[j].kind == k
    ensures forall i :: 0 <= i < j ==> tables[i].kind != k
    decreases |tables|
  {
    if tables == [] then 0
    else if tables[0].kind == k then 0
    else 1 + FirstOfKind(tables[1..], k)
  }

  /** The search loop over `depIndex`: stops at the first table of kind k. */
  method FindDependency<K(==)>(tables: seq<Node<K>>, k: K) returns (j: nat)
    ensures j == FirstOfKind(tables, k)
  {
    j := 0;
    while j < |tables| && tables[j].kind != k
      invariant j <= |tables|
      invariant forall i :: 0 <= i < j ==> tables[i].kind != k
    {
      j := j + 1;
    }
  }

  /** Table i depends on table j: j is where one of i's dependency kinds is found. */
  ghost predicate Edge<K>(tables: seq<Node<K>>, i: nat, j: nat)
  {
    i < |tables| && j < |tables| && exists d :: d in tables[i].deps && FirstOfKind(tables, d) == j
  }

  ghost predicate IsPath<K>(tables: seq<Node<K>>, path: seq<nat>)
  {
    && (forall k :: 0 <= k < |path| ==> path[k] < |tables|)
    && (forall k :: 0 <= k < |path| - 1 ==> Edge(tables, path[k], path[k + 1]))
  }

  ghost predicate IsCycle<K>(tables: seq<Node<K>>, path: seq<nat>)
  {
    |path| >= 2 && path[0] == path[|path| - 1] && IsPath(tables, path)
  }

  /** Following dependencies from some table leads back to it. */
  ghost predicate HasCycle<K>(tables: seq<Node<K>>)
  {
    exists path :: IsCycle(tables, path)
  }

  /** Some table depends on a kind no table in the list has. */
  ghost predicate MissingDependency<K>(tables: seq<Node<K>>)
  {
    exists i, d :: 0 <= i < |tables| && d in tables[i].deps && FirstOfKind(tables, d) == |tables|
  }

  /** The ways the walk can fail, each with its cause in the table list. */
  ghost predicate Failed<K>(tables: seq<Node<K>>, e: Error)
  {
    || (e == InvalidOperation(CyclicDependency) && HasCycle(tables))
    || (e == InvalidOperation(DependencyMissing) && MissingDependency(tables))
    || (exists i :: 0 <= i < |tables| && tables[i].failure == Some(e))
  }

  /**
   * `order` lists distinct tables, each after the tables its dependencies
   * resolve to, and each of them handled without error.
   */
  ghost predicate Ordered<K>(tables: seq<Node<K>>, order: seq<nat>)
  {
    && (forall p :: 0 <= p < |order| ==> order[p] < |tables| && tables[order[p]].failure.None?)
    && (forall p, q :: 0 <= p < q < |order| ==> order[p] != order[q])
    && (forall p, d :: 0 <= p < |order| && order[p] < |tables| && d in tables[order[p]].deps ==>
          FirstOfKind(tables, d) in order[..p])
  }

  /** A complete walk: every table exactly once, in dependency order. */
  ghost predicate Processes<K>(tables: seq<Node<K>>, order: seq<nat>)
  {
    Ordered(tables, order) && forall i :: 0 <= i < |tables| ==> i in order
  }

  /**
   * The state of the two arrays between steps of the walk: the finished
   * tables are those listed in `order`, and the started but unfinished ones
   * are exactly those on the current dependency path `stack`.
   */
  ghost predicate Walked<K>(tables: seq<Node<K>>, toBe: seq<bool>, done: seq<bool>, order: seq<nat>, stack: seq<nat>)
  {
    && |toBe| == |tables| && |done| == |tables|
    && (forall j :: 0 <= j < |tables| ==> (done[j] <==> j in order))
    && (forall j :: 0 <= j < |tables| ==> done[j] ==> toBe[j])
    && (forall j :: 0 <= j < |tables| ==> (toBe[j] && !done[j] <==> j in stack))
    && Ordered(tables, order)
    && IsPath(tables, stack)
  }

  // ------------------------------------------------------------ termination

  function Falses(s: seq<bool>): nat
  {
    if s == [] then 0 else Falses(s[..|s| - 1]) + (if s[|s| - 1] then 0 else 1)
  }

  /** b has every mark a has. */
  predicate Grows(a: seq<bool>, b: seq<bool>)
  {
    |a| == |b| && forall i :: 0 <= i < |a| ==> a[i] ==> b[i]
  }

  /** Adding marks leaves no more unmarked entries, and strictly fewer when a new one is set. */
  lemma {:induction false} FalsesShrink(a: seq<bool>, b: seq<bool>, i: nat)
    requires Grows(a, b) && i < |a|
    ensures Falses(b) <= Falses(a)
    ensures !a[i] && b[i] ==> Falses(b) < Falses(a)
    decreases |a|
  {
    var n := |a| - 1;
    assert Grows(a[..n], b[..n]);
    if i < n {
      FalsesShrink(a[..n], b[..n], i);
    } else if n > 0 {
      FalsesShrink(a[..n], b[..n], 0);
    }
  }

  // ------------------------------------------------------------ the walk

  /** Marking `index` as started puts it at the end of the dependency path. */
  lemma {:induction false} WalkedMark<K>(tables: seq<Node<K>>, toBe: seq<bool>, done: seq<bool>,
                                           order: seq<nat>, stack: seq<nat>, index: nat)
    requires Walked(tables, toBe, done, order, stack)
    requires index < |tables| && !toBe[index]
    requires stack != [] ==> Edge(tables, stack[|stack| - 1], index)
    ensures index !in stack
    ensures Walked(tables, toBe[index := true], done, order, stack + [index])
  {
    var inner := stack + [index];
    forall k | 0 <= k < |inner| - 1
      ensures Edge(tables, inner[k], inner[k + 1])
    {
      if k < |stack| - 1 {
        assert inner[k] == stack[k] && inner[k + 1] == stack[k + 1];
      }
    }
  }

  /** Finishing `index` after its dependencies appends it to the order and takes it off the path. */
  lemma {:induction false} WalkedFinish<K>(tables: seq<Node<K>>, toBe: seq<bool>, done: seq<bool>,
                                             order: seq<nat>, stack: seq<nat>, index: nat)
    requires Walked(tables, toBe, done, order, stack + [index])
    requires index < |tables| && index !in stack && tables[index].failure.None?
    requires DepsDone(tables, tables[index].deps, done)
    ensures Walked(tables, toBe, done[index := true], order + [index], stack)
  {
    var inner := stack + [index];
    assert index in inner;
    var order' := order + [index];
    forall p, d | 0 <= p < |order'| && order'[p] < |tables| && d in tables[order'[p]].deps
      ensures FirstOfKind(tables, d) in order'[..p]
    {
      if p < |order| {
        assert order'[..p] == order[..p];
      } else {
        assert order'[..p] == order;
      }
    }
    forall k | 0 <= k < |stack|
      ensures stack[k] < |tables|
      ensures k < |stack| - 1 ==> Edge(tables, stack[k], stack[k + 1])
    {
      assert inner[k] == stack[k];
      if k < |stack| - 1 {
        assert inner[k + 1] == stack[k + 1];
      }
    }
    var done' := done[index := true];
    forall j | 0 <= j < |tables|
      ensures (done'[j] <==> j in order') && (done'[j] ==> toBe[j])
      ensures toBe[j] && !done'[j] <==> j in stack
    {
      if j != index {
        assert j in inner <==> j in stack;
        assert j in order' <==> j in order;
      }
    }
    assert index !in order;
    forall p, q | 0 <= p < q < |order'|
      ensures order'[p] != order'[q]
    {
      if q < |order| {
        assert order'[p] == order[p] && order'[q] == order[q];
      } else {
        assert order'[p] == order[p] && order[p] in order;
      }
    }
    assert Ordered(tables, order');
    assert IsPath(tables, stack);
  }

  /** Every dependency kind in deps is found, and its table is finished. */
  ghost predicate DepsDone<K>(tables: seq<Node<K>>, deps: seq<K>, done: seq<bool>)
  {
    forall d :: d in deps ==> FirstOfKind(tables, d) < |tables| && FirstOfKind(tables, d) < |done| && done[FirstOfKind(tables, d)]
  }

  lemma {:induction false} DepsDoneStep<K>(tables: seq<Node<K>>, deps: seq<K>, q: nat, done0: seq<bool>, done1: seq<bool>, j: nat)
    requires q < |deps| && DepsDone(tables, deps[..q], done0) && Grows(done0, done1)
    requires j == FirstOfKind(tables, deps[q]) && j < |tables| && j < |done1| && done1[j]
    ensures DepsDone(tables, deps[..q + 1], done1)
  {
    assert deps[..q + 1] == deps[..q] + [deps[q]];
  }

  /** Meeting a started, unfinished table again closes a cycle through the path. */
  lemma {:induction false} CycleFound<K>(tables: seq<Node<K>>, stack: seq<nat>, index: nat)
    requires IsPath(tables, stack) && index in stack
    requires Edge(tables, stack[|stack| - 1], index)
    ensures HasCycle(tables)
  {
    var p :| 0 <= p < |stack| && stack[p] == index;
    var path := stack[p..] + [index];
    forall k | 0 <= k < |path| - 1
      ensures Edge(tables, path[k], path[k + 1])
    {
      if k < |stack| - p - 1 {
        assert path[k] == stack[p + k] && path[k + 1] == stack[p + k + 1];
      } else {
        assert path[k] == stack[|stack| - 1];
      }
    }
    assert IsCycle(tables, path);
  }

  /**
   * `DeserializeTableRecursive` / `ValidateTableRecursive`: handle the table
   * at `index` after the tables its dependencies resolve to.
   */
  method Visit<K(==)>(tables: seq<Node<K>>, toBe: array<bool>, done: array<bool>, index: nat,
                      order: seq<nat>, ghost stack: seq<nat>) returns (res: Result<seq<nat>>)
    requires toBe != done && index < |tables|
    requires Walked(tables, toBe[..], done[..], order, stack)
    requires stack != [] ==> Edge(tables, stack[|stack| - 1], index)
    modifies toBe, done
    ensures Grows(old(toBe[..]), toBe[..])
    ensures res.Ok? ==> Walked(tables, toBe[..], done[..], res.value, stack)
    ensures res.Ok? ==> done[index] && Grows(old(done[..]), done[..])
    ensures res.Err? ==> Failed(tables, res.error)
    decreases Falses(toBe[..])
  {
    if done[index] {
      return Ok(order);
    }
    if toBe[index] {
      CycleFound(tables, stack, index);
      return Err(InvalidOperation(CyclicDependency));
    }
    ghost var before := toBe[..];
    WalkedMark(tables, toBe[..], done[..], order, stack, index);
    toBe[index] := true;
    ghost var inner := stack + [index];
    var cur := order;
    var deps := tables[index].deps;
    for q := 0 to |deps|
      invariant Walked(tables, toBe[..], done[..], cur, inner)
      invariant Grows(before, toBe[..]) && toBe[index]
      invariant Grows(old(done[..]), done[..])
      invariant DepsDone(tables, deps[..q], done[..])
    {
      var j := FindDependency(tables, deps[q]);
      if j == |tables| {
        return Err(InvalidOperation(DependencyMissing));
      }
      assert Edge(tables, inner[|inner| - 1], j);
      FalsesShrink(before, toBe[..], index);
      ghost var done0 := done[..];
      var r := Visit(tables, toBe, done, j, cur, inner);
      if r.Err? {
        return Err(r.error);
      }
      DepsDoneStep(tables, deps, q, done0, done[..], j);
      cur := r.value;
    }
    assert deps[..|deps|] == deps;
    if tables[index].failure.Some? {
      return Err(tables[index].failure.value);
    }
    WalkedFinish(tables, toBe[..], done[..], cur, stack, index);
    done[index] := true;
    return Ok(cur + [index]);
  }

  /** The outer loop: walk from every table in list order. */
  method Resolve<K(==)>(tables: seq<Node<K>>) returns (res: Result<seq<nat>>)
    ensures res.Ok? ==> Processes(tables, res.value)
    ensures res.Err? ==> Failed(tables, res.error)
  {
    var toBe := new bool[|tables|](_ => false);
    var done := new bool[|tables|](_ => false);
    var order: seq<nat> := [];
    for i := 0 to |tables|
      invariant Walked(tables, toBe[..], done[..], order, [])
      invariant forall j :: 0 <= j < i ==> done[j]
    {
      var r := Visit(tables, toBe, done, i, order, []);
      if r.Err? {
        return Err(r.error);
      }
      order := r.value;
    }
    return Ok(order);
  }

  // ------------------------------------------------------------ acyclic graphs

  /** Along a path whose every dependency ranks lower, the rank strictly falls. */
  lemma {:induction false} PathDescends<K>(tables: seq<Node<K>>, path: seq<nat>, rank: K -> nat)
    requires IsPath(tables, path) && |path| >= 2
    requires forall i, d :: 0 <= i < |tables| && d in tables[i].deps ==> rank(d) < rank(tables[i].kind)
    ensures rank(tables[path[|path| - 1]].kind) < rank(tables[path[0]].kind)
    decreases |path|
  {
    var last := |path| - 1;
    assert Edge(tables, path[last - 1], path[last]);
    if |path| > 2 {
      var front := path[..last];
      assert IsPath(tables, front) by {
        assert forall k :: 0 <= k < |front| ==> front[k] == path[k];
      }
      PathDescends(tables, front, rank);
    }
  }

  /** A table list whose dependencies always rank lower has no cycle, so the walk never reports one. */
  lemma {:induction false} RankedAcyclic<K>(tables: seq<Node<K>>, rank: K -> nat)
    requires forall i, d :: 0 <= i < |tables| && d in tables[i].deps ==> rank(d) < rank(tables[i].kind)
    ensures !HasCycle(tables)
  {
    if HasCycle(tables) {
      var path :| IsCycle(tables, path);
      PathDescends(tables, path, rank);
    }
  }
}
