/**
 * Bidirectional breadth-first search for a permutation puzzle (a3/solver.py).
 *
 * The cube's move set and its `perm_apply`/`perm_inverse` are not modelled
 * concretely: a `Puzzle` carries the ordered move list and the two operations
 * as function values, and `InverseLaw` is what the search relies on.
 * A `node_info` is never changed after it is built, so it is a datatype whose
 * parent link holds the parent node itself.
 */
module Solver {

  type State = seq<int>
  type Move = seq<int>

  /** The fixed move set (`rubik.quarter_twists`) with `perm_apply` and `perm_inverse`. */
  datatype Puzzle = Puzzle(moves: seq<Move>, apply: (Move, State) -> State, inverse: Move -> Move)

  /** Undoing a move of the set restores the state it was applied to. */
  ghost predicate InverseLaw(p: Puzzle) {
    forall m, s | m in p.moves :: p.apply(p.inverse(m), p.apply(m, s)) == s
  }

  /** `node_info(st, parent, order)`; a root's parent is `(None, None)`. */
  datatype Parent = Root | Link(move: Move, node: NodeInfo)
  datatype NodeInfo = NodeInfo(st: State, parent: Parent, order: nat)

  /** Outcome of `shortest_path`: a move list, `None`, or the IndexError of line 16. */
  datatype Answer = Path(moves: seq<Move>) | NoPath | Crashed

  /** The search gives up once both frontiers are deeper than this (line 66). */
  const MaxOrder: nat := 6

  /** Applies `ms` to `s` from left to right. */
  function ApplyAll(p: Puzzle, s: State, ms: seq<Move>): State
    decreases |ms|
  {
    if ms == [] then s else ApplyAll(p, p.apply(ms[0], s), ms[1..])
  }

  lemma {:induction false} ApplyAllAppend(p: Puzzle, s: State, a: seq<Move>, b: seq<Move>)
    ensures ApplyAll(p, s, a + b) == ApplyAll(p, ApplyAll(p, s, a), b)
    decreases |a|
  {
    if a == [] {
      assert a + b == b;
    } else {
      assert (a + b)[0] == a[0];
      assert (a + b)[1..] == a[1..] + b;
      ApplyAllAppend(p, p.apply(a[0], s), a[1..], b);
    }
  }

  /**
   * Node `n` hangs off a root whose state is `root`: every link applies a move
   * of the set to its parent's state and is one deeper than its parent.
   */
  ghost predicate Rooted(p: Puzzle, n: NodeInfo, root: State)
    decreases n
  {
    match n.parent
    case Root => n.st == root && n.order == 0
    case Link(m, q) =>
      m in p.moves && n.st == p.apply(m, q.st) && n.order == q.order + 1 && Rooted(p, q, root)
  }

  /** `n` was created at line 25 while expanding one of `elms`. */
  ghost predicate ChildOf(p: Puzzle, n: NodeInfo, elms: seq<NodeInfo>) {
    && n.parent.Link?
    && n.parent.node in elms
    && n.parent.move in p.moves
    && n.st == p.apply(n.parent.move, n.parent.node.st)
    && n.order == n.parent.node.order + 1
  }

  ghost predicate NoDup(s: seq<State>) {
    forall i, j :: 0 <= i < j < |s| ==> s[i] != s[j]
  }

  /** Number of leading nodes of `f` whose order is `o`. */
  function Run(f: seq<NodeInfo>, o: nat): (k: nat)
    ensures k <= |f|
    ensures forall i :: 0 <= i < k ==> f[i].order == o
    ensures k < |f| ==> f[k].order != o
  {
    if f == [] || f[0].order != o then 0 else 1 + Run(f[1..], o)
  }

  /** Nodes created and visited list so far, while one layer is expanded. */
  datatype Expansion = Expansion(added: seq<NodeInfo>, visited: seq<State>)

  /** Lines 20-27 for one move: a state not yet visited gets a node and is recorded. */
  function Visit(p: Puzzle, elm: NodeInfo, m: Move, acc: Expansion): Expansion {
    var s := p.apply(m, elm.st);
    if s in acc.visited then acc
    else Expansion(acc.added + [NodeInfo(s, Link(m, elm), elm.order + 1)], acc.visited + [s])
  }

  /** Lines 19-27: the moves `ms`, in order, applied to `elm`. */
  function ExpandNode(p: Puzzle, elm: NodeInfo, ms: seq<Move>, acc: Expansion): Expansion
    decreases |ms|
  {
    if ms == [] then acc
    else Visit(p, elm, ms[|ms| - 1], ExpandNode(p, elm, ms[..|ms| - 1], acc))
  }

  /** Lines 16-27: every node of `elms`, in order, expanded by the whole move set. */
  function ExpandLayer(p: Puzzle, elms: seq<NodeInfo>, acc: Expansion): Expansion
    decreases |elms|
  {
    if elms == [] then acc
    else ExpandNode(p, elms[|elms| - 1], p.moves, ExpandLayer(p, elms[..|elms| - 1], acc))
  }

  /**
   * Nodes and visited states are only appended, in step: the visited list
   * grows by exactly the states of the new nodes, in the same order.
   */
  ghost predicate Appends(acc: Expansion, res: Expansion) {
    && |acc.added| <= |res.added|
    && |res.visited| - |acc.visited| == |res.added| - |acc.added|
    && res.added[..|acc.added|] == acc.added
    && res.visited[..|acc.visited|] == acc.visited
    && forall i :: |acc.added| <= i < |res.added| ==>
         res.visited[|acc.visited| + (i - |acc.added|)] == res.added[i].st
  }

  /** Every node appended after `acc` was created from one of `elms`. */
  ghost predicate CreatedFrom(p: Puzzle, elms: seq<NodeInfo>, acc: Expansion, res: Expansion)
    requires |acc.added| <= |res.added|
  {
    forall i :: |acc.added| <= i < |res.added| ==> ChildOf(p, res.added[i], elms)
  }

  /** What expanding `elms` promises, from `acc` to `res`. */
  ghost predicate Extends(p: Puzzle, elms: seq<NodeInfo>, acc: Expansion, res: Expansion) {
    && Appends(acc, res)
    && CreatedFrom(p, elms, acc, res)
    && (NoDup(acc.visited) ==> NoDup(res.visited))
  }

  lemma VisitExtends(p: Puzzle, elm: NodeInfo, m: Move, acc: Expansion)
    requires m in p.moves
    ensures Extends(p, [elm], acc, Visit(p, elm, m, acc))
    ensures |Visit(p, elm, m, acc).added| <= |acc.added| + 1
  {
    var na := |acc.added|;
    var res := Visit(p, elm, m, acc);
    if p.apply(m, elm.st) in acc.visited {
      assert acc.added[..na] == acc.added;
      assert acc.visited[..|acc.visited|] == acc.visited;
    } else {
      assert res.added[..na] == acc.added;
      assert res.visited[..|acc.visited|] == acc.visited;
    }
  }

  lemma {:induction false} ExpandNodeExtends(p: Puzzle, elm: NodeInfo, ms: seq<Move>, acc: Expansion)
    requires forall m :: m in ms ==> m in p.moves
    ensures Extends(p, [elm], acc, ExpandNode(p, elm, ms, acc))
    decreases |ms|
  {
    if ms == [] {
      assert acc.added[..|acc.added|] == acc.added;
      assert acc.visited[..|acc.visited|] == acc.visited;
    } else {
      var mid := ExpandNode(p, elm, ms[..|ms| - 1], acc);
      ExpandNodeExtends(p, elm, ms[..|ms| - 1], acc);
      VisitExtends(p, elm, ms[|ms| - 1], mid);
      ExtendsTrans(p, [elm], acc, mid, Visit(p, elm, ms[|ms| - 1], mid));
    }
  }

  lemma AppendsTrans(a: Expansion, b: Expansion, c: Expansion)
    requires Appends(a, b) && Appends(b, c)
    ensures Appends(a, c)
  {
    var na, nb := |a.added|, |b.added|;
    assert c.added[..na] == c.added[..nb][..na];
    assert c.visited[..|a.visited|] == c.visited[..|b.visited|][..|a.visited|];
    forall i | na <= i < nb
      ensures c.visited[|a.visited| + (i - na)] == c.added[i].st
    {
      assert c.added[i] == c.added[..nb][i];
      assert c.visited[|a.visited| + (i - na)] == c.visited[..|b.visited|][|a.visited| + (i - na)];
    }
  }

  lemma CreatedFromTrans(p: Puzzle, elms: seq<NodeInfo>, a: Expansion, b: Expansion, c: Expansion)
    requires Appends(a, b) && Appends(b, c)
    requires CreatedFrom(p, elms, a, b) && CreatedFrom(p, elms, b, c)
    ensures |a.added| <= |c.added| && CreatedFrom(p, elms, a, c)
  {
    var nb := |b.added|;
    forall i | |a.added| <= i < |c.added| ensures ChildOf(p, c.added[i], elms) {
      if i < nb {
        assert c.added[i] == c.added[..nb][i];
      }
    }
  }

  lemma ExtendsTrans(p: Puzzle, elms: seq<NodeInfo>, a: Expansion, b: Expansion, c: Expansion)
    requires Extends(p, elms, a, b) && Extends(p, elms, b, c)
    ensures Extends(p, elms, a, c)
  {
    AppendsTrans(a, b, c);
    CreatedFromTrans(p, elms, a, b, c);
  }

  /**
   * Expanding a layer only appends: each created node is a child of a node of
   * the layer by a move of the set, the visited list grows by exactly the new
   * states, and it never gains a duplicate.
   */
  lemma {:induction false} ExpandLayerExtends(p: Puzzle, elms: seq<NodeInfo>, acc: Expansion)
    ensures Extends(p, elms, acc, ExpandLayer(p, elms, acc))
    decreases |elms|
  {
    if elms == [] {
      assert acc.added[..|acc.added|] == acc.added;
      assert acc.visited[..|acc.visited|] == acc.visited;
    } else {
      var init := elms[..|elms| - 1];
      var elm := elms[|elms| - 1];
      var mid := ExpandLayer(p, init, acc);
      ExpandLayerExtends(p, init, acc);
      ExpandNodeExtends(p, elm, p.moves, mid);
      var res := ExpandNode(p, elm, p.moves, mid);
      // Both steps hold for the whole layer, which contains `init` and `elm`.
      assert Extends(p, elms, acc, mid) by {
        forall i | |acc.added| <= i < |mid.added| ensures ChildOf(p, mid.added[i], elms) {
          assert ChildOf(p, mid.added[i], init);
          assert mid.added[i].parent.node in elms;
        }
      }
      assert Extends(p, elms, mid, res) by {
        forall i | |mid.added| <= i < |res.added| ensures ChildOf(p, res.added[i], elms) {
          assert ChildOf(p, res.added[i], [elm]);
        }
      }
      ExtendsTrans(p, elms, acc, mid, res);
    }
  }

  /** Expanding a node only appends nodes one order deeper. */
  lemma ExpandNodeOrders(p: Puzzle, elm: NodeInfo, acc: Expansion)
    requires forall n :: n in acc.added ==> n.order == elm.order + 1
    ensures forall n :: n in ExpandNode(p, elm, p.moves, acc).added ==> n.order == elm.order + 1
  {
    ExpandNodeExtends(p, elm, p.moves, acc);
    var next := ExpandNode(p, elm, p.moves, acc);
    forall n | n in next.added ensures n.order == elm.order + 1 {
      var i :| 0 <= i < |next.added| && next.added[i] == n;
      if i < |acc.added| {
        assert next.added[..|acc.added|][i] == n;
        assert n in acc.added;
      } else {
        assert ChildOf(p, n, [elm]);
      }
    }
  }

  /**
   * `next_frontier` (lines 12-27). The source changes the caller's deque and
   * list in place; here it returns their new values. `ok` is false where the
   * source raises IndexError: an empty frontier (line 13), or a layer that
   * produced no new node, so that the deque runs empty (line 16).
   */
  method NextFrontier(p: Puzzle, frontier: seq<NodeInfo>, visited: seq<State>)
    returns (ok: bool, frontier': seq<NodeInfo>, visited': seq<State>)
    ensures ok <==> (frontier != [] &&
      var k := Run(frontier, frontier[0].order);
      !(k == |frontier| && ExpandLayer(p, frontier[..k], Expansion([], visited)).added == []))
    ensures ok ==>
      var k := Run(frontier, frontier[0].order);
      var e := ExpandLayer(p, frontier[..k], Expansion([], visited));
      frontier' == frontier[k..] + e.added && visited' == e.visited
  {
    if frontier == [] {
      return false, frontier, visited;
    }
    var startingOrder := frontier[0].order;
    var queue := frontier;
    var seen := visited;
    ghost var popped := 0;
    ghost var acc := Expansion([], visited);
    while queue[0].order == startingOrder
      invariant queue != []
      invariant 0 <= popped <= |frontier|
      invariant forall i :: 0 <= i < popped ==> frontier[i].order == startingOrder
      invariant acc == ExpandLayer(p, frontier[..popped], Expansion([], visited))
      invariant queue == frontier[popped..] + acc.added && seen == acc.visited
      invariant forall n :: n in acc.added ==> n.order == startingOrder + 1
      decreases |frontier| - popped
    {
      assert popped < |frontier|;
      var elm := queue[0];
      assert elm == frontier[popped];
      queue := queue[1..];
      assert queue == frontier[popped + 1..] + acc.added;
      queue, seen := ExpandMoves(p, elm, queue, seen, frontier[popped + 1..], acc);
      ExpandNodeExtends(p, elm, p.moves, acc);
      assert frontier[..popped + 1][..popped] == frontier[..popped];
      ghost var next := ExpandNode(p, elm, p.moves, acc);
      ExpandNodeOrders(p, elm, acc);
      acc := next;
      popped := popped + 1;
      if queue == [] {
        // frontier[0] at line 16 on an empty deque
        assert popped == |frontier|;
        assert frontier[..popped] == frontier;
        return false, queue, seen;
      }
    }
    if popped < |frontier| {
      assert queue[0] == frontier[popped];
    }
    assert Run(frontier, startingOrder) == popped;
    if popped == |frontier| {
      assert frontier[popped..] == [];
      assert acc.added == queue;
    }
    return true, queue, seen;
  }

  /**
   * Lines 19-27: every move applied to `elm`, in order; a state not yet
   * visited is appended to the deque as a new node and to the visited list.
   */
  method ExpandMoves(p: Puzzle, elm: NodeInfo, queue: seq<NodeInfo>, seen: seq<State>,
                     ghost rest: seq<NodeInfo>, ghost acc: Expansion)
    returns (queue': seq<NodeInfo>, seen': seq<State>)
    requires queue == rest + acc.added && seen == acc.visited
    ensures queue' == rest + ExpandNode(p, elm, p.moves, acc).added
    ensures seen' == ExpandNode(p, elm, p.moves, acc).visited
  {
    queue', seen' := queue, seen;
    for i := 0 to |p.moves|
      invariant queue' == rest + ExpandNode(p, elm, p.moves[..i], acc).added
      invariant seen' == ExpandNode(p, elm, p.moves[..i], acc).visited
    {
      assert p.moves[..i + 1][..i] == p.moves[..i];
      var move := p.moves[i];
      var moveSt := p.apply(move, elm.st);
      if moveSt !in seen' {
        var newSt := NodeInfo(moveSt, Link(move, elm), elm.order + 1);
        queue' := queue' + [newSt];
        seen' := seen' + [moveSt];
      }
    }
    assert p.moves[..|p.moves|] == p.moves;
  }

  /**
   * Lines 54-57 and 82-95: the first pair of nodes with equal states, the left
   * sequence in the outer loop and the right one in the inner loop.
   */
  method FindMeeting(left: seq<NodeInfo>, right: seq<NodeInfo>) returns (found: bool, i: nat, j: nat)
    ensures found ==> i < |left| && j < |right| && left[i].st == right[j].st
    ensures found ==> forall a, b :: 0 <= a < |left| && 0 <= b < |right| && left[a].st == right[b].st ==>
      i < a || (i == a && j <= b)
    ensures !found ==> forall a, b :: 0 <= a < |left| && 0 <= b < |right| ==> left[a].st != right[b].st
  {
    for a := 0 to |left|
      invariant forall x, y :: 0 <= x < a && 0 <= y < |right| ==> left[x].st != right[y].st
    {
      for b := 0 to |right|
        invariant forall y :: 0 <= y < b ==> left[a].st != right[y].st
      {
        if left[a].st == right[b].st {
          return true, a, b;
        }
      }
    }
    return false, 0, 0;
  }

  /** Lines 101-104: the moves from the first node of the chain whose state is `start`. */
  function PathFrom(p: Puzzle, n: NodeInfo, start: State): seq<Move>
    requires Rooted(p, n, start)
    decreases n
  {
    if n.st == start then [] else PathFrom(p, n.parent.node, start) + [n.parent.move]
  }

  /** Lines 108-112: the inverses of the moves down to the first node whose state is `end`. */
  function InvPathTo(p: Puzzle, n: NodeInfo, end: State): seq<Move>
    requires Rooted(p, n, end)
    decreases n
  {
    if n.st == end then [] else [p.inverse(n.parent.move)] + InvPathTo(p, n.parent.node, end)
  }

  ghost predicate MoveOrInverse(p: Puzzle, m: Move) {
    m in p.moves || exists m' :: m' in p.moves && m == p.inverse(m')
  }

  /** The start half leads from `start` to the node's state, with at most `order` moves of the set. */
  lemma {:induction false} PathFromReaches(p: Puzzle, n: NodeInfo, start: State)
    requires Rooted(p, n, start)
    ensures ApplyAll(p, start, PathFrom(p, n, start)) == n.st
    ensures |PathFrom(p, n, start)| <= n.order
    ensures forall m :: m in PathFrom(p, n, start) ==> m in p.moves
    decreases n
  {
    if n.st != start {
      var q := n.parent.node;
      var m := n.parent.move;
      PathFromReaches(p, q, start);
      ApplyAllAppend(p, start, PathFrom(p, q, start), [m]);
    }
  }

  /** The end half, replayed from the node's state, leads to `end`. */
  lemma {:induction false} InvPathToReaches(p: Puzzle, n: NodeInfo, end: State)
    requires InverseLaw(p)
    requires Rooted(p, n, end)
    ensures ApplyAll(p, n.st, InvPathTo(p, n, end)) == end
    ensures |InvPathTo(p, n, end)| <= n.order
    ensures forall m :: m in InvPathTo(p, n, end) ==> MoveOrInverse(p, m)
    decreases n
  {
    if n.st != end {
      var q := n.parent.node;
      var m := n.parent.move;
      InvPathToReaches(p, q, end);
      assert p.apply(p.inverse(m), n.st) == q.st;
      var rest := InvPathTo(p, q, end);
      assert ([p.inverse(m)] + rest)[1..] == rest;
      assert MoveOrInverse(p, p.inverse(m));
    }
  }

  /** Lines 97-114: rebuilds the move list from a meeting pair. */
  method Reconstruct(p: Puzzle, start: State, end: State, l: NodeInfo, r: NodeInfo)
    returns (finalList: seq<Move>)
    requires InverseLaw(p)
    requires Rooted(p, l, start) && Rooted(p, r, end) && l.st == r.st
    ensures finalList == PathFrom(p, l, start) + InvPathTo(p, r, end)
    ensures ApplyAll(p, start, finalList) == end
    ensures |finalList| <= l.order + r.order
    ensures forall m :: m in finalList ==> MoveOrInverse(p, m)
  {
    finalList := [];
    var lTemp := l;
    while lTemp.st != start
      invariant Rooted(p, lTemp, start)
      invariant PathFrom(p, l, start) == PathFrom(p, lTemp, start) + finalList
      decreases lTemp
    {
      assert PathFrom(p, lTemp, start) == PathFrom(p, lTemp.parent.node, start) + [lTemp.parent.move];
      finalList := [lTemp.parent.move] + finalList;
      lTemp := lTemp.parent.node;
    }
    assert PathFrom(p, l, start) == finalList;
    var rTemp := r;
    ghost var left := finalList;
    while rTemp.st != end
      invariant Rooted(p, rTemp, end)
      invariant left + InvPathTo(p, r, end) == finalList + InvPathTo(p, rTemp, end)
      decreases rTemp
    {
      finalList := finalList + [p.inverse(rTemp.parent.move)];
      rTemp := rTemp.parent.node;
    }
    assert left == PathFrom(p, l, start);
    assert finalList == left + InvPathTo(p, r, end);
    PathFromReaches(p, l, start);
    InvPathToReaches(p, r, end);
    ApplyAllAppend(p, start, PathFrom(p, l, start), InvPathTo(p, r, end));
  }

  /**
   * `shortest_path` (lines 35-114). Equal end points give the empty list
   * before anything is expanded; otherwise the two sides are expanded in
   * strict alternation until a meeting pair shows up, both sides are deeper
   * than `MaxOrder`, or an expansion raises IndexError. A list it returns
   * leads from `start` to `end` and has at most 14 moves.
   */
  method ShortestPath(p: Puzzle, start: State, end: State) returns (r: Answer)
    requires InverseLaw(p)
    ensures start == end ==> r == Path([])
    ensures r.Path? ==> ApplyAll(p, start, r.moves) == end
    ensures r.Path? ==> |r.moves| <= 2 * (MaxOrder + 1)
    ensures r.Path? ==> forall m :: m in r.moves ==> MoveOrInverse(p, m)
  {
    var startInit := NodeInfo(start, Root, 0);
    var sFrontier := [startInit];
    var sParents: seq<State> := [];
    var endInit := NodeInfo(end, Root, 0);
    var eFrontier := [endInit];
    var eParents: seq<State> := [];
    var flag := 1;

    var found: bool, i: nat, j: nat := FindMeeting(sFrontier, eFrontier);
    if found {
      return Path([]);
    }
    ghost var sOrder, eOrder := 0, 0;
    while !found
      invariant sFrontier != [] && eFrontier != []
      invariant forall n :: n in sFrontier ==> Rooted(p, n, start) && n.order == sOrder
      invariant forall n :: n in eFrontier ==> Rooted(p, n, end) && n.order == eOrder
      invariant flag == 1 || flag == -1
      invariant flag == 1 ==> sOrder == eOrder
      invariant flag == -1 ==> sOrder == eOrder + 1
      invariant sOrder <= MaxOrder + 1 && eOrder <= MaxOrder + 1
      invariant found ==> i < |sFrontier|
      invariant found ==> j < |eFrontier|
      invariant found ==> sFrontier[i].st == eFrontier[j].st
      decreases 2 * MaxOrder + 2 - sOrder - eOrder
    {
      if sFrontier[0].order > MaxOrder && eFrontier[0].order > MaxOrder {
        return NoPath;
      }
      var ok: bool;
      if flag == 1 {
        var before, beforeVisited := sFrontier, sParents;
        ok, sFrontier, sParents := NextFrontier(p, sFrontier, sParents);
        flag := flag * -1;
        if !ok {
          return Crashed;
        }
        LayerIsNextOrder(p, before, beforeVisited, start, sOrder);
        assert sFrontier == ExpandLayer(p, before, Expansion([], beforeVisited)).added;
        sOrder := sOrder + 1;
      } else {
        var before, beforeVisited := eFrontier, eParents;
        ok, eFrontier, eParents := NextFrontier(p, eFrontier, eParents);
        flag := flag * -1;
        if !ok {
          return Crashed;
        }
        LayerIsNextOrder(p, before, beforeVisited, end, eOrder);
        assert eFrontier == ExpandLayer(p, before, Expansion([], beforeVisited)).added;
        eOrder := eOrder + 1;
      }
      found, i, j := FindMeeting(sFrontier, eFrontier);
    }
    var moves := Reconstruct(p, start, end, sFrontier[i], eFrontier[j]);
    return Path(moves);
  }

  /** A frontier of one order is replaced by the nodes it creates, all rooted and one deeper. */
  lemma LayerIsNextOrder(p: Puzzle, f: seq<NodeInfo>, visited: seq<State>, root: State, o: nat)
    requires f != []
    requires forall n :: n in f ==> Rooted(p, n, root) && n.order == o
    ensures Run(f, f[0].order) == |f| && f[..|f|] == f && f[|f|..] == []
    ensures forall n :: n in ExpandLayer(p, f, Expansion([], visited)).added ==>
      Rooted(p, n, root) && n.order == o + 1
  {
    assert f[0] in f;
    var k := Run(f, f[0].order);
    var e := ExpandLayer(p, f, Expansion([], visited));
    ExpandLayerExtends(p, f, Expansion([], visited));
    forall n | n in e.added ensures Rooted(p, n, root) && n.order == o + 1 {
      var i :| 0 <= i < |e.added| && e.added[i] == n;
      assert ChildOf(p, n, f);
    }
  }
}
