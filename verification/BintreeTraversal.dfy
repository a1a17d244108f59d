/**
  The two stackless traversals and the indexed leaf search.

  The reference is a sequence of cursors. `Visits(c)` lists the positions in the subtree at `c`
  in node-left-right order and `After(c)` the positions that come after `c` in the whole tree;
  they recurse on the subtree and on the path. The traversal methods climb step by step, and are
  proved to return the first element of `After`.
 */
module BintreeTraversal {
  import opened Wrappers
  import opened Bintree

  // ----- Positions in node-left-right order

  function Visits<L, N>(c: Cursor<L, N>): (vs: seq<Cursor<L, N>>)
    ensures vs != [] && vs[0] == c
    decreases c.it, 1
  {
    [c] + Below(c)
  }

  /** The positions strictly below `c`. */
  function Below<L, N>(c: Cursor<L, N>): seq<Cursor<L, N>>
    decreases c.it, 0
  {
    if c.it.Node? then Visits(c.GoLeft().value) + Visits(c.GoRight().value) else []
  }

  /** The positions after the whole subtree at `c`. */
  function Later<L, N>(c: Cursor<L, N>): seq<Cursor<L, N>>
    decreases c.path
  {
    match c.path
    case Top => []
    case Left(_, _, _) => var parent := c.GoUp().value; Visits(parent.GoRight().value) + Later(parent)
    case Right(_, _, _) => Later(c.GoUp().value)
  }

  function After<L, N>(c: Cursor<L, N>): seq<Cursor<L, N>> {
    Below(c) + Later(c)
  }

  /** What one traversal step promises: the next position if there is one, else the root. */
  function PreorderSuccessor<L, N>(c: Cursor<L, N>): Result<Cursor<L, N>, Cursor<L, N>> {
    if c.it.Empty? then Err(c)
    else if After(c) == [] then Err(c.Root())
    else Ok(After(c)[0])
  }

  /** The number of single moves that one step makes. */
  function PreorderMoves<L, N>(c: Cursor<L, N>): nat {
    match c.it
    case Empty => 0
    case Node(_, _, _) => 1
    case Leaf(_) => ClimbMoves(c.path)
  }

  /** From a position whose subtree is done: up to the first left branch and over it, or up to the root. */
  function ClimbMoves<L, N>(path: Path<L, N>): nat {
    match path
    case Top => 0
    case Left(_, _, _) => 2
    case Right(_, _, up) => 1 + ClimbMoves(up)
  }

  method PreorderNext<L, N>(c: Cursor<L, N>) returns (r: Result<Cursor<L, N>, Cursor<L, N>>, ghost moves: nat)
    ensures r == PreorderSuccessor(c)
    ensures moves == PreorderMoves(c)
  {
    var self := c;
    moves := 0;
    if self.IsLeaf() {
      if self.IsLeft() {
        return self.GoUp().value.GoRight(), 2;
      }
      while true
        invariant self.it != Empty && !self.IsLeft()
        invariant Later(self) == Later(c) && self.Whole() == c.Whole()
        invariant self.IsTop() ==> self == c
        invariant moves + ClimbMoves(self.path) == ClimbMoves(c.path)
        decreases self.path
      {
        match self.GoUp() {
          case Err(top) => return Err(top), moves;
          case Ok(up) => self := up;
        }
        moves := moves + 1;
        if self.IsTop() {
          return Err(self), moves;
        }
        if self.IsLeft() {
          return self.GoUp().value.GoRight(), moves + 2;
        }
      }
    } else {
      r := self.GoLeft();
      moves := if r.Ok? then 1 else 0;
    }
  }

  /** Away from leaves a step is `GoLeft`, also where that fails. */
  lemma PreorderDescends<L, N>(c: Cursor<L, N>)
    ensures !c.it.Leaf? ==> PreorderSuccessor(c) == c.GoLeft()
    ensures c.it.Leaf? && c.path.Left? ==> PreorderSuccessor(c) == c.GoUp().value.GoRight()
    ensures c.it.Leaf? && c.path.Top? ==> PreorderSuccessor(c) == Err(c)
  {
  }

  // ----- The walk

  /** One step shortens what is left by exactly the position it moves to. */
  lemma {:induction false} LaterStep<L, N>(c: Cursor<L, N>)
    requires Later(c) != []
    ensures After(Later(c)[0]) == Later(c)[1..]
    ensures Later(c)[0].Whole() == c.Whole()
    ensures Later(c)[0].path.LeavesBefore() == c.path.LeavesBefore() + c.it.Leaves()
    decreases c.path
  {
    var parent := c.GoUp().value;
    match c.path
    case Left(_, _, _) =>
      var sibling := parent.GoRight().value;
      assert Later(c) == [sibling] + (Below(sibling) + Later(parent));
    case Right(_, _, _) =>
      LaterStep(parent);
  }

  lemma {:induction false} AfterStep<L, N>(c: Cursor<L, N>)
    requires After(c) != []
    ensures After(After(c)[0]) == After(c)[1..]
    ensures After(c)[0].Whole() == c.Whole()
    ensures After(c)[0].path.LeavesBefore() == c.path.LeavesBefore() + if c.it.Node? then [] else c.it.Leaves()
  {
    if c.it.Node? {
      var left, right := c.GoLeft().value, c.GoRight().value;
      assert Later(left) == Visits(right) + Later(c);
      assert Below(c) + Later(c) == Visits(left) + (Visits(right) + Later(c));
      assert After(c) == [left] + (Below(left) + Later(left));
    } else {
      LaterStep(c);
    }
  }

  lemma {:induction false} AfterFrom<L, N>(c: Cursor<L, N>, i: nat)
    requires i < |After(c)|
    ensures After(After(c)[i]) == After(c)[i + 1..]
    ensures After(c)[i].Whole() == c.Whole()
    decreases i
  {
    AfterStep(c);
    if i != 0 {
      AfterFrom(After(c)[0], i - 1);
    }
  }

  lemma {:induction false} VisitsUpwards<L, N>(c: Cursor<L, N>)
    ensures c in Visits(c.Root())
    decreases c.path
  {
    VisitsWithin(c, c);
  }

  lemma {:induction false} VisitsWithin<L, N>(c: Cursor<L, N>, d: Cursor<L, N>)
    requires d in Visits(c)
    ensures d in Visits(c.Root())
    decreases c.path
  {
    if c.path != Top {
      var parent := c.GoUp().value;
      assert d in Visits(parent);
      VisitsWithin(parent, d);
    }
  }

  /**
    A preorder walk from the root of a proper tree: each step goes to the next position in
    node-left-right order, the last step returns the root in `Err`, no position is visited
    twice, and the positions visited are all the positions of the tree.
   */
  lemma PreorderWalk<L, N>(t: Tree<L, N>)
    requires t.HasNoEmpty()
    ensures var vs := Visits(t.AsCursor());
      && vs[0] == t.AsCursor()
      && (forall i :: 0 <= i < |vs| - 1 ==> PreorderSuccessor(vs[i]) == Ok(vs[i + 1]))
      && PreorderSuccessor(vs[|vs| - 1]) == Err(t.AsCursor())
      && (forall i, j :: 0 <= i < j < |vs| ==> vs[i] != vs[j])
      && (forall c :: c in vs <==> c.Whole() == t)
      && |vs| == 2 * t.NumLeaves() - 1
  {
    hide Visits, After, PreorderSuccessor;
    var root := t.AsCursor();
    var vs := Visits(root);
    VisitCount(root);
    forall i | 0 <= i < |vs|
      ensures |After(vs[i])| == |vs| - i - 1
      ensures PreorderSuccessor(vs[i]) == if i + 1 < |vs| then Ok(vs[i + 1]) else Err(root)
    {
      VisitStep(t, i);
    }
    VisitStep(t, |vs| - 1);
    forall i, j | 0 <= i < j < |vs|
      ensures vs[i] != vs[j]
    {
      assert |After(vs[i])| != |After(vs[j])|;
    }
    forall c
      ensures c in vs <==> c.Whole() == t
    {
      VisitsAll(t, c);
    }
  }

  /** The step from one position of a walk. */
  lemma VisitStep<L, N>(t: Tree<L, N>, i: nat)
    requires t.HasNoEmpty() && i < |Visits(t.AsCursor())|
    ensures var vs := Visits(t.AsCursor());
      && vs[i].Whole() == t
      && After(vs[i]) == vs[i + 1..]
      && PreorderSuccessor(vs[i]) == if i + 1 < |vs| then Ok(vs[i + 1]) else Err(t.AsCursor())
  {
    var root := t.AsCursor();
    assert Visits(root) == [root] + After(root);
    if i != 0 {
      AfterFrom(root, i - 1);
    }
    ProperWhole(Visits(root)[i]);
  }

  lemma VisitsAll<L, N>(t: Tree<L, N>, c: Cursor<L, N>)
    requires t.HasNoEmpty()
    ensures c in Visits(t.AsCursor()) <==> c.Whole() == t
  {
    hide Visits;
    var vs := Visits(t.AsCursor());
    if c in vs {
      var i: nat :| i < |vs| && vs[i] == c;
      VisitStep(t, i);
    }
    VisitsUpwards(c);
  }

  lemma {:induction false} VisitCount<L, N>(c: Cursor<L, N>)
    requires c.it.HasNoEmpty()
    ensures |Visits(c)| == 2 * c.it.NumLeaves() - 1
    decreases c.it
  {
    if c.it.Node? {
      VisitCount(c.GoLeft().value);
      VisitCount(c.GoRight().value);
    }
  }

  // ----- The cost of a walk

  function WalkMoves<L, N>(vs: seq<Cursor<L, N>>): nat {
    if vs == [] then 0 else PreorderMoves(vs[0]) + WalkMoves(vs[1..])
  }

  lemma {:induction false} WalkMovesConcat<L, N>(a: seq<Cursor<L, N>>, b: seq<Cursor<L, N>>)
    ensures WalkMoves(a + b) == WalkMoves(a) + WalkMoves(b)
  {
    if a == [] {
      assert a + b == b;
    } else {
      assert (a + b)[1..] == a[1..] + b;
      WalkMovesConcat(a[1..], b);
    }
  }

  /** Walking a subtree and leaving it crosses every edge below it twice. */
  lemma {:induction false} SubtreeMoves<L, N>(c: Cursor<L, N>)
    requires c.it.HasNoEmpty()
    ensures WalkMoves(Visits(c)) == 4 * c.it.NumLeaves() - 4 + ClimbMoves(c.path)
    decreases c.it
  {
    if c.it.Node? {
      var left, right := c.GoLeft().value, c.GoRight().value;
      SubtreeMoves(left);
      SubtreeMoves(right);
      WalkMovesConcat(Visits(left), Visits(right));
      assert Visits(c)[1..] == Visits(left) + Visits(right);
    }
  }

  /** A whole walk over n leaves makes 4n - 4 single moves, over 2n - 2 successful steps and the failing one. */
  lemma PreorderWalkCost<L, N>(t: Tree<L, N>)
    requires t.HasNoEmpty()
    ensures WalkMoves(Visits(t.AsCursor())) == 4 * t.NumLeaves() - 4
  {
    SubtreeMoves(t.AsCursor());
  }

  // ----- Leaf search

  /** The search read off a sequence of positions: the `n`-th leaf, or where the walk stops. */
  function NthLeaf<L, N>(vs: seq<Cursor<L, N>>, n: nat, end: Cursor<L, N>): Result<Cursor<L, N>, Cursor<L, N>> {
    if vs == [] then Err(end)
    else if vs[0].it.Empty? then Err(vs[0])
    else if !vs[0].it.Leaf? then NthLeaf(vs[1..], n, end)
    else if n == 0 then Ok(vs[0])
    else NthLeaf(vs[1..], n - 1, end)
  }

  function NthLeafFrom<L, N>(c: Cursor<L, N>, n: nat): Result<Cursor<L, N>, Cursor<L, N>> {
    NthLeaf([c] + After(c), n, c.Root())
  }

  method GoToNthLeaf<L, N>(c: Cursor<L, N>, n: nat) returns (r: Result<Cursor<L, N>, Cursor<L, N>>)
    ensures r == NthLeafFrom(c, n)
  {
    var self := c;
    var next := 0;
    while true
      invariant next <= n
      invariant NthLeafFrom(self, n - next) == NthLeafFrom(c, n)
      decreases |After(self)|
    {
      ghost var here, wanted := self, n - next;
      if self.IsLeaf() {
        if next == n {
          return Ok(self);
        }
        next := next + 1;
      }
      NthLeafStep(here, wanted);
      ghost var moves;
      var step;
      step, moves := PreorderNext(self);
      match step
      case Ok(c') => self := c';
      case Err(end) => return Err(end);
    }
  }

  lemma NthLeafStep<L, N>(c: Cursor<L, N>, n: nat)
    requires c.it.Leaf? ==> n != 0
    ensures match PreorderSuccessor(c)
      case Ok(d) =>
        && NthLeafFrom(c, n) == NthLeafFrom(d, if c.it.Leaf? then n - 1 else n)
        && |After(d)| < |After(c)|
      case Err(end) => NthLeafFrom(c, n) == Err(end)
  {
    var vs := [c] + After(c);
    assert vs[1..] == After(c);
    if After(c) == [] {
      assert c.it.Leaf? ==> NthLeaf(vs[1..], n - 1, c.Root()) == Err(c.Root());
    } else {
      AfterStep(c);
      assert After(c) == [After(c)[0]] + After(After(c)[0]);
    }
  }

  /**
    From any position of a proper tree, the search for `n` succeeds exactly when that many
    leaves remain at or after the position, and then it is at the leaf with `n` more leaves
    before it; otherwise it returns the root.
   */
  lemma {:induction false} NthLeafFound<L, N>(c: Cursor<L, N>, n: nat)
    requires c.Whole().IsProper()
    ensures NthLeafFrom(c, n).Ok? <==> n < c.it.NumLeaves() + |c.path.LeavesAfter()|
    ensures match NthLeafFrom(c, n)
      case Ok(d) =>
        && d.Whole() == c.Whole()
        && d.it.Leaf?
        && |d.path.LeavesBefore()| == |c.path.LeavesBefore()| + n
      case Err(end) => end == c.Root()
    decreases |After(c)|
  {
    ProperWhole(c);
    LeavesOfWhole(c);
    if c.it.Empty? {
      assert c == c.Root();
    } else if !(c.it.Leaf? && n == 0) {
      NthLeafStep(c, n);
      if After(c) != [] {
        AfterStep(c);
        var d := After(c)[0];
        NthLeafFound(d, if c.it.Leaf? then n - 1 else n);
        LeavesOfWhole(d);
      } else {
        NothingLater(c);
      }
    }
  }

  lemma {:induction false} NothingLater<L, N>(c: Cursor<L, N>)
    requires Later(c) == []
    ensures c.path.LeavesAfter() == []
    decreases c.path
  {
    if c.path != Top {
      NothingLater(c.GoUp().value);
    }
  }

  /** The leaf that a search lands on is that leaf of the whole tree, and from the root `num_leaves` decides. */
  lemma NthLeafIsNth<L, N>(t: Tree<L, N>, n: nat)
    requires t.IsProper()
    ensures match NthLeafFrom(t.AsCursor(), n)
      case Ok(d) => n < t.NumLeaves() && d.it == Leaf(t.Leaves()[n])
      case Err(end) => n >= t.NumLeaves() && end == t.AsCursor()
  {
    NthLeafFound(t.AsCursor(), n);
    match NthLeafFrom(t.AsCursor(), n)
    case Ok(d) => LeavesOfWhole(d);
    case Err(_) =>
  }
}
