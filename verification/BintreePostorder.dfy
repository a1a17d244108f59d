/**
  The second traversal. It is the first one with left and right exchanged, so it visits nodes
  in node-right-left order. That is not the postorder its comment announces but the reverse of
  it: reading a walk backwards gives left-right-node order.
 */
module BintreePostorder {
  import opened Wrappers
  import opened Bintree
  import opened BintreeTraversal

  // ----- Mirroring

  function MirrorTree<L, N>(t: Tree<L, N>): Tree<L, N> {
    match t
    case Node(left, right, data) => Node(MirrorTree(right), MirrorTree(left), data)
    case _ => t
  }

  function MirrorPath<L, N>(path: Path<L, N>): Path<L, N> {
    match path
    case Top => Top
    case Left(right, data, up) => Right(MirrorTree(right), data, MirrorPath(up))
    case Right(left, data, up) => Left(MirrorTree(left), data, MirrorPath(up))
  }

  function Mirror<L, N>(c: Cursor<L, N>): Cursor<L, N> {
    Cursor(MirrorTree(c.it), MirrorPath(c.path))
  }

  function MirrorResult<L, N>(r: Result<Cursor<L, N>, Cursor<L, N>>): Result<Cursor<L, N>, Cursor<L, N>> {
    match r
    case Ok(c) => Ok(Mirror(c))
    case Err(c) => Err(Mirror(c))
  }

  function MirrorAll<L, N>(cs: seq<Cursor<L, N>>): (ms: seq<Cursor<L, N>>)
    ensures |ms| == |cs|
    ensures forall i :: 0 <= i < |cs| ==> ms[i] == Mirror(cs[i])
  {
    if cs == [] then [] else [Mirror(cs[0])] + MirrorAll(cs[1..])
  }

  lemma {:induction false} MirrorTreeTwice<L, N>(t: Tree<L, N>)
    ensures MirrorTree(MirrorTree(t)) == t
  {
    match t
    case Node(left, right, _) =>
      MirrorTreeTwice(left);
      MirrorTreeTwice(right);
    case _ =>
  }

  lemma {:induction false} MirrorTwice<L, N>(c: Cursor<L, N>)
    ensures Mirror(Mirror(c)) == c
    decreases c.path
  {
    MirrorTreeTwice(c.it);
    match c.path
    case Top =>
    case Left(right, data, up) =>
      MirrorTreeTwice(right);
      MirrorTwice(Cursor(c.it, up));
    case Right(left, data, up) =>
      MirrorTreeTwice(left);
      MirrorTwice(Cursor(c.it, up));
  }

  /** Moves commute with mirroring, left for right. */
  lemma MirrorMoves<L, N>(c: Cursor<L, N>)
    ensures Mirror(c).GoLeft() == MirrorResult(c.GoRight())
    ensures Mirror(c).GoRight() == MirrorResult(c.GoLeft())
    ensures Mirror(c).GoUp() == MirrorResult(c.GoUp())
  {
  }

  lemma {:induction false} MirrorWhole<L, N>(c: Cursor<L, N>)
    ensures Mirror(c).Whole() == MirrorTree(c.Whole())
    decreases c.path
  {
    if c.path != Top {
      MirrorMoves(c);
      MirrorWhole(c.GoUp().value);
    }
  }

  lemma {:induction false} MirrorHasNoEmpty<L, N>(t: Tree<L, N>)
    ensures MirrorTree(t).HasNoEmpty() == t.HasNoEmpty()
    ensures MirrorTree(t).NumLeaves() == t.NumLeaves()
  {
    match t
    case Node(left, right, _) =>
      MirrorHasNoEmpty(left);
      MirrorHasNoEmpty(right);
    case _ =>
  }

  // ----- The traversal

  /** The step of the first traversal, seen in a mirror. */
  function PostorderSuccessor<L, N>(c: Cursor<L, N>): Result<Cursor<L, N>, Cursor<L, N>> {
    MirrorResult(PreorderSuccessor(Mirror(c)))
  }

  method PostorderNext<L, N>(c: Cursor<L, N>) returns (r: Result<Cursor<L, N>, Cursor<L, N>>)
    ensures r == PostorderSuccessor(c)
  {
    var self := c;
    MirrorTwice(c);
    MirrorWhole(c);
    if self.IsLeaf() {
      if self.IsRight() {
        r := self.GoUp().value.GoLeft();
        SiblingIsNext(self);
        return r;
      }
      while true
        invariant self.it != Empty && !self.IsRight()
        invariant Later(Mirror(self)) == Later(Mirror(c)) && self.Whole() == c.Whole()
        invariant self.IsTop() ==> self == c
        decreases self.path
      {
        MirrorMoves(self);
        match self.GoUp() {
          case Err(top) => return Err(top);
          case Ok(up) => self := up;
        }
        if self.IsTop() {
          MirrorTwice(self);
          return Err(self);
        }
        if self.IsRight() {
          SiblingIsNext(self);
          return self.GoUp().value.GoLeft();
        }
      }
    } else {
      r := self.GoRight();
      MirrorMoves(c);
      if c.it.Node? {
        MirrorTwice(r.value);
      }
    }
  }

  /** At a right branch, the next position in the mirror is the sibling on the left. */
  lemma SiblingIsNext<L, N>(c: Cursor<L, N>)
    requires c.path.Right?
    ensures var sibling := c.GoUp().value.GoLeft();
      sibling.Ok? && Later(Mirror(c)) != [] && Mirror(Later(Mirror(c))[0]) == sibling.value
  {
    var parent := c.GoUp().value;
    MirrorMoves(c);
    MirrorMoves(parent);
    MirrorTwice(parent.GoLeft().value);
  }

  // ----- The order of the walk

  /** Positions in node-right-left order. */
  function VisitsRightToLeft<L, N>(c: Cursor<L, N>): (vs: seq<Cursor<L, N>>)
    decreases c.it
  {
    if c.it.Node? then
      [c] + VisitsRightToLeft(c.GoRight().value) + VisitsRightToLeft(c.GoLeft().value)
    else [c]
  }

  /** Positions in left-right-node order, the true postorder. */
  function VisitsPostorder<L, N>(c: Cursor<L, N>): (vs: seq<Cursor<L, N>>)
    decreases c.it
  {
    if c.it.Node? then
      VisitsPostorder(c.GoLeft().value) + VisitsPostorder(c.GoRight().value) + [c]
    else [c]
  }

  function Reversed<T>(s: seq<T>): (r: seq<T>)
    ensures |r| == |s|
    ensures forall i :: 0 <= i < |s| ==> r[i] == s[|s| - 1 - i]
  {
    if s == [] then [] else Reversed(s[1..]) + [s[0]]
  }

  lemma {:induction false} ReversedConcat<T>(a: seq<T>, b: seq<T>)
    ensures Reversed(a + b) == Reversed(b) + Reversed(a)
  {
    forall i | 0 <= i < |a + b|
      ensures Reversed(a + b)[i] == (Reversed(b) + Reversed(a))[i]
    {
    }
  }

  lemma {:induction false} ReverseOfPostorder<L, N>(c: Cursor<L, N>)
    ensures Reversed(VisitsRightToLeft(c)) == VisitsPostorder(c)
    decreases c.it
  {
    if c.it.Node? {
      var left, right := c.GoLeft().value, c.GoRight().value;
      ReverseOfPostorder(left);
      ReverseOfPostorder(right);
      ReversedConcat([c] + VisitsRightToLeft(right), VisitsRightToLeft(left));
      ReversedConcat([c], VisitsRightToLeft(right));
      assert Reversed([c]) == [c];
    }
  }

  lemma {:induction false} MirrorAllConcat<L, N>(a: seq<Cursor<L, N>>, b: seq<Cursor<L, N>>)
    ensures MirrorAll(a + b) == MirrorAll(a) + MirrorAll(b)
  {
    forall i | 0 <= i < |a + b|
      ensures MirrorAll(a + b)[i] == (MirrorAll(a) + MirrorAll(b))[i]
    {
    }
  }

  lemma {:induction false} MirroredVisits<L, N>(c: Cursor<L, N>)
    ensures MirrorAll(Visits(Mirror(c))) == VisitsRightToLeft(c)
    decreases c.it
  {
    MirrorTwice(c);
    if c.it.Node? {
      var left, right := c.GoLeft().value, c.GoRight().value;
      MirrorMoves(c);
      MirroredVisits(left);
      MirroredVisits(right);
      var m := Mirror(c);
      assert Visits(m) == [m] + (Visits(Mirror(right)) + Visits(Mirror(left)));
      MirrorAllConcat([m], Visits(Mirror(right)) + Visits(Mirror(left)));
      MirrorAllConcat(Visits(Mirror(right)), Visits(Mirror(left)));
    }
  }

  /**
    A walk with `PostorderNext` from the root of a proper tree visits every position once, in
    node-right-left order, and ends with the root in `Err`.
   */
  lemma {:induction false} PostorderWalk<L, N>(t: Tree<L, N>)
    requires t.HasNoEmpty()
    ensures var vs := VisitsRightToLeft(t.AsCursor());
      && |vs| == 2 * t.NumLeaves() - 1
      && vs[0] == t.AsCursor()
      && (forall i :: 0 <= i < |vs| - 1 ==> PostorderSuccessor(vs[i]) == Ok(vs[i + 1]))
      && PostorderSuccessor(vs[|vs| - 1]) == Err(t.AsCursor())
      && (forall i, j :: 0 <= i < j < |vs| ==> vs[i] != vs[j])
      && (forall c :: c in vs <==> c.Whole() == t)
  {
    var root, mirrored := t.AsCursor(), MirrorTree(t);
    var vs, ms := VisitsRightToLeft(root), Visits(mirrored.AsCursor());
    MirrorHasNoEmpty(t);
    PreorderWalk(mirrored);
    MirroredVisits(root);
    MirrorTwice(root);
    assert Mirror(root) == mirrored.AsCursor();
    forall i | 0 <= i < |vs|
      ensures vs[i] == Mirror(ms[i]) && ms[i] == Mirror(vs[i])
    {
      MirrorTwice(ms[i]);
    }
    forall c
      ensures c in vs <==> c.Whole() == t
    {
      InMirror(c, vs, ms);
      MirrorWhole(c);
      MirrorTreeTwice(t);
      MirrorTreeTwice(c.Whole());
    }
  }

  lemma InMirror<L, N>(c: Cursor<L, N>, vs: seq<Cursor<L, N>>, ms: seq<Cursor<L, N>>)
    requires |vs| == |ms|
    requires forall i :: 0 <= i < |vs| ==> vs[i] == Mirror(ms[i]) && ms[i] == Mirror(vs[i])
    ensures c in vs <==> Mirror(c) in ms
  {
    MirrorTwice(c);
  }

  // ----- The true postorder

  /** The positions after `c` in left-right-node order. */
  function LaterInPostorder<L, N>(c: Cursor<L, N>): seq<Cursor<L, N>>
    decreases c.path
  {
    match c.path
    case Top => []
    case Left(_, _, _) =>
      var parent := c.GoUp().value;
      VisitsPostorder(parent.GoRight().value) + [parent] + LaterInPostorder(parent)
    case Right(_, _, _) =>
      var parent := c.GoUp().value;
      [parent] + LaterInPostorder(parent)
  }

  /** A step in true postorder. */
  function TruePostorderSuccessor<L, N>(c: Cursor<L, N>): Result<Cursor<L, N>, Cursor<L, N>> {
    if LaterInPostorder(c) == [] then Err(c.Root()) else Ok(LaterInPostorder(c)[0])
  }

  lemma {:induction false} LaterThanFirst<L, N>(c: Cursor<L, N>)
    ensures VisitsPostorder(c) != []
    ensures LaterInPostorder(VisitsPostorder(c)[0]) == VisitsPostorder(c)[1..] + LaterInPostorder(c)
    decreases c.it
  {
    if c.it.Node? {
      var left, right := c.GoLeft().value, c.GoRight().value;
      var ls, rs, later := VisitsPostorder(left), VisitsPostorder(right), LaterInPostorder(c);
      LaterThanFirst(left);
      assert VisitsPostorder(c) == ls + (rs + [c]);
      assert LaterInPostorder(left) == rs + [c] + later;
      assert ls[1..] + (rs + [c] + later) == (ls + (rs + [c]))[1..] + later;
    } else {
      assert VisitsPostorder(c)[1..] == [];
    }
  }

  lemma {:induction false} PostorderStep<L, N>(c: Cursor<L, N>)
    requires LaterInPostorder(c) != []
    ensures LaterInPostorder(LaterInPostorder(c)[0]) == LaterInPostorder(c)[1..]
  {
    if c.path.Left? {
      var parent := c.GoUp().value;
      var sibling := parent.GoRight().value;
      LaterThanFirst(sibling);
      var vs, later := VisitsPostorder(sibling), LaterInPostorder(parent);
      assert LaterInPostorder(sibling) == [parent] + later;
      assert vs[1..] + ([parent] + later) == (vs + [parent] + later)[1..];
    }
  }

  /** The true step walks through the true postorder: from its first position to the root, its last. */
  lemma {:induction false} TruePostorderWalk<L, N>(t: Tree<L, N>, i: nat)
    requires i < |VisitsPostorder(t.AsCursor())|
    ensures var vs := VisitsPostorder(t.AsCursor());
      && LaterInPostorder(vs[i]) == vs[i + 1..]
      && (i + 1 < |vs| ==> TruePostorderSuccessor(vs[i]) == Ok(vs[i + 1]))
      && vs[|vs| - 1] == t.AsCursor()
    decreases i
  {
    var c := t.AsCursor();
    LaterThanFirst(c);
    if i == 0 {
      assert VisitsPostorder(c)[1..] + [] == VisitsPostorder(c)[1..];
    } else {
      TruePostorderWalk(t, i - 1);
      PostorderStep(VisitsPostorder(c)[i - 1]);
    }
  }

  function Depth<L, N>(path: Path<L, N>): nat {
    match path
    case Top => 0
    case Left(_, _, up) => Depth(up) + 1
    case Right(_, _, up) => Depth(up) + 1
  }

  /** The first position of a subtree in postorder is its top, or is below it and a left child. */
  lemma {:induction false} FirstInPostorder<L, N>(c: Cursor<L, N>)
    ensures var first := VisitsPostorder(c)[0];
      && VisitsPostorder(c) != []
      && Depth(first.path) >= Depth(c.path)
      && (if c.it.Node? then first.path.Left? else first == c)
    decreases c.it
  {
    if c.it.Node? {
      FirstInPostorder(c.GoLeft().value);
      assert VisitsPostorder(c)[0] == VisitsPostorder(c.GoLeft().value)[0];
    }
  }

  lemma {:induction false} DepthOfMirror<L, N>(path: Path<L, N>)
    ensures Depth(MirrorPath(path)) == Depth(path)
  {
    if path != Top {
      DepthOfMirror(path.up);
    }
  }

  /** After a subtree the code goes on above its top, unless the top is a right child. */
  lemma {:induction false} GoesOnAbove<L, N>(c: Cursor<L, N>)
    requires Later(Mirror(c)) != []
    ensures Depth(Later(Mirror(c))[0].path) <= Depth(c.path)
    ensures c.path.Left? ==> Depth(Later(Mirror(c))[0].path) < Depth(c.path)
    decreases c.path
  {
    MirrorMoves(c);
    if c.path.Left? {
      GoesOnAbove(c.GoUp().value);
    } else {
      DepthOfMirror(c.path);
    }
  }

  /** Away from leaves a step is `GoRight`, also where that fails. */
  lemma PostorderDescends<L, N>(c: Cursor<L, N>)
    requires !c.it.Leaf?
    ensures PostorderSuccessor(c) == c.GoRight()
  {
    MirrorMoves(c);
    MirrorTwice(c);
    if c.it.Node? {
      MirrorTwice(c.GoRight().value);
    }
  }

  lemma FromRightLeaf<L, N>(c: Cursor<L, N>)
    requires c.it.Leaf? && c.path.Right?
    ensures PostorderSuccessor(c) == c.GoUp().value.GoLeft()
  {
    SiblingIsNext(c);
  }

  lemma FromLeftLeaf<L, N>(c: Cursor<L, N>)
    requires c.it.Leaf? && c.path.Left? && PostorderSuccessor(c).Ok?
    ensures Depth(PostorderSuccessor(c).value.path) < Depth(c.path)
  {
    GoesOnAbove(c);
    DepthOfMirror(Later(Mirror(c))[0].path);
  }

  /**
    From any position, a step of the code is the next step of the true postorder exactly when
    the position is a whole tree that is not a node, where neither has a next step.
   */
  lemma StepIsPostorderOnlyForLeaf<L, N>(c: Cursor<L, N>)
    ensures PostorderSuccessor(c) == TruePostorderSuccessor(c) <==> c.path.Top? && !c.it.Node?
  {
    MirrorTwice(c);
    if c.path.Left? {
      var sibling := c.GoUp().value.GoRight().value;
      FirstInPostorder(sibling);
      assert LaterInPostorder(c)[0] == VisitsPostorder(sibling)[0];
    }
    match c.it
    case Empty =>
    case Node(_, _, _) =>
      PostorderDescends(c);
      assert Depth(c.GoRight().value.path) == Depth(c.path) + 1;
    case Leaf(_) =>
      match c.path {
        case Top => MirrorTwice(c.Root());
        case Right(_, _, _) =>
          FromRightLeaf(c);
          assert Depth(c.GoUp().value.GoLeft().value.path) == Depth(c.path);
        case Left(_, _, _) => if PostorderSuccessor(c).Ok? { FromLeftLeaf(c); }
      }
  }

  /** And a whole walk is in postorder only for such a tree. */
  lemma PostorderOnlyForLeaf<L, N>(t: Tree<L, N>)
    ensures VisitsRightToLeft(t.AsCursor()) == VisitsPostorder(t.AsCursor()) <==> !t.Node?
  {
    var c := t.AsCursor();
    if t.Node? {
      FirstInPostorder(c);
    }
  }
}
