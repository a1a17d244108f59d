/**
  The binary tree and its zipper cursor.

  A tree and a cursor are owned values that every operation consumes and returns, so they are
  datatypes here, and an operation that needs no loop is a function. The operations with a
  loop are methods that reassign `self`; each is proved against a function on values: for the
  traversals, on the sequences of cursors in `BintreeTraversal`.
 */
module Bintree {
  import opened Wrappers

  datatype Tree<L, N> =
    | Empty
    | Node(left: Tree<L, N>, right: Tree<L, N>, data: Option<N>)
    | Leaf(leaf: L)
  {
    function AsCursor(): Cursor<L, N> {
      Cursor(this, Top)
    }

    /** The leaf values from left to right. */
    function Leaves(): seq<L> {
      match this
      case Empty => []
      case Leaf(l) => [l]
      case Node(l, r, _) => l.Leaves() + r.Leaves()
    }

    function NumLeaves(): (n: nat)
      ensures n == |Leaves()|
    {
      match this
      case Empty => 0
      case Leaf(_) => 1
      case Node(l, r, _) => l.NumLeaves() + r.NumLeaves()
    }

    predicate HasNoEmpty() {
      match this
      case Empty => false
      case Leaf(_) => true
      case Node(l, r, _) => l.HasNoEmpty() && r.HasNoEmpty()
    }

    /** Every node has two children; `Empty` is at most the whole tree. */
    predicate IsProper() {
      Empty? || HasNoEmpty()
    }
  }

  /** Where a cursor is, read from the current position back towards the root. */
  datatype Path<L, N> =
    | Top
    | Left(right: Tree<L, N>, data: Option<N>, up: Path<L, N>)
    | Right(left: Tree<L, N>, data: Option<N>, up: Path<L, N>)
  {
    predicate HasNoEmpty() {
      match this
      case Top => true
      case Left(t, _, up) => t.HasNoEmpty() && up.HasNoEmpty()
      case Right(t, _, up) => t.HasNoEmpty() && up.HasNoEmpty()
    }

    /** The leaves to the left of the position, in order. */
    function LeavesBefore(): seq<L> {
      match this
      case Top => []
      case Left(_, _, up) => up.LeavesBefore()
      case Right(t, _, up) => up.LeavesBefore() + t.Leaves()
    }

    /** The leaves to the right of the position, in order. */
    function LeavesAfter(): seq<L> {
      match this
      case Top => []
      case Left(t, _, up) => t.Leaves() + up.LeavesAfter()
      case Right(_, _, up) => up.LeavesAfter()
    }
  }

  datatype PathBranch = IsLeft | IsRight

  datatype Cursor<L, N> = Cursor(it: Tree<L, N>, path: Path<L, N>) {

    /** A new empty tree. */
    static function New(): Cursor<L, N> {
      Cursor(Empty, Top)
    }

    predicate IsLeaf() {
      it.Leaf?
    }

    predicate IsLeft() {
      path.Left?
    }

    predicate IsRight() {
      path.Right?
    }

    predicate IsTop() {
      path.Top?
    }

    // ----- Edits

    function AssignTop(leaf: L): Result<Cursor<L, N>, Cursor<L, N>> {
      if it.Empty? && path.Top? then Ok(Cursor(Leaf(leaf), path)) else Err(this)
    }

    function UnsplitLeaf(): Result<(Cursor<L, N>, L, Option<N>), Cursor<L, N>> {
      if !IsLeaf() || IsTop() then Err(this) else
        match path
        case Left(right, data, up) => Ok((Cursor(right, up), it.leaf, data))
        case Right(left, data, up) => Ok((Cursor(left, up), it.leaf, data))
    }

    function SplitNodeAndInsertLeft(toInsert: L): Result<Cursor<L, N>, Cursor<L, N>> {
      match it
      case Node(left, right, data) => Ok(Cursor(Node(Leaf(toInsert), Node(left, right, data), None), path))
      case _ => Err(this)
    }

    function SplitNodeAndInsertRight(toInsert: L): Result<Cursor<L, N>, Cursor<L, N>> {
      match it
      case Node(left, right, data) => Ok(Cursor(Node(Node(left, right, data), Leaf(toInsert), None), path))
      case _ => Err(this)
    }

    function SplitLeafAndInsertRight(right: L): Result<Cursor<L, N>, Cursor<L, N>> {
      match it
      case Leaf(left) => Ok(Cursor(Node(Leaf(left), Leaf(right), None), path))
      case _ => Err(this)
    }

    function SplitLeafAndInsertLeft(left: L): Result<Cursor<L, N>, Cursor<L, N>> {
      match it
      case Leaf(right) => Ok(Cursor(Node(Leaf(left), Leaf(right), None), path))
      case _ => Err(this)
    }

    /** The result of `AssignNode`, for use in specifications. */
    function WithNodeData(value: Option<N>): Result<Cursor<L, N>, Cursor<L, N>> {
      if it.Node? then Ok(Cursor(it.(data := value), path)) else Err(this)
    }

    /** At a node: the same position, children and leaves, with new data. Elsewhere: the unchanged cursor. */
    method AssignNode(value: Option<N>) returns (r: Result<Cursor<L, N>, Cursor<L, N>>)
      ensures r.Ok? <==> it.Node?
      ensures r.Ok? ==>
        && r.value.path == path
        && r.value.it == Node(it.left, it.right, value)
        && r.value.Whole().Leaves() == Whole().Leaves()
      ensures r.Err? ==> r.error == this
      ensures r == WithNodeData(value)
    {
      var self := this;
      match self.it
      case Node(_, _, _) =>
        self := self.(it := self.it.(data := value));
        r := Ok(self);
        NodeDataReplaced(this, value);
      case _ =>
        r := Err(self);
    }

    // ----- Moves

    function GoLeft(): Result<Cursor<L, N>, Cursor<L, N>> {
      match it
      case Node(left, right, data) => Ok(Cursor(left, Left(right, data, path)))
      case _ => Err(this)
    }

    function GoRight(): Result<Cursor<L, N>, Cursor<L, N>> {
      match it
      case Node(left, right, data) => Ok(Cursor(right, Right(left, data, path)))
      case _ => Err(this)
    }

    function GoUp(): Result<Cursor<L, N>, Cursor<L, N>> {
      match path
      case Top => Err(this)
      case Right(left, data, up) => Ok(Cursor(Node(left, it, data), up))
      case Left(right, data, up) => Ok(Cursor(Node(it, right, data), up))
    }

    function GoTo(branch: PathBranch): Result<Cursor<L, N>, Cursor<L, N>> {
      match branch
      case IsLeft => GoLeft()
      case IsRight => GoRight()
    }

    // ----- The whole tree

    /** The tree that the cursor is a position in. */
    function Whole(): Tree<L, N>
      decreases path
    {
      match path
      case Top => it
      case Left(right, data, up) => Cursor(Node(it, right, data), up).Whole()
      case Right(left, data, up) => Cursor(Node(left, it, data), up).Whole()
    }

    function Root(): Cursor<L, N> {
      Whole().AsCursor()
    }

    /** Climbs to the root and returns it. */
    method IntoTree() returns (t: Tree<L, N>)
      ensures t == Whole()
    {
      var self := this;
      while true
        invariant self.Whole() == Whole()
        decreases self.path
      {
        match self.GoUp()
        case Ok(up) => self := up;
        case Err(top) => return top.it;
      }
    }
  }

  // ----- When the operations succeed

  /** The first leaf goes into an empty tree, at its top, and nowhere else. */
  lemma AssignTopOutcome<L, N>(c: Cursor<L, N>, leaf: L)
    ensures c.AssignTop(leaf) == if c.it.Empty? && c.path.Top? then Ok(Tree<L, N>.Leaf(leaf).AsCursor()) else Err(c)
  {
  }

  /** A split refuses, with the same cursor, exactly where its name says. */
  lemma SplitOutcome<L, N>(c: Cursor<L, N>, leaf: L)
    ensures !c.it.Node? ==> c.SplitNodeAndInsertLeft(leaf) == c.SplitNodeAndInsertRight(leaf) == Err(c)
    ensures !c.it.Leaf? ==> c.SplitLeafAndInsertLeft(leaf) == c.SplitLeafAndInsertRight(leaf) == Err(c)
    ensures c.it.Node? ==> c.SplitNodeAndInsertLeft(leaf).Ok? && c.SplitNodeAndInsertRight(leaf).Ok?
    ensures c.it.Leaf? ==> c.SplitLeafAndInsertLeft(leaf).Ok? && c.SplitLeafAndInsertRight(leaf).Ok?
  {
  }

  /**
    Unsplitting succeeds exactly at a leaf below the top, whatever its parent is labelled. The
    other child takes the parent's place; the leaf and the parent's data are handed back.
   */
  lemma UnsplitOutcome<L, N>(c: Cursor<L, N>)
    ensures c.UnsplitLeaf().Ok? <==> c.it.Leaf? && !c.path.Top?
    ensures c.UnsplitLeaf().Err? ==> c.UnsplitLeaf().error == c
    ensures c.UnsplitLeaf().Ok? ==>
      var parent := c.GoUp().value;
      var sibling := if c.path.Left? then parent.GoRight().value else parent.GoLeft().value;
      c.UnsplitLeaf().value == (Cursor(sibling.it, parent.path), c.it.leaf, parent.it.data)
  {
  }

  /** A move down succeeds exactly at a node, and a move up below the top; each undoes the other. */
  lemma MoveOutcome<L, N>(c: Cursor<L, N>)
    ensures !c.it.Node? ==> c.GoLeft() == c.GoRight() == Err(c)
    ensures c.it.Node? ==>
      && c.GoLeft().Ok? && c.GoLeft().value.it == c.it.left && c.GoLeft().value.IsLeft()
      && c.GoLeft().value.GoUp() == Ok(c)
      && c.GoRight().Ok? && c.GoRight().value.it == c.it.right && c.GoRight().value.IsRight()
      && c.GoRight().value.GoUp() == Ok(c)
    ensures c.path.Top? ==> c.GoUp() == Err(c)
    ensures c.path.Left? ==> c.GoUp().Ok? && c.GoUp().value.GoLeft() == Ok(c)
    ensures c.path.Right? ==> c.GoUp().Ok? && c.GoUp().value.GoRight() == Ok(c)
  {
  }

  // ----- The way to the root

  /** The branches and node data met on the way from a position to the root. */
  function PathItems<L, N>(path: Path<L, N>): seq<(PathBranch, Option<N>)> {
    match path
    case Top => []
    case Left(_, data, up) => [(IsLeft, data)] + PathItems(up)
    case Right(_, data, up) => [(IsRight, data)] + PathItems(up)
  }

  class ParentIterator<L, N> {
    var path: Path<L, N>

    constructor (c: Cursor<L, N>)
      ensures path == c.path
    {
      path := c.path;
    }

    method Next() returns (item: Option<(PathBranch, Option<N>)>)
      modifies this
      ensures old(path).Top? ==> item == None && path == old(path)
      ensures !old(path).Top? ==> item == Some((if old(path).Left? then IsLeft else IsRight, old(path).data))
      ensures !old(path).Top? ==> item == Some(PathItems(old(path))[0]) && PathItems(path) == PathItems(old(path))[1..]
      ensures !old(path).Top? ==> path == old(path).up
    {
      match path
      case Top =>
        item := None;
      case Left(_, data, up) =>
        path := up;
        item := Some((IsLeft, data));
      case Right(_, data, up) =>
        path := up;
        item := Some((IsRight, data));
    }
  }

  /** `n` steps up. */
  function Ancestor<L, N>(c: Cursor<L, N>, n: nat): Cursor<L, N>
    requires n <= |PathItems(c.path)|
    decreases n
  {
    if n == 0 then c else Ancestor(c.GoUp().value, n - 1)
  }

  /** Each item on the way to the root names the data of that ancestor and the branch that leads back. */
  lemma {:induction false} PathItemsDescribeAncestors<L, N>(c: Cursor<L, N>, i: nat)
    requires i < |PathItems(c.path)|
    ensures var parent := Ancestor(c, i + 1);
      var item := PathItems(c.path)[i];
      && parent.it.Node? && parent.it.data == item.1
      && (item.0 == IsLeft ==> parent.GoLeft() == Ok(Ancestor(c, i)))
      && (item.0 == IsRight ==> parent.GoRight() == Ok(Ancestor(c, i)))
    decreases i
  {
    if i != 0 {
      PathItemsDescribeAncestors(c.GoUp().value, i - 1);
    }
  }

  /** Follows branches from the last to the first. */
  function Replay<L, N>(c: Cursor<L, N>, items: seq<(PathBranch, Option<N>)>): Result<Cursor<L, N>, Cursor<L, N>> {
    if items == [] then Ok(c) else
      match Replay(c, items[1..])
      case Ok(parent) => parent.GoTo(items[0].0)
      case Err(stuck) => Err(stuck)
  }

  /** The branches to the root, replayed in reverse from the root, lead back to the same cursor. */
  lemma {:induction false} ReplayReturns<L, N>(c: Cursor<L, N>)
    ensures Replay(c.Root(), PathItems(c.path)) == Ok(c)
    ensures Ancestor(c, |PathItems(c.path)|) == c.Root()
    decreases c.path
  {
    if c.path != Top {
      ReplayReturns(c.GoUp().value);
      assert PathItems(c.path)[1..] == PathItems(c.path.up);
    }
  }

  // ----- Leaves and properness of the whole tree

  lemma {:induction false} LeavesOfWhole<L, N>(c: Cursor<L, N>)
    ensures c.Whole().Leaves() == c.path.LeavesBefore() + c.it.Leaves() + c.path.LeavesAfter()
    decreases c.path
  {
    match c.path
    case Top =>
    case Left(right, data, up) =>
      LeavesOfWhole(Cursor(Node(c.it, right, data), up));
    case Right(left, data, up) =>
      LeavesOfWhole(Cursor(Node(left, c.it, data), up));
  }

  lemma {:induction false} ProperWhole<L, N>(c: Cursor<L, N>)
    ensures c.Whole().HasNoEmpty() <==> c.it.HasNoEmpty() && c.path.HasNoEmpty()
    ensures c.Whole().Empty? <==> c.it.Empty? && c.path.Top?
    decreases c.path
  {
    match c.path
    case Top =>
    case Left(right, data, up) =>
      ProperWhole(Cursor(Node(c.it, right, data), up));
    case Right(left, data, up) =>
      ProperWhole(Cursor(Node(left, c.it, data), up));
  }

  /**
    New node data reaches the node at the cursor and nothing else: the leaves are the same, the
    same branches lead to the node, a later assignment replaces it, and assigning the old data
    undoes it.
   */
  lemma NodeDataReplaced<L, N>(c: Cursor<L, N>, value: Option<N>)
    requires c.it.Node?
    ensures var d := c.WithNodeData(value).value;
      && d.Whole().Leaves() == c.Whole().Leaves()
      && Replay(d.Root(), PathItems(c.path)) == Ok(d)
      && (forall later :: d.WithNodeData(later) == c.WithNodeData(later))
      && d.WithNodeData(c.it.data) == Ok(c)
  {
    var d := c.WithNodeData(value).value;
    LeavesOfWhole(c);
    LeavesOfWhole(d);
    ReplayReturns(d);
  }
}
