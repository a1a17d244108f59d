/**
  What edits and moves do to the tree, for one command and for any run of commands: moves keep
  the tree, edits act on the flat list of leaves, and the tree stays proper.
 */
module BintreeEdits {
  import opened Wrappers
  import opened Bintree
  import opened BintreeTraversal
  import opened BintreePostorder

  // ----- Edits undo each other

  /** Splitting, stepping to the new leaf and unsplitting it is no change, and hands back the leaf and no data. */
  lemma SplitUndone<L, N>(c: Cursor<L, N>, leaf: L)
    ensures c.it.Node? ==>
      && c.SplitNodeAndInsertLeft(leaf).value.GoLeft().value.UnsplitLeaf() == Ok((c, leaf, None))
      && c.SplitNodeAndInsertRight(leaf).value.GoRight().value.UnsplitLeaf() == Ok((c, leaf, None))
    ensures c.it.Leaf? ==>
      && c.SplitLeafAndInsertLeft(leaf).value.GoLeft().value.UnsplitLeaf() == Ok((c, leaf, None))
      && c.SplitLeafAndInsertRight(leaf).value.GoRight().value.UnsplitLeaf() == Ok((c, leaf, None))
  {
  }

  /** Inserts a leaf beside whatever is at the cursor, as a caller would. */
  function InsertBeside<L, N>(c: Cursor<L, N>, branch: PathBranch, leaf: L): Result<Cursor<L, N>, Cursor<L, N>> {
    match branch
    case IsLeft => if c.IsLeaf() then c.SplitLeafAndInsertLeft(leaf) else c.SplitNodeAndInsertLeft(leaf)
    case IsRight => if c.IsLeaf() then c.SplitLeafAndInsertRight(leaf) else c.SplitNodeAndInsertRight(leaf)
  }

  /** Inserting the leaf again on its side, restoring the data and stepping back to it. */
  function Resplit<L, N>(sibling: Cursor<L, N>, branch: PathBranch, leaf: L, data: Option<N>)
      : Result<Cursor<L, N>, Cursor<L, N>>
  {
    match InsertBeside(sibling, branch, leaf)
    case Err(same) => Err(same)
    case Ok(split) =>
      match split.WithNodeData(data)
      case Err(same) => Err(same)
      case Ok(labelled) => labelled.GoTo(branch)
  }

  /** Unsplitting a leaf is undone by inserting it again, exactly when its sibling is not `Empty`. */
  lemma UnsplitUndone<L, N>(c: Cursor<L, N>)
    requires c.it.Leaf? && !c.path.Top?
    ensures c.UnsplitLeaf().Ok?
    ensures var undone := c.UnsplitLeaf().value;
      Resplit(undone.0, PathItems(c.path)[0].0, undone.1, undone.2) == Ok(c) <==> !undone.0.it.Empty?
  {
    assert c.path.Left? || c.path.Right?;
  }

  /** In a proper tree it never is. */
  lemma SiblingIsNotEmpty<L, N>(c: Cursor<L, N>)
    requires c.Whole().IsProper() && c.it.Leaf? && !c.path.Top?
    ensures c.UnsplitLeaf().Ok? && !c.UnsplitLeaf().value.0.it.Empty?
  {
    ProperWhole(c);
  }

  // ----- Commands

  datatype Command<L, N> =
    | AssignTop(leaf: L)
    | SplitNodeLeft(leaf: L)
    | SplitNodeRight(leaf: L)
    | SplitLeafLeft(leaf: L)
    | SplitLeafRight(leaf: L)
    | UnsplitLeaf
    | AssignNode(value: Option<N>)
    | GoLeft
    | GoRight
    | GoUp
    | PreorderNext
    | PostorderNext
    | GoToNthLeaf(n: nat)

  /** The cursor that comes back, in `Ok` or in `Err`. */
  function Back<L, N>(r: Result<Cursor<L, N>, Cursor<L, N>>): Cursor<L, N> {
    match r
    case Ok(c) => c
    case Err(c) => c
  }

  function Apply<L, N>(c: Cursor<L, N>, command: Command<L, N>): Cursor<L, N> {
    match command
    case AssignTop(leaf) => Back(c.AssignTop(leaf))
    case SplitNodeLeft(leaf) => Back(c.SplitNodeAndInsertLeft(leaf))
    case SplitNodeRight(leaf) => Back(c.SplitNodeAndInsertRight(leaf))
    case SplitLeafLeft(leaf) => Back(c.SplitLeafAndInsertLeft(leaf))
    case SplitLeafRight(leaf) => Back(c.SplitLeafAndInsertRight(leaf))
    case UnsplitLeaf => (match c.UnsplitLeaf() case Ok((d, _, _)) => d case Err(d) => d)
    case AssignNode(value) => Back(c.WithNodeData(value))
    case GoLeft => Back(c.GoLeft())
    case GoRight => Back(c.GoRight())
    case GoUp => Back(c.GoUp())
    case PreorderNext => Back(PreorderSuccessor(c))
    case PostorderNext => Back(PostorderSuccessor(c))
    case GoToNthLeaf(n) => Back(NthLeafFrom(c, n))
  }

  /** Whether the operation returns `Ok`. */
  predicate Succeeds<L, N>(c: Cursor<L, N>, command: Command<L, N>) {
    match command
    case AssignTop(leaf) => c.AssignTop(leaf).Ok?
    case SplitNodeLeft(leaf) => c.SplitNodeAndInsertLeft(leaf).Ok?
    case SplitNodeRight(leaf) => c.SplitNodeAndInsertRight(leaf).Ok?
    case SplitLeafLeft(leaf) => c.SplitLeafAndInsertLeft(leaf).Ok?
    case SplitLeafRight(leaf) => c.SplitLeafAndInsertRight(leaf).Ok?
    case UnsplitLeaf => c.UnsplitLeaf().Ok?
    case AssignNode(value) => c.WithNodeData(value).Ok?
    case GoLeft => c.GoLeft().Ok?
    case GoRight => c.GoRight().Ok?
    case GoUp => c.GoUp().Ok?
    case PreorderNext => PreorderSuccessor(c).Ok?
    case PostorderNext => PostorderSuccessor(c).Ok?
    case GoToNthLeaf(n) => NthLeafFrom(c, n).Ok?
  }

  /** The commands that insert or remove a leaf. */
  predicate IsLeafEdit<L, N>(command: Command<L, N>) {
    || command.AssignTop? || command.UnsplitLeaf?
    || command.SplitNodeLeft? || command.SplitNodeRight? || command.SplitLeafLeft? || command.SplitLeafRight?
  }

  predicate IsMove<L, N>(command: Command<L, N>) {
    || command.GoLeft? || command.GoRight? || command.GoUp?
    || command.PreorderNext? || command.PostorderNext? || command.GoToNthLeaf?
  }

  // ----- Moves

  lemma PreorderKeepsTree<L, N>(c: Cursor<L, N>)
    ensures Back(PreorderSuccessor(c)).Whole() == c.Whole()
  {
    if After(c) != [] {
      AfterStep(c);
    }
  }

  lemma {:induction false} NthLeafKeepsTree<L, N>(c: Cursor<L, N>, n: nat)
    ensures Back(NthLeafFrom(c, n)).Whole() == c.Whole()
    decreases |After(c)|
  {
    if c.it.Leaf? && n == 0 {
    } else {
      NthLeafStep(c, n);
      PreorderKeepsTree(c);
      if PreorderSuccessor(c).Ok? {
        NthLeafKeepsTree(PreorderSuccessor(c).value, if c.it.Leaf? then n - 1 else n);
      }
    }
  }

  /** Every move, whether it succeeds or fails, leaves the tree as it was. */
  lemma MovesKeepTree<L, N>(c: Cursor<L, N>, move: Command<L, N>)
    requires IsMove(move)
    ensures Apply(c, move).Whole() == c.Whole()
  {
    match move
    case PreorderNext => PreorderKeepsTree(c);
    case PostorderNext =>
      PreorderKeepsTree(Mirror(c));
      MirrorWhole(c);
      MirrorWhole(Back(PreorderSuccessor(Mirror(c))));
      MirrorTreeTwice(c.Whole());
    case GoToNthLeaf(n) => NthLeafKeepsTree(c, n);
    case _ =>
  }

  // ----- The flat list of leaves

  /** A change to a list of leaves. */
  datatype Edit<L> = Keep | Insert(at: nat, leaf: L) | Remove(at: nat, leaf: L)

  ghost predicate Applies<L>(e: Edit<L>, leaves: seq<L>) {
    match e
    case Keep => true
    case Insert(at, _) => at <= |leaves|
    case Remove(at, leaf) => at < |leaves| && leaves[at] == leaf
  }

  function Edited<L>(leaves: seq<L>, e: Edit<L>): seq<L> {
    match e
    case Keep => leaves
    case Insert(at, leaf) => if at <= |leaves| then leaves[..at] + [leaf] + leaves[at..] else leaves
    case Remove(at, _) => if at < |leaves| then leaves[..at] + leaves[at + 1..] else leaves
  }

  /** The change that a command asks for: next to the leaves of the current subtree, or of the current leaf. */
  function EditOf<L, N>(c: Cursor<L, N>, command: Command<L, N>): Edit<L> {
    var start := |c.path.LeavesBefore()|;
    var end := start + c.it.NumLeaves();
    match command
    case AssignTop(leaf) => if c.it.Empty? && c.path.Top? then Insert(0, leaf) else Keep
    case SplitNodeLeft(leaf) => if c.it.Node? then Insert(start, leaf) else Keep
    case SplitNodeRight(leaf) => if c.it.Node? then Insert(end, leaf) else Keep
    case SplitLeafLeft(leaf) => if c.it.Leaf? then Insert(start, leaf) else Keep
    case SplitLeafRight(leaf) => if c.it.Leaf? then Insert(end, leaf) else Keep
    case UnsplitLeaf => if c.it.Leaf? && !c.path.Top? then Remove(start, c.it.leaf) else Keep
    case _ => Keep
  }

  lemma InsertedBetween<L>(before: seq<L>, leaf: L, after: seq<L>)
    ensures Edited(before + after, Insert(|before|, leaf)) == before + [leaf] + after
  {
  }

  lemma RemovedBetween<L>(before: seq<L>, leaf: L, after: seq<L>)
    ensures Applies(Remove(|before|, leaf), before + [leaf] + after)
    ensures Edited(before + [leaf] + after, Remove(|before|, leaf)) == before + after
  {
  }

  lemma SubtreeGrows<L, N>(c: Cursor<L, N>, d: Cursor<L, N>, leaf: L, onLeft: bool)
    requires d.path == c.path
    requires d.it.Leaves() == if onLeft then [leaf] + c.it.Leaves() else c.it.Leaves() + [leaf]
    ensures var at := |c.path.LeavesBefore()| + if onLeft then 0 else c.it.NumLeaves();
      && at <= |c.Whole().Leaves()|
      && d.Whole().Leaves() == Edited(c.Whole().Leaves(), Insert(at, leaf))
  {
    hide *;
    LeavesOfWhole(c);
    LeavesOfWhole(d);
    var before, here, after := c.path.LeavesBefore(), c.it.Leaves(), c.path.LeavesAfter();
    if onLeft {
      InsertedBetween(before, leaf, here + after);
      assert before + here + after == before + (here + after);
    } else {
      InsertedBetween(before + here, leaf, after);
    }
  }

  /** Each of the four splits puts its leaf directly before or after the leaves of the current subtree. */
  lemma SplitInserts<L, N>(c: Cursor<L, N>, leaf: L)
    ensures var before, here, after := c.path.LeavesBefore(), c.it.Leaves(), c.path.LeavesAfter();
      && (c.SplitNodeAndInsertLeft(leaf).Ok? <==> c.it.Node?)
      && (c.SplitNodeAndInsertRight(leaf).Ok? <==> c.it.Node?)
      && (c.SplitLeafAndInsertLeft(leaf).Ok? <==> c.it.Leaf?)
      && (c.SplitLeafAndInsertRight(leaf).Ok? <==> c.it.Leaf?)
      && (c.it.Node? ==>
        && c.SplitNodeAndInsertLeft(leaf).value.Whole().Leaves() == before + [leaf] + here + after
        && c.SplitNodeAndInsertRight(leaf).value.Whole().Leaves() == before + here + [leaf] + after)
      && (c.it.Leaf? ==>
        && c.SplitLeafAndInsertLeft(leaf).value.Whole().Leaves() == before + [leaf] + here + after
        && c.SplitLeafAndInsertRight(leaf).value.Whole().Leaves() == before + here + [leaf] + after)
  {
    if c.it.Node? {
      SplitLeaves(c, c.SplitNodeAndInsertLeft(leaf).value, leaf, true);
      SplitLeaves(c, c.SplitNodeAndInsertRight(leaf).value, leaf, false);
    }
    if c.it.Leaf? {
      SplitLeaves(c, c.SplitLeafAndInsertLeft(leaf).value, leaf, true);
      SplitLeaves(c, c.SplitLeafAndInsertRight(leaf).value, leaf, false);
    }
  }

  lemma SplitLeaves<L, N>(c: Cursor<L, N>, d: Cursor<L, N>, leaf: L, onLeft: bool)
    requires d.path == c.path
    requires d.it.Leaves() == if onLeft then [leaf] + c.it.Leaves() else c.it.Leaves() + [leaf]
    ensures var before, here, after := c.path.LeavesBefore(), c.it.Leaves(), c.path.LeavesAfter();
      d.Whole().Leaves() == if onLeft then before + [leaf] + here + after else before + here + [leaf] + after
  {
    hide *;
    LeavesOfWhole(d);
    var before, here := c.path.LeavesBefore(), c.it.Leaves();
    assert before + ([leaf] + here) == before + [leaf] + here;
    assert before + (here + [leaf]) == before + here + [leaf];
  }

  lemma UnsplitRemoves<L, N>(c: Cursor<L, N>)
    requires c.it.Leaf? && !c.path.Top?
    ensures c.UnsplitLeaf().Ok?
    ensures var at, leaf := |c.path.LeavesBefore()|, c.it.leaf;
      && Applies(Remove(at, leaf), c.Whole().Leaves())
      && c.UnsplitLeaf().value.0.Whole().Leaves() == Edited(c.Whole().Leaves(), Remove(at, leaf))
  {
    hide *;
    UnsplitOutcome(c);
    var d := c.UnsplitLeaf().value.0;
    LeavesOfWhole(c);
    LeavesOfWhole(d);
    UnsplitParts(c);
    RemovedBetween(c.path.LeavesBefore(), c.it.leaf, c.path.LeavesAfter());
  }

  lemma UnsplitParts<L, N>(c: Cursor<L, N>)
    requires c.it.Leaf? && !c.path.Top?
    ensures c.UnsplitLeaf().Ok?
    ensures var d := c.UnsplitLeaf().value.0;
      && c.it.Leaf? && c.it.Leaves() == [c.it.leaf]
      && d.path.LeavesBefore() + d.it.Leaves() + d.path.LeavesAfter() == c.path.LeavesBefore() + c.path.LeavesAfter()
  {
  }

  /** One command changes the leaves exactly as its edit says; all other leaves keep their order. */
  lemma CommandEditsLeaves<L, N>(c: Cursor<L, N>, command: Command<L, N>)
    ensures Applies(EditOf(c, command), c.Whole().Leaves())
    ensures Apply(c, command).Whole().Leaves() == Edited(c.Whole().Leaves(), EditOf(c, command))
    ensures IsLeafEdit(command) ==> (Succeeds(c, command) <==> EditOf(c, command) != Keep)
  {
    hide Edited, Applies, Succeeds;
    if IsLeafEdit(command) {
      LeafEditSucceeds(c, command);
    }
    var d, edit := Apply(c, command), EditOf(c, command);
    match command
    case UnsplitLeaf =>
      KeepIsNoEdit(c);
      if edit.Remove? { UnsplitRemoves(c); }
    case AssignNode(_) =>
      KeepIsNoEdit(c);
      LeavesOfWhole(c);
      LeavesOfWhole(d);
    case AssignTop(_) => AboutAssignTop(c, command);
    case SplitNodeLeft(_) => AboutSplit(c, command);
    case SplitNodeRight(_) => AboutSplit(c, command);
    case SplitLeafLeft(_) => AboutSplit(c, command);
    case SplitLeafRight(_) => AboutSplit(c, command);
    case _ =>
      KeepIsNoEdit(c);
      MovesKeepTree(c, command);
  }

  /**
    A command that inserts or removes a leaf succeeds exactly when it has an edit, and hands
    back the same cursor if not.
   */
  lemma LeafEditSucceeds<L, N>(c: Cursor<L, N>, command: Command<L, N>)
    requires IsLeafEdit(command)
    ensures Succeeds(c, command) <==> EditOf(c, command) != Keep
    ensures !Succeeds(c, command) ==> Apply(c, command) == c
  {
    match command
    case AssignTop(leaf) => AssignTopOutcome(c, leaf);
    case UnsplitLeaf => UnsplitOutcome(c);
    case SplitNodeLeft(leaf) => SplitOutcome(c, leaf);
    case SplitNodeRight(leaf) => SplitOutcome(c, leaf);
    case SplitLeafLeft(leaf) => SplitOutcome(c, leaf);
    case SplitLeafRight(leaf) => SplitOutcome(c, leaf);
  }

  lemma KeepIsNoEdit<L, N>(c: Cursor<L, N>)
    ensures Applies(Keep, c.Whole().Leaves())
    ensures Edited(c.Whole().Leaves(), Keep) == c.Whole().Leaves()
  {
  }

  lemma AboutAssignTop<L, N>(c: Cursor<L, N>, command: Command<L, N>)
    requires command.AssignTop?
    ensures Applies(EditOf(c, command), c.Whole().Leaves())
    ensures Apply(c, command).Whole().Leaves() == Edited(c.Whole().Leaves(), EditOf(c, command))
  {
  }

  lemma AboutSplit<L, N>(c: Cursor<L, N>, command: Command<L, N>)
    requires command.SplitNodeLeft? || command.SplitNodeRight? || command.SplitLeafLeft? || command.SplitLeafRight?
    ensures Applies(EditOf(c, command), c.Whole().Leaves())
    ensures Apply(c, command).Whole().Leaves() == Edited(c.Whole().Leaves(), EditOf(c, command))
  {
    hide Edited;
    KeepIsNoEdit(c);
    if EditOf(c, command) != Keep {
      SubtreeGrows(c, Apply(c, command), command.leaf, command.SplitNodeLeft? || command.SplitLeafLeft?);
    }
  }

  /** No command makes a proper tree improper. */
  lemma CommandKeepsProper<L, N>(c: Cursor<L, N>, command: Command<L, N>)
    requires c.Whole().IsProper()
    ensures Apply(c, command).Whole().IsProper()
  {
    ProperWhole(c);
    if IsMove(command) {
      MovesKeepTree(c, command);
    } else {
      ProperWhole(Apply(c, command));
    }
  }

  // ----- Runs

  function Run<L, N>(c: Cursor<L, N>, commands: seq<Command<L, N>>): Cursor<L, N>
    decreases |commands|
  {
    if commands == [] then c else Run(Apply(c, commands[0]), commands[1..])
  }

  /** The edits of a run, in order. */
  function EditsOf<L, N>(c: Cursor<L, N>, commands: seq<Command<L, N>>): seq<Edit<L>>
    decreases |commands|
  {
    if commands == [] then [] else [EditOf(c, commands[0])] + EditsOf(Apply(c, commands[0]), commands[1..])
  }

  function EditedBy<L>(leaves: seq<L>, edits: seq<Edit<L>>): seq<L>
    decreases |edits|
  {
    if edits == [] then leaves else EditedBy(Edited(leaves, edits[0]), edits[1..])
  }

  function Inserted<L>(edits: seq<Edit<L>>): multiset<L> {
    if edits == [] then multiset{} else
      (if edits[0].Insert? then multiset{edits[0].leaf} else multiset{}) + Inserted(edits[1..])
  }

  function Removed<L>(edits: seq<Edit<L>>): multiset<L> {
    if edits == [] then multiset{} else
      (if edits[0].Remove? then multiset{edits[0].leaf} else multiset{}) + Removed(edits[1..])
  }

  /** A run from any proper tree stays proper and does to the leaves what its edits do to a list. */
  lemma {:induction false} RunEditsList<L, N>(c: Cursor<L, N>, commands: seq<Command<L, N>>)
    requires c.Whole().IsProper()
    ensures Run(c, commands).Whole().IsProper()
    ensures Run(c, commands).Whole().Leaves() == EditedBy(c.Whole().Leaves(), EditsOf(c, commands))
    decreases |commands|
  {
    if commands != [] {
      CommandKeepsProper(c, commands[0]);
      CommandEditsLeaves(c, commands[0]);
      RunEditsList(Apply(c, commands[0]), commands[1..]);
      var edits := EditsOf(c, commands);
      assert edits[1..] == EditsOf(Apply(c, commands[0]), commands[1..]);
    }
  }

  /** In particular a run from a new empty tree. */
  lemma RunFromNew<L, N>(commands: seq<Command<L, N>>)
    ensures var end := Run(Cursor.New(), commands).Whole();
      && end.IsProper()
      && end.Leaves() == EditedBy([], EditsOf(Cursor.New(), commands))
  {
    RunEditsList(Cursor<L, N>.New(), commands);
  }

  /** Leaves are conserved: what a run leaves in the tree and what it took out is what was there and what it put in. */
  lemma {:induction false} RunConservesLeaves<L, N>(c: Cursor<L, N>, commands: seq<Command<L, N>>)
    ensures var edits := EditsOf(c, commands);
      multiset(Run(c, commands).Whole().Leaves()) + Removed(edits) == multiset(c.Whole().Leaves()) + Inserted(edits)
    decreases |commands|
  {
    hide Apply, EditOf, Edited, Applies, Inserted, Removed;
    if commands == [] {
      NothingInserted<L>();
    } else {
      var d, e := Apply(c, commands[0]), EditOf(c, commands[0]);
      CommandEditsLeaves(c, commands[0]);
      EditedMultiset(c.Whole().Leaves(), e);
      RunConservesLeaves(d, commands[1..]);
      var later := EditsOf(d, commands[1..]);
      InsertedFirst(e, later);
      assert EditsOf(c, commands) == [e] + later;
      Balance(multiset(c.Whole().Leaves()), multiset(d.Whole().Leaves()), multiset(Run(c, commands).Whole().Leaves()),
              Inserted([e]), Removed([e]), Inserted(later), Removed(later));
    }
  }

  lemma Balance<L>(before: multiset<L>, middle: multiset<L>, after: multiset<L>,
                   in1: multiset<L>, out1: multiset<L>, in2: multiset<L>, out2: multiset<L>)
    requires middle + out1 == before + in1
    requires after + out2 == middle + in2
    ensures after + (out1 + out2) == before + (in1 + in2)
  {
    assert after + (out1 + out2) == (after + out2) + out1;
    assert (middle + in2) + out1 == (middle + out1) + in2;
    assert (before + in1) + in2 == before + (in1 + in2);
  }

  lemma NothingInserted<L>()
    ensures Inserted<L>([]) == multiset{} && Removed<L>([]) == multiset{}
  {
  }

  lemma InsertedFirst<L>(e: Edit<L>, edits: seq<Edit<L>>)
    ensures Inserted([e] + edits) == Inserted([e]) + Inserted(edits)
    ensures Removed([e] + edits) == Removed([e]) + Removed(edits)
  {
    assert ([e] + edits)[1..] == edits;
    assert Removed([e][1..]) == multiset{} && Inserted([e][1..]) == multiset{};
  }

  lemma EditedMultiset<L>(leaves: seq<L>, e: Edit<L>)
    requires Applies(e, leaves)
    ensures multiset(Edited(leaves, e)) + Removed([e]) == multiset(leaves) + Inserted([e])
  {
    assert Removed([e][1..]) == multiset{} && Inserted([e][1..]) == multiset{};
    match e
    case Keep =>
    case Insert(at, leaf) =>
      assert leaves == leaves[..at] + leaves[at..];
    case Remove(at, leaf) =>
      assert leaves == leaves[..at] + [leaf] + leaves[at + 1..];
  }
}
