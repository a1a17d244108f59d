/**
  What several backups in a row do: trying again after a failure, any mix of failures and
  successes, and runs in which every backup succeeds.
 */
module BackupRuns {
  import opened Wrappers
  import opened Backup

  // ----- Trying again

  /**
    A backup that stopped with the slots from `t` up shifted, tried again with success, ends
    where one success would have ended exactly when slots `t` to `keep - 3` held no backup;
    otherwise the slot left empty moves up and the backups above it move twice.
   */
  lemma RetryAfterShifts(path: string, keep: nat, f: Files, t: nat, g: Files, h: Files)
    requires t < keep && IsShifted(path, keep, f, t, g) && IsRolled(path, keep, g, h)
    ensures IsRolled(path, keep, f, h) <==> forall n | t <= n < keep - 2 :: Slot(f, path, n) == None
  {
    hide BakPath, Slot, Lookup, SameOthers;
    OthersTwice(path, keep, f, g, h);
    if IsRolled(path, keep, f, h) {
      SlotsWereEmpty(path, keep, f, t, g, h);
    }
  }

  lemma OthersTwice(path: string, keep: nat, f: Files, g: Files, h: Files)
    requires SameOthers(path, keep, f, g) && SameOthers(path, keep, g, h)
    ensures SameOthers(path, keep, f, h)
    ensures Lookup(g, path) == Lookup(f, path)
  {
    hide BakPath, Lookup;
    FileItself(path, keep, f, g);
  }

  /** What is above the empty slot `t` is in its place again only if it was empty, too. */
  lemma SlotsWereEmpty(path: string, keep: nat, f: Files, t: nat, g: Files, h: Files)
    requires t < keep && IsShifted(path, keep, f, t, g)
    requires IsRolled(path, keep, g, h) && IsRolled(path, keep, f, h)
    ensures forall n | t <= n < keep - 2 :: Slot(f, path, n) == None
  {
    hide BakPath, Slot, Lookup, SameOthers;
    var n := t;
    while n < keep - 2
      invariant forall i | t <= i < n :: Slot(f, path, i) == None
    {
      assert Slot(h, path, n + 1) == Slot(g, path, n) == Slot(f, path, n);
      n := n + 1;
    }
  }

  /** A backup that stopped after removing the target of its first shift can always be tried again. */
  lemma RetryAfterRemoval(path: string, keep: nat, f: Files, g: Files, h: Files)
    requires IsLastRemoved(path, keep, f, g) && IsRolled(path, keep, g, h)
    ensures IsRolled(path, keep, f, h)
  {
    hide BakPath, Slot, Lookup, SameOthers;
    OthersTwice(path, keep, f, g, h);
  }

  /**
    A backup that stopped in its copy, tried again with success, ends where one success would
    have ended exactly when only one slot is kept or every backup to be kept already was what
    had been copied; otherwise the part counts as a backup and pushes out the last one.
   */
  lemma RetryAfterPartialCopy(path: string, keep: nat, f: Files, part: Content, g: Files, h: Files)
    requires keep != 0 && IsPartlyCopied(path, keep, f, part, g) && IsRolled(path, keep, g, h)
    ensures IsRolled(path, keep, f, h) <==>
      keep == 1 ||
      (LastKept(path, keep, f) == Some(part) && forall n | 0 <= n < keep - 2 :: Slot(f, path, n) == Some(part))
  {
    hide BakPath, Slot, Lookup, SameOthers;
    OthersTwice(path, keep, f, g, h);
    if keep > 2 && IsRolled(path, keep, f, h) {
      SlotsHoldPart(path, keep, f, part, g, h);
    }
  }

  lemma SlotsHoldPart(path: string, keep: nat, f: Files, part: Content, g: Files, h: Files)
    requires keep > 2 && IsPartlyCopied(path, keep, f, part, g)
    requires IsRolled(path, keep, g, h) && IsRolled(path, keep, f, h)
    ensures forall n | 0 <= n < keep - 2 :: Slot(f, path, n) == Some(part)
    ensures LastKept(path, keep, f) == Some(part)
  {
    hide BakPath, Slot, Lookup, SameOthers;
    for n := 0 to keep - 2
      invariant forall i | 0 <= i < n :: Slot(f, path, i) == Some(part)
    {
      assert Slot(h, path, n + 1) == Slot(g, path, n) == Slot(f, path, n);
    }
    assert Slot(g, path, keep - 2) == Slot(f, path, keep - 3);
  }

  /**
    An input on which a retry loses a backup. Two are kept, one is there, and the copy stops
    before its first character: the state on disk is one that a backup can stop in, and after
    any successful retry "A" is in no slot, although one success would have kept it.
   */
  lemma RetryCanLoseBackup(path: string, h: Files)
    ensures var f := map[path := "xy", BakPath(path, 0) := "A"];
      var g := map[path := "xy", BakPath(path, 0) := "", BakPath(path, 1) := "A"];
      && IsMidway(path, 2, f, g)
      && (IsRolled(path, 2, f, h) ==> Slot(h, path, 1) == Some("A"))
      && (IsRolled(path, 2, g, h) ==> forall n: nat :: Slot(h, path, n) != Some("A"))
  {
    hide BakPath;
    var f := map[path := "xy", BakPath(path, 0) := "A"];
    var g := map[path := "xy", BakPath(path, 0) := "", BakPath(path, 1) := "A"];
    forall n: nat
      ensures Slot(f, path, n) == if n == 0 then Some("A") else None
      ensures Slot(g, path, n) == if n == 0 then Some("") else if n == 1 then Some("A") else None
    {
      BakPathInjective(path, 0, n);
      BakPathInjective(path, 1, n);
    }
    assert "" <= "xy" && IsPartlyCopied(path, 2, f, "", g);
    if IsRolled(path, 2, g, h) {
      BakPathInjective(path, 0, 1);
      BakPathInjective(path, 1, 0);
      assert Slot(h, path, 0) == Some("xy") && Slot(h, path, 1) == Slot(g, path, 0) == Some("");
      forall n: nat
        ensures Slot(h, path, n) != Some("A")
      {
        UnusedSlot(path, 2, g, h, n);
      }
    }
  }

  // ----- Any mix of failures and successes

  /** A run of attempts, failed or not: before each, new content may be written to the file. */
  ghost predicate IsAttempts(path: string, keep: nat, states: seq<Files>, contents: seq<Content>) {
    && |states| == |contents| + 1
    && forall i | 0 <= i < |contents| :: NothingLost(path, keep, states[i][path := contents[i]], states[i + 1])
  }

  /** `places[n]` is where the backup of slot `n` is now: at most `moves` slots up, and no two in one slot. */
  ghost predicate AreAt(path: string, moves: nat, f: Files, places: seq<nat>, g: Files) {
    && (forall n | 0 <= n < |places| :: n <= places[n] <= n + moves)
    && (forall m, n | 0 <= m < n < |places| :: places[m] < places[n])
    && (forall n | 0 <= n < |places| && Slot(f, path, n) != None :: Slot(g, path, places[n]) == Slot(f, path, n))
  }

  /**
    After `j` attempts, whether they failed or not, the backups of all slots up to
    `keep - 1 - j` are still there, each at most `j` slots further up and in the same order.
   */
  lemma {:induction false} AttemptsLoseLittle(path: string, keep: nat, states: seq<Files>, contents: seq<Content>)
      returns (places: seq<nat>)
    requires |contents| <= keep && IsAttempts(path, keep, states, contents)
    ensures |places| == keep - |contents|
    ensures AreAt(path, |contents|, states[0], places, states[|contents|])
    decreases |contents|
  {
    hide BakPath, Slot;
    var j := |contents|;
    if j == 0 {
      places := seq(keep, n => n);
    } else {
      var before := AttemptsLoseLittle(path, keep, states[..j], contents[..j - 1]);
      assert NothingLost(path, keep, states[j - 1][path := contents[j - 1]], states[j]);
      places := AttemptMoves(path, keep, states[0], states[j - 1], contents[j - 1], states[j], before, j - 1);
    }
  }

  /** One more attempt moves each surviving backup by at most one slot. */
  lemma AttemptMoves(path: string, keep: nat, f: Files, g: Files, content: Content, h: Files,
                     before: seq<nat>, moves: nat)
      returns (places: seq<nat>)
    requires |before| + moves == keep && |before| > 0
    requires AreAt(path, moves, f, before, g)
    requires NothingLost(path, keep, g[path := content], h)
    ensures |places| == |before| - 1
    ensures AreAt(path, moves + 1, f, places, h)
  {
    hide BakPath, Slot, SameOthers;
    var written := g[path := content];
    var t: nat :| HasSurvivors(path, keep, written, t, h);
    places := seq(|before| - 1, n requires 0 <= n < |before| - 1 => if before[n] < t then before[n] else before[n] + 1);
    forall n | 0 <= n < |places| && Slot(f, path, n) != None
      ensures Slot(h, path, places[n]) == Slot(f, path, n)
    {
      SlotOfWritten(g, path, content, before[n]);
      assert before[n] < keep - 1;
    }
  }

  // ----- Runs in which every backup succeeds

  /** A run: before each backup new content is written to the file. */
  ghost predicate IsRun(path: string, keep: nat, states: seq<Files>, contents: seq<Content>) {
    && |states| == |contents| + 1
    && forall i | 0 <= i < |contents| :: IsRolled(path, keep, states[i][path := contents[i]], states[i + 1])
  }

  /** The contents written in a run, newest first, and after them the backups that were there before it. */
  function Ranked(path: string, start: Files, contents: seq<Content>, n: nat): Option<Content> {
    if n < |contents| then Some(contents[|contents| - 1 - n]) else Slot(start, path, n - |contents|)
  }

  /** The first of ranks `n` to `last` that exists. */
  function FirstRanked(path: string, start: Files, contents: seq<Content>, n: nat, last: nat): Option<Content>
    requires n <= last
    decreases last - n
  {
    var here := Ranked(path, start, contents, n);
    if here != None || n == last then here else FirstRanked(path, start, contents, n + 1, last)
  }

  /**
    What slot `n` holds after a run: below the last slot that is kept, rank `n`; in the last
    slot, the best rank from there on that exists, for a gap pushes nothing out; above it,
    what was there.
   */
  function SlotAfterRun(path: string, keep: nat, start: Files, contents: seq<Content>, n: nat): Option<Content> {
    if n >= keep then Slot(start, path, n)
    else if n + 1 < keep then Ranked(path, start, contents, n)
    else FirstRanked(path, start, contents, n, n + |contents|)
  }

  lemma {:induction false} FirstRankedShift(path: string, start: Files, contents: seq<Content>, content: Content,
                                            n: nat, last: nat)
    requires n <= last
    ensures FirstRanked(path, start, contents + [content], n + 1, last + 1) ==
            FirstRanked(path, start, contents, n, last)
    decreases last - n
  {
    hide Slot;
    RankedShift(path, start, contents, content, n);
    if n < last {
      FirstRankedShift(path, start, contents, content, n + 1, last);
    }
  }

  lemma RankedShift(path: string, start: Files, contents: seq<Content>, content: Content, n: nat)
    ensures Ranked(path, start, contents + [content], n + 1) == Ranked(path, start, contents, n)
    ensures Ranked(path, start, contents + [content], 0) == Some(content)
  {
    hide Slot;
  }

  /** One more round. */
  lemma RoundShiftsRanks(path: string, keep: nat, start: Files, contents: seq<Content>, content: Content,
                         f: Files, g: Files)
    requires keep != 0 && IsRolled(path, keep, f[path := content], g)
    requires forall n: nat :: Slot(f, path, n) == SlotAfterRun(path, keep, start, contents, n)
    ensures forall n: nat :: Slot(g, path, n) == SlotAfterRun(path, keep, start, contents + [content], n)
    ensures Lookup(g, path) == Some(content)
  {
    hide BakPath, Slot, SameOthers, Ranked, FirstRanked;
    var written := f[path := content];
    FileItself(path, keep, written, g);
    forall n: nat
      ensures Slot(g, path, n) == SlotAfterRun(path, keep, start, contents + [content], n)
    {
      RoundShiftsRank(path, keep, start, contents, content, f, g, n);
    }
  }

  lemma RoundShiftsRank(path: string, keep: nat, start: Files, contents: seq<Content>, content: Content,
                        f: Files, g: Files, n: nat)
    requires keep != 0 && IsRolled(path, keep, f[path := content], g)
    requires forall n: nat :: Slot(f, path, n) == SlotAfterRun(path, keep, start, contents, n)
    ensures Slot(g, path, n) == SlotAfterRun(path, keep, start, contents + [content], n)
  {
    hide BakPath, Slot, SameOthers, Ranked;
    var written := f[path := content];
    SlotOfWritten(f, path, content, n);
    if n >= keep {
      UnusedSlot(path, keep, written, g, n);
    } else if n == 0 {
      RankedShift(path, start, contents, content, 0);
    } else {
      SlotOfWritten(f, path, content, n - 1);
      RankedShift(path, start, contents, content, n - 1);
      FirstRankedShift(path, start, contents, content, n, n + |contents|);
    }
  }

  /**
    After any run from any files: the newest contents, then the backups that were there
    before, each one rank further down per round, with the exact rule for the last slot; slots
    that are not kept, and all other files, are as they were.
   */
  lemma {:induction false} RunRanksBackups(path: string, keep: nat, states: seq<Files>, contents: seq<Content>)
    requires keep != 0 && IsRun(path, keep, states, contents)
    ensures var end := states[|contents|];
      && (forall n: nat :: Slot(end, path, n) == SlotAfterRun(path, keep, states[0], contents, n))
      && (contents != [] ==> Lookup(end, path) == Some(contents[|contents| - 1]))
      && (forall name | name != path && (forall n: nat :: name != BakPath(path, n)) ::
            Lookup(end, name) == Lookup(states[0], name))
    decreases |contents|
  {
    hide BakPath, Slot;
    var m := |contents|;
    if m != 0 {
      RunRanksBackups(path, keep, states[..m], contents[..m - 1]);
      assert contents[..m - 1] + [contents[m - 1]] == contents;
      assert IsRolled(path, keep, states[m - 1][path := contents[m - 1]], states[m]);
      RoundShiftsRanks(path, keep, states[0], contents[..m - 1], contents[m - 1], states[m - 1], states[m]);
    }
  }

  /** The content written `n` rounds before the last, if that many rounds were run and that many slots are kept. */
  function Newest(contents: seq<Content>, keep: nat, n: nat): Option<Content> {
    if n < |contents| && n < keep then Some(contents[|contents| - 1 - n]) else None
  }

  /**
    After any run that starts without backups, slot `n` holds the `n`-th most recent content,
    for as many slots as are kept and rounds were run; no other slot exists, the file holds
    what was last written, and no other file has changed.
   */
  lemma RunKeepsNewest(path: string, keep: nat, states: seq<Files>, contents: seq<Content>)
    requires keep != 0 && IsRun(path, keep, states, contents)
    requires forall n: nat :: Slot(states[0], path, n) == None
    ensures var end := states[|contents|];
      && (forall n: nat :: Slot(end, path, n) == Newest(contents, keep, n))
      && (contents != [] ==> Lookup(end, path) == Some(contents[|contents| - 1]))
      && (forall name | name != path && (forall n: nat :: name != BakPath(path, n)) ::
            Lookup(end, name) == Lookup(states[0], name))
  {
    hide BakPath, Slot;
    RunRanksBackups(path, keep, states, contents);
    if |contents| < keep {
      NoneRanked(path, states[0], contents, keep - 1, keep - 1 + |contents|);
    }
  }

  lemma {:induction false} NoneRanked(path: string, start: Files, contents: seq<Content>, n: nat, last: nat)
    requires |contents| <= n <= last
    requires forall i: nat :: Slot(start, path, i) == None
    ensures FirstRanked(path, start, contents, n, last) == None
    decreases last - n
  {
    hide Slot;
    if n < last {
      NoneRanked(path, start, contents, n + 1, last);
    }
  }
}
