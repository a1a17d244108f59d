/**
  Rolling backups: `.bak` is the newest, `.bak.1` and up are older.

  The file system is a map from names to contents with one method a system call. Any call may
  fail, and every state that the files go through is kept in a ghost history, so that a
  promise about intermediate states, and about early returns, can be made and proved.
 */
module Backup {
  import opened Wrappers

  type U32 = x: nat | x < 0x1_0000_0000
  type Content = string
  type Files = map<string, Content>

  datatype IoError = NotFound | OtherError
  type IoResult = Result<(), IoError>

  class FileSystem {
    var files: Files
    /** The states after each system call, and within a copy, oldest first. */
    ghost var history: seq<Files>
    /** How many system calls have failed, for any reason but a missing file. */
    ghost var faults: nat

    constructor (files: Files)
      ensures this.files == files && history == [] && faults == 0
    {
      this.files := files;
      history := [];
      faults := 0;
    }

    method Exists(name: string) returns (b: bool)
      ensures b <==> name in files
    {
      b := name in files;
    }

    method RemoveFile(name: string) returns (r: IoResult)
      modifies this
      ensures history == old(history) + [files]
      ensures r.Err? && r.error == NotFound <==> name !in old(files)
      ensures faults == old(faults) + if r.Ok? || r.error == NotFound then 0 else 1
      ensures files == if r.Ok? then old(files) - {name} else old(files)
    {
      if name !in files {
        r := Err(NotFound);
      } else if * {
        r := Err(OtherError);
        faults := faults + 1;
      } else {
        files := files - {name};
        r := Ok(());
      }
      history := history + [files];
    }

    method Rename(from: string, to: string) returns (r: IoResult)
      modifies this
      ensures history == old(history) + [files]
      ensures r.Err? && r.error == NotFound <==> from !in old(files)
      ensures faults == old(faults) + if r.Ok? || r.error == NotFound then 0 else 1
      ensures files == if r.Ok? then Renamed(old(files), from, to) else old(files)
    {
      if from !in files {
        r := Err(NotFound);
      } else if * {
        r := Err(OtherError);
        faults := faults + 1;
      } else {
        files := Renamed(files, from, to);
        r := Ok(());
      }
      history := history + [files];
    }

    /** Creates or truncates the target, then fills it; it may stop with a part of the content written. */
    method Copy(from: string, to: string) returns (r: IoResult)
      modifies this
      ensures old(history) <= history
      ensures forall m | |old(history)| <= m < |history| :: IsCopying(old(files), from, to, history[m])
      ensures IsCopying(old(files), from, to, files)
      ensures r.Err? && r.error == NotFound <==> from !in old(files)
      ensures faults == old(faults) + if r.Ok? || r.error == NotFound then 0 else 1
      ensures r.Ok? ==> files == Written(old(files), to, old(files)[from])
    {
      if from !in files {
        r := Err(NotFound);
      } else if * {
        r := Err(OtherError);
        faults := faults + 1;
      } else {
        var content, before := files[from], files;
        var part :| part <= content;
        files := Written(before, to, part);
        history := history + [files];
        if * {
          r := Err(OtherError);
          faults := faults + 1;
        } else {
          files := Written(before, to, content);
          history := history + [files];
          r := Ok(());
        }
      }
    }
  }

  function Renamed(files: Files, from: string, to: string): Files
    requires from in files
  {
    (files - {from})[to := files[from]]
  }

  function Written(files: Files, to: string, content: Content): Files {
    files[to := content]
  }

  /** A state within a copy: untouched, or the target holds some part of the source. */
  ghost predicate IsCopying(before: Files, from: string, to: string, now: Files) {
    now == before || (from in before && exists part :: part <= before[from] && now == Written(before, to, part))
  }

  // ----- Backup names

  function Decimal(n: nat): string {
    var digit := ['0' + (n % 10) as char];
    if n < 10 then digit else Decimal(n / 10) + digit
  }

  function BakPath(path: string, n: nat): string {
    if n == 0 then path + ".bak" else path + (".bak." + Decimal(n))
  }

  lemma {:induction false} DecimalInjective(m: nat, n: nat)
    requires Decimal(m) == Decimal(n)
    ensures m == n
  {
    var a, b := Decimal(m), Decimal(n);
    assert a[|a| - 1] == '0' + (m % 10) as char;
    assert b[|b| - 1] == '0' + (n % 10) as char;
    DecimalNotEmpty(m / 10);
    DecimalNotEmpty(n / 10);
    if m >= 10 && n >= 10 {
      assert a[..|a| - 1] == Decimal(m / 10);
      assert b[..|b| - 1] == Decimal(n / 10);
      DecimalInjective(m / 10, n / 10);
    }
  }

  lemma DecimalNotEmpty(n: nat)
    ensures Decimal(n) != []
  {
  }

  /** Slots have different names, and none is the file's own. */
  lemma BakPathInjective(path: string, m: nat, n: nat)
    ensures BakPath(path, m) == BakPath(path, n) ==> m == n
    ensures BakPath(path, n) != path
  {
    var a, b := BakPath(path, m), BakPath(path, n);
    if a == b {
      assert a[|path|..] == b[|path|..];
      DecimalNotEmpty(m);
      DecimalNotEmpty(n);
      if m != 0 && n != 0 {
        assert a[|path|..][5..] == Decimal(m) && b[|path|..][5..] == Decimal(n);
        DecimalInjective(m, n);
      }
    }
  }

  predicate IsDigit(c: char) {
    '0' <= c <= '9'
  }

  function DigitValue(c: char): (v: nat)
    requires IsDigit(c)
    ensures v < 10
  {
    c as int - '0' as int
  }

  /** Reading a decimal numeral from left to right, after `acc` has been read. */
  function ReadFrom(acc: nat, numeral: string): nat
    requires forall c :: c in numeral ==> IsDigit(c)
    decreases |numeral|
  {
    if numeral == [] then acc
    else
      assert numeral[0] in numeral;
      ReadFrom(10 * acc + DigitValue(numeral[0]), numeral[1..])
  }

  lemma {:induction false} ReadLast(acc: nat, numeral: string, last: char)
    requires IsDigit(last) && forall c :: c in numeral ==> IsDigit(c)
    ensures ReadFrom(acc, numeral + [last]) == 10 * ReadFrom(acc, numeral) + DigitValue(last)
    decreases |numeral|
  {
    if numeral != [] {
      assert numeral[0] in numeral;
      assert (numeral + [last])[1..] == numeral[1..] + [last];
      ReadLast(10 * acc + DigitValue(numeral[0]), numeral[1..], last);
    }
  }

  /** A number's numeral is all digits, has no leading zero, and reads back to it. */
  lemma {:induction false} DecimalReadsBack(n: nat)
    ensures forall c :: c in Decimal(n) ==> IsDigit(c)
    ensures Decimal(n) != [] && (n != 0 ==> Decimal(n)[0] != '0')
    ensures ReadFrom(0, Decimal(n)) == n
  {
    var last := '0' + (n % 10) as char;
    if n < 10 {
      assert Decimal(n) == [] + [last];
      ReadLast(0, [], last);
    } else {
      DecimalReadsBack(n / 10);
      assert Decimal(n) == Decimal(n / 10) + [last];
      ReadLast(0, Decimal(n / 10), last);
    }
  }

  /** The newest backup is named ".bak"; older ones have their number after it. */
  lemma BakPathNames(path: string, n: nat)
    ensures BakPath(path, 0) == path + ".bak"
    ensures n != 0 ==>
      exists numeral: string ::
        && (forall c :: c in numeral ==> IsDigit(c))
        && numeral != [] && numeral[0] != '0'
        && ReadFrom(0, numeral) == n
        && BakPath(path, n) == path + ".bak" + "." + numeral
  {
    DecimalReadsBack(n);
    assert ".bak" + "." == ".bak.";
    assert path + ".bak" + "." + Decimal(n) == path + (".bak." + Decimal(n));
  }

  function Lookup(files: Files, name: string): Option<Content> {
    if name in files then Some(files[name]) else None
  }

  /** What backup number `n` holds. */
  function Slot(files: Files, path: string, n: nat): Option<Content> {
    Lookup(files, BakPath(path, n))
  }

  // ----- What a backup promises

  /** Everything but the first `keep` slots is as it was; this includes the file itself. */
  ghost predicate SameOthers(path: string, keep: nat, f: Files, g: Files) {
    forall name | (forall n | 0 <= n < keep :: name != BakPath(path, n)) :: Lookup(g, name) == Lookup(f, name)
  }

  /**
    What slot `n` holds when the slots from `t` up have moved one up: the last slot is replaced
    only by a backup that exists.
   */
  function ShiftedSlot(path: string, keep: nat, f: Files, t: nat, n: nat): Option<Content> {
    if n < t || t + 1 >= keep then Slot(f, path, n)
    else if n == t then None
    else if n + 1 == keep && Slot(f, path, n - 1) == None then Slot(f, path, n)
    else Slot(f, path, n - 1)
  }

  ghost predicate IsShifted(path: string, keep: nat, f: Files, t: nat, g: Files) {
    && SameOthers(path, keep, f, g)
    && forall n | 0 <= n < keep :: Slot(g, path, n) == ShiftedSlot(path, keep, f, t, n)
  }

  /** The backup that ends up in the last slot: the one shifted into it, or if there is none the one that was there. */
  function LastKept(path: string, keep: nat, f: Files): Option<Content>
    requires keep >= 2
  {
    Slot(f, path, if Slot(f, path, keep - 2) == None then keep - 1 else keep - 2)
  }

  /** The state after a successful backup: the current content in slot 0 and the older backups one slot up. */
  ghost predicate IsRolled(path: string, keep: nat, f: Files, g: Files) {
    && SameOthers(path, keep, f, g)
    && Slot(g, path, 0) == Lookup(f, path)
    && (forall n | 1 <= n < keep - 1 :: Slot(g, path, n) == Slot(f, path, n - 1))
    && (keep >= 2 ==> Slot(g, path, keep - 1) == LastKept(path, keep, f))
  }

  /** Every backup but the last has survived, in its own slot or, from slot `t` up, in the next one. */
  ghost predicate HasSurvivors(path: string, keep: nat, f: Files, t: nat, g: Files) {
    forall n | 0 <= n < keep - 1 && Slot(f, path, n) != None ::
      Slot(g, path, if n < t then n else n + 1) == Slot(f, path, n)
  }

  ghost predicate NothingLost(path: string, keep: nat, f: Files, g: Files) {
    SameOthers(path, keep, f, g) && exists t: nat :: HasSurvivors(path, keep, f, t, g)
  }

  /** The target of the first shift has been removed, and nothing has been moved. */
  ghost predicate IsLastRemoved(path: string, keep: nat, f: Files, g: Files) {
    && keep >= 2
    && SameOthers(path, keep, f, g)
    && Slot(f, path, keep - 2) != None && Slot(g, path, keep - 1) == None
    && forall n | 0 <= n < keep - 1 :: Slot(g, path, n) == Slot(f, path, n)
  }

  /** All slots have moved up, and `part` of the file has been copied to slot 0. */
  ghost predicate IsPartlyCopied(path: string, keep: nat, f: Files, part: Content, g: Files) {
    && SameOthers(path, keep, f, g)
    && Slot(g, path, 0) == Some(part)
    && forall n | 1 <= n < keep :: Slot(g, path, n) == ShiftedSlot(path, keep, f, 0, n)
  }

  /** The states that a backup passes through or can stop in. */
  ghost predicate IsMidway(path: string, keep: nat, f: Files, g: Files) {
    || (exists t: nat :: t < keep && IsShifted(path, keep, f, t, g))
    || IsLastRemoved(path, keep, f, g)
    || (path in f && exists part :: part <= f[path] && IsPartlyCopied(path, keep, f, part, g))
  }

  // ----- The algorithm

  method Shift(fs: FileSystem, from: string, to: string) returns (r: IoResult)
    requires from != to
    modifies fs
    ensures old(fs.history) <= fs.history
    ensures from !in old(fs.files) ==> r.Ok? && fs.files == old(fs.files) && fs.history == old(fs.history)
    ensures from in old(fs.files) && r.Ok? ==> fs.files == Renamed(old(fs.files), from, to)
    ensures from in old(fs.files) ==>
      forall m | |old(fs.history)| <= m < |fs.history| ::
        fs.history[m] in {old(fs.files), old(fs.files) - {to}} || (r.Ok? && fs.history[m] == fs.files)
    ensures r.Err? ==> fs.files in {old(fs.files), old(fs.files) - {to}}
    ensures r.Ok? <==> fs.faults == old(fs.faults)
    ensures fs.faults >= old(fs.faults)
  {
    var there := fs.Exists(from);
    if !there {
      return Ok(());
    }
    var removed := fs.RemoveFile(to);
    match removed {
      case Ok(_) =>
      case Err(NotFound) =>
      case Err(e) => return Err(e);
    }
    r := fs.Rename(from, to);
    assert to !in old(fs.files) ==> old(fs.files) - {to} == old(fs.files);
  }

  /** Shifts slot `k` up, when the slots above it have been shifted. */
  method ShiftSlot(fs: FileSystem, path: string, k: nat, ghost keep: nat, ghost f: Files) returns (r: IoResult)
    requires k + 1 < keep && IsShifted(path, keep, f, k + 1, fs.files)
    modifies fs
    ensures r.Ok? ==> IsShifted(path, keep, f, k, fs.files)
    ensures IsMidway(path, keep, f, fs.files)
    ensures old(fs.history) <= fs.history
    ensures forall m | |old(fs.history)| <= m < |fs.history| :: IsMidway(path, keep, f, fs.history[m])
    ensures r.Ok? <==> fs.faults == old(fs.faults)
    ensures fs.faults >= old(fs.faults)
  {
    hide BakPath, Slot, Lookup, IsShifted, IsMidway, Renamed;
    BakPathInjective(path, k, k + 1);
    ShiftStep(path, keep, f, k, fs.files);
    r := Shift(fs, BakPath(path, k), BakPath(path, k + 1));
  }

  method RollingBackup(fs: FileSystem, path: string, keep: U32) returns (r: IoResult)
    modifies fs
    ensures keep == 0 || path !in old(fs.files) ==>
      r.Ok? && fs.files == old(fs.files) && fs.history == old(fs.history)
    ensures r.Ok? && keep != 0 && path in old(fs.files) ==> IsRolled(path, keep, old(fs.files), fs.files)
    ensures r.Err? ==> IsMidway(path, keep, old(fs.files), fs.files)
    ensures old(fs.history) <= fs.history
    ensures forall m | |old(fs.history)| <= m < |fs.history| :: IsMidway(path, keep, old(fs.files), fs.history[m])
    ensures forall m | |old(fs.history)| <= m < |fs.history| :: NothingLost(path, keep, old(fs.files), fs.history[m])
    ensures NothingLost(path, keep, old(fs.files), fs.files)
    ensures r.Ok? <==> fs.faults == old(fs.faults)
  {
    hide BakPath, Slot, Lookup, IsShifted, IsRolled, IsMidway, NothingLost, IsCopying;
    ghost var f := fs.files;
    NothingShifted(path, keep, f);
    MidwayLosesNothing(path, keep, f);
    var there := fs.Exists(path);
    if keep == 0 || !there {
      return Ok(());
    }
    var k: nat := keep - 1;
    while 1 < k
      invariant k < keep && (keep >= 2 ==> 1 <= k)
      invariant IsShifted(path, keep, f, k, fs.files)
      invariant fs.faults == old(fs.faults)
      invariant old(fs.history) <= fs.history
      invariant forall m | |old(fs.history)| <= m < |fs.history| :: IsMidway(path, keep, f, fs.history[m])
    {
      k := k - 1;
      r := ShiftSlot(fs, path, k, keep, f);
      if r.Err? {
        return r;
      }
    }
    if keep >= 2 {
      r := ShiftSlot(fs, path, 0, keep, f);
      if r.Err? {
        return r;
      }
    }
    CopyStep(path, keep, f, fs.files);
    r := fs.Copy(path, BakPath(path, 0));
  }

  // ----- One step

  lemma SlotOfUpdate(files: Files, path: string, k: nat, content: Content, n: nat)
    ensures Slot(files[BakPath(path, k) := content], path, n) == if n == k then Some(content) else Slot(files, path, n)
    ensures Slot(files - {BakPath(path, k)}, path, n) == if n == k then None else Slot(files, path, n)
  {
    BakPathInjective(path, k, n);
  }

  lemma OthersOfUpdate(path: string, keep: nat, f: Files, g: Files, k: nat, content: Content)
    requires SameOthers(path, keep, f, g) && k < keep
    ensures SameOthers(path, keep, f, g[BakPath(path, k) := content])
    ensures SameOthers(path, keep, f, g - {BakPath(path, k)})
  {
    BakPathInjective(path, k, k);
  }

  lemma ShiftedLosesNothing(path: string, keep: nat, f: Files, t: nat, g: Files)
    requires IsShifted(path, keep, f, t, g)
    ensures NothingLost(path, keep, f, g)
  {
    hide BakPath, Slot, Lookup, SameOthers;
    assert HasSurvivors(path, keep, f, t, g);
  }

  lemma NothingShifted(path: string, keep: nat, f: Files)
    ensures keep != 0 ==> IsShifted(path, keep, f, keep - 1, f)
    ensures NothingLost(path, keep, f, f)
  {
    hide BakPath, Slot;
    assert IsShifted(path, keep, f, keep, f);
    ShiftedLosesNothing(path, keep, f, keep, f);
  }

  /** In every state on the way, every backup but the last is still there. */
  lemma MidwayLosesNothing(path: string, keep: nat, f: Files)
    ensures forall g :: IsMidway(path, keep, f, g) ==> NothingLost(path, keep, f, g)
  {
    hide BakPath, Slot, IsShifted, IsLastRemoved, IsPartlyCopied, NothingLost;
    forall g | IsMidway(path, keep, f, g)
      ensures NothingLost(path, keep, f, g)
    {
      if t: nat :| t < keep && IsShifted(path, keep, f, t, g) {
        ShiftedLosesNothing(path, keep, f, t, g);
      } else if IsLastRemoved(path, keep, f, g) {
        RemovedLosesNothing(path, keep, f, g);
      } else {
        var part :| part <= f[path] && IsPartlyCopied(path, keep, f, part, g);
        CopiedLosesNothing(path, keep, f, part, g);
      }
    }
  }

  lemma RemovedLosesNothing(path: string, keep: nat, f: Files, g: Files)
    requires IsLastRemoved(path, keep, f, g)
    ensures NothingLost(path, keep, f, g)
  {
    hide BakPath, Slot, SameOthers;
    assert HasSurvivors(path, keep, f, keep, g);
  }

  lemma CopiedLosesNothing(path: string, keep: nat, f: Files, part: Content, g: Files)
    requires IsPartlyCopied(path, keep, f, part, g)
    ensures NothingLost(path, keep, f, g)
  {
    hide BakPath, Slot, SameOthers;
    assert HasSurvivors(path, keep, f, 0, g);
  }

  /** Shifting slot `k` up when the slots above it have been shifted, and the state after its removal step. */
  lemma ShiftStep(path: string, keep: nat, f: Files, k: nat, g: Files)
    requires k + 1 < keep && IsShifted(path, keep, f, k + 1, g)
    ensures var from, to := BakPath(path, k), BakPath(path, k + 1);
      && (from !in g ==> IsShifted(path, keep, f, k, g))
      && (from in g ==> IsShifted(path, keep, f, k, Renamed(g, from, to)))
      && (from in g ==> IsMidway(path, keep, f, Renamed(g, from, to)) && IsMidway(path, keep, f, g - {to}))
      && IsMidway(path, keep, f, g)
  {
    hide BakPath, Slot, Renamed, IsShifted, IsLastRemoved, IsPartlyCopied;
    if BakPath(path, k) in g {
      RemoveStep(path, keep, f, k, g);
      RenameStep(path, keep, f, k, g);
    } else {
      SkipStep(path, keep, f, k, g);
    }
  }

  lemma SkipStep(path: string, keep: nat, f: Files, k: nat, g: Files)
    requires k + 1 < keep && IsShifted(path, keep, f, k + 1, g) && BakPath(path, k) !in g
    ensures IsShifted(path, keep, f, k, g)
  {
    hide BakPath, SameOthers;
    assert Slot(g, path, k) == None;
  }

  lemma RemoveStep(path: string, keep: nat, f: Files, k: nat, g: Files)
    requires k + 1 < keep && IsShifted(path, keep, f, k + 1, g) && BakPath(path, k) in g
    ensures var now := g - {BakPath(path, k + 1)};
      if k + 2 < keep then IsShifted(path, keep, f, k + 1, now) else IsLastRemoved(path, keep, f, now)
  {
    hide BakPath, SameOthers;
    var now := g - {BakPath(path, k + 1)};
    OthersOfUpdate(path, keep, f, g, k + 1, "");
    forall n: nat
      ensures Slot(now, path, n) == if n == k + 1 then None else Slot(g, path, n)
    {
      SlotOfUpdate(g, path, k + 1, "", n);
    }
    assert Slot(g, path, k) != None;
  }

  lemma RenameStep(path: string, keep: nat, f: Files, k: nat, g: Files)
    requires k + 1 < keep && IsShifted(path, keep, f, k + 1, g) && BakPath(path, k) in g
    ensures IsShifted(path, keep, f, k, Renamed(g, BakPath(path, k), BakPath(path, k + 1)))
  {
    hide BakPath, SameOthers;
    var from, to := BakPath(path, k), BakPath(path, k + 1);
    var now := Renamed(g, from, to);
    OthersOfUpdate(path, keep, f, g, k, "");
    OthersOfUpdate(path, keep, f, g - {from}, k + 1, g[from]);
    forall n: nat
      ensures Slot(now, path, n) == if n == k then None else if n == k + 1 then Slot(g, path, k) else Slot(g, path, n)
    {
      RenamedSlot(g, path, k, n);
    }
    assert Slot(g, path, k) != None;
  }

  lemma RenamedSlot(g: Files, path: string, k: nat, n: nat)
    requires BakPath(path, k) in g
    ensures Slot(Renamed(g, BakPath(path, k), BakPath(path, k + 1)), path, n) ==
      if n == k then None else if n == k + 1 then Slot(g, path, k) else Slot(g, path, n)
  {
    hide BakPath;
    var from := BakPath(path, k);
    SlotOfUpdate(g, path, k, "", n);
    SlotOfUpdate(g - {from}, path, k + 1, g[from], n);
  }

  /** The copy into slot 0, whole or in part, when all other slots have been shifted. */
  lemma CopyStep(path: string, keep: nat, f: Files, g: Files)
    requires keep != 0 && IsShifted(path, keep, f, 0, g)
    ensures forall now :: IsCopying(g, path, BakPath(path, 0), now) ==> IsMidway(path, keep, f, now)
    ensures path in g ==> IsRolled(path, keep, f, Written(g, BakPath(path, 0), g[path]))
    ensures path in g <==> path in f
  {
    hide BakPath, Slot, Written, IsPartlyCopied, IsLastRemoved, IsRolled;
    FileItself(path, keep, f, g);
    forall content
      ensures IsPartlyCopied(path, keep, f, content, Written(g, BakPath(path, 0), content))
    {
      WriteStep(path, keep, f, g, content);
    }
    if path in g {
      CopyCompletes(path, keep, f, g[path], Written(g, BakPath(path, 0), g[path]));
    }
  }

  lemma WriteStep(path: string, keep: nat, f: Files, g: Files, content: Content)
    requires keep != 0 && IsShifted(path, keep, f, 0, g)
    ensures IsPartlyCopied(path, keep, f, content, Written(g, BakPath(path, 0), content))
  {
    hide BakPath, Slot, Lookup, SameOthers;
    var now := Written(g, BakPath(path, 0), content);
    OthersOfUpdate(path, keep, f, g, 0, content);
    forall n: nat
      ensures Slot(now, path, n) == if n == 0 then Some(content) else Slot(g, path, n)
    {
      SlotOfUpdate(g, path, 0, content, n);
    }
  }

  /** A copy of the whole file completes the backup. */
  lemma CopyCompletes(path: string, keep: nat, f: Files, content: Content, g: Files)
    requires keep != 0 && IsPartlyCopied(path, keep, f, content, g) && Lookup(f, path) == Some(content)
    ensures IsRolled(path, keep, f, g)
  {
    hide BakPath, Slot, Lookup, SameOthers;
  }

  // ----- Names that a backup leaves alone

  lemma SlotOfWritten(f: Files, path: string, content: Content, n: nat)
    ensures Slot(f[path := content], path, n) == Slot(f, path, n)
  {
    BakPathInjective(path, n, n);
  }

  lemma FileItself(path: string, keep: nat, f: Files, g: Files)
    requires SameOthers(path, keep, f, g)
    ensures Lookup(g, path) == Lookup(f, path)
  {
    hide BakPath;
    forall n: nat
      ensures path != BakPath(path, n)
    {
      BakPathInjective(path, n, n);
    }
  }

  /** Slots beyond those that are kept are neither read nor written. */
  lemma UnusedSlot(path: string, keep: nat, f: Files, g: Files, n: nat)
    requires SameOthers(path, keep, f, g)
    ensures n >= keep ==> Slot(g, path, n) == Slot(f, path, n)
  {
    hide BakPath;
    if n >= keep {
      forall i: nat | i < keep
        ensures BakPath(path, n) != BakPath(path, i)
      {
        BakPathInjective(path, n, i);
      }
    }
  }
}
