/**
  Flattening a list of cell width ranges into a map from code points to widths.
 */
module CellWidths {
  import opened Wrappers

  newtype U32 = x: int | 0 <= x < 0x1_0000_0000
  newtype U8 = x: int | 0 <= x < 0x100

  /** The code points from `first` to `last`, both included, are `width` cells wide; none if `first > last`. */
  datatype CellWidth = CellWidth(first: U32, last: U32, width: U8) {
    predicate Covers(c: U32) {
      first <= c <= last
    }
  }

  /** The lookup that the map replaces: the last entry that covers `c` decides. */
  function LastMatch(entries: seq<CellWidth>, c: U32): Option<U8> {
    if entries == [] then None
    else if entries[|entries| - 1].Covers(c) then Some(entries[|entries| - 1].width)
    else LastMatch(entries[..|entries| - 1], c)
  }

  /** Entry `i` covers `c` and no later entry does. */
  ghost predicate Decides(entries: seq<CellWidth>, i: nat, c: U32) {
    && i < |entries|
    && entries[i].Covers(c)
    && forall j | i < j < |entries| :: !entries[j].Covers(c)
  }

  lemma {:induction false} LastMatchDecides(entries: seq<CellWidth>, c: U32)
    ensures forall w :: LastMatch(entries, c) == Some(w) <==>
              exists i: nat :: Decides(entries, i, c) && entries[i].width == w
    ensures LastMatch(entries, c) == None <==> forall i | 0 <= i < |entries| :: !entries[i].Covers(c)
  {
    if entries != [] {
      var n: nat := |entries| - 1;
      var init := entries[..n];
      LastMatchDecides(init, c);
      forall i: nat | i < n && !entries[n].Covers(c)
        ensures Decides(entries, i, c) <==> Decides(init, i, c)
      {
        assert forall j | 0 <= j < n :: entries[j] == init[j];
      }
      assert entries[n].Covers(c) ==> Decides(entries, n, c);
      DecidesOnce(entries, c);
    }
  }

  ghost predicate Agrees(m: map<U32, U8>, entries: seq<CellWidth>) {
    forall c: U32 :: (if c in m then Some(m[c]) else None) == LastMatch(entries, c)
  }

  /** The inner loop: an inclusive range of 32-bit numbers, which may end at the largest one. */
  method InsertRange(m: map<U32, U8>, entry: CellWidth) returns (r: map<U32, U8>)
    ensures forall c: U32 :: entry.first <= c <= entry.last ==> c in r && r[c] == entry.width
    ensures forall c: U32 :: !(entry.first <= c <= entry.last) ==> (c in r <==> c in m) && (c in m ==> r[c] == m[c])
  {
    r := m;
    var i := entry.first;
    var exhausted := entry.last < entry.first;
    while !exhausted
      invariant !exhausted ==> entry.first <= i <= entry.last
      invariant forall c: U32 :: entry.Covers(c) && (exhausted || c < i) ==> c in r && r[c] == entry.width
      invariant forall c: U32 :: !(entry.Covers(c) && (exhausted || c < i)) ==>
                  (c in r <==> c in m) && (c in m ==> r[c] == m[c])
      decreases !exhausted, entry.last as int - i as int
    {
      r := r[i := entry.width];
      if i == entry.last {
        exhausted := true;
      } else {
        i := i + 1;
      }
    }
  }

  /** A code point is in the map exactly when some entry covers it, and then with the width of the last such entry. */
  method CompileToMap(cellwidths: Option<seq<CellWidth>>) returns (r: Option<map<U32, U8>>)
    ensures r.None? <==> cellwidths.None?
    ensures r.Some? ==> forall c: U32 :: c in r.value <==> exists i: nat :: Decides(cellwidths.value, i, c)
    ensures r.Some? ==> forall c: U32, i: nat | Decides(cellwidths.value, i, c) ::
              c in r.value && r.value[c] == cellwidths.value[i].width
  {
    match cellwidths
    case None =>
      r := None;
    case Some(entries) =>
      var m := map[];
      for n := 0 to |entries|
        invariant Agrees(m, entries[..n])
      {
        m := InsertRange(m, entries[n]);
        assert entries[..n + 1][..n] == entries[..n];
      }
      assert entries[..|entries|] == entries;
      forall c: U32
        ensures c in m <==> exists i: nat :: Decides(entries, i, c)
        ensures forall i: nat | Decides(entries, i, c) :: m[c] == entries[i].width
      {
        LastMatchDecides(entries, c);
        DecidesOnce(entries, c);
      }
      r := Some(m);
  }

  lemma DecidesOnce(entries: seq<CellWidth>, c: U32)
    ensures forall i: nat, j: nat :: Decides(entries, i, c) && Decides(entries, j, c) ==> i == j
  {
  }
}
