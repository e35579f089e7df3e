/** The property the tool is meant to have — a directory is deleted only when every file
    anywhere beneath it is stale — set against what `can_be_removed` computes, and the
    AND-combination that would have it. */
module AllStaleProperty {
  import opened Timestamps
  import opened Removal

  /** Every file anywhere under a listing is stale. */
  predicate AllStale(children: seq<Entry>, now: int)
    decreases children, 1
  {
    forall i :: 0 <= i < |children| ==> EntryStale(children[i], now)
  }

  /** A stale file, or a directory whose whole subtree is stale. */
  predicate EntryStale(e: Entry, now: int)
    decreases e, 0
  {
    match e
    case File(_, a, m) => !IsFresh(now, a, m)
    case Dir(_, ch) => AllStale(ch, now)
  }

  /** The code is safe in one direction: a subtree that is stale throughout is removable. */
  lemma AllStaleRemovable(children: seq<Entry>, now: int)
    requires AllStale(children, now)
    ensures Removable(children, now)
  {
    forall i | 0 <= i < |children| ensures !FreshFile(children[i], now) {
      assert EntryStale(children[i], now);
    }
    NoDirectFreshFileRemovable(children, now);
  }

  /** ... but not in the other: a fresh file one level down does not stop the deletion,
      because the flag is still true when the subdirectory is reached and `||` never
      looks inside it. */
  lemma NestedFreshFileIgnored()
    ensures var now := 2_000_000_000;
      var tree := [Dir("sub", [File("new.txt", 2_000_000_000_000, 2_000_000_000_000)])];
      Removable(tree, now) && !AllStale(tree, now)
  {
    var now := 2_000_000_000;
    var newFile := File("new.txt", 2_000_000_000_000, 2_000_000_000_000);
    var tree := [Dir("sub", [newFile])];
    assert IsFresh(now, newFile.atimeMs, newFile.mtimeMs);
    assert !EntryStale(tree[0].children[0], now);
    assert !AllStale(tree[0].children, now);
    assert !EntryStale(tree[0], now);
    NoDirectFreshFileRemovable(tree, now);
  }

  /** The verdict depends on listing order: a fresh file followed by an empty directory
      is removable, the same two entries the other way round are not. */
  lemma ListingOrderMatters()
    ensures var now := 2_000_000_000;
      var newFile := File("new.txt", 2_000_000_000_000, 2_000_000_000_000);
      var empty := Dir("empty", []);
      Removable([newFile, empty], now) && !Removable([empty, newFile], now)
  {
  }

  // ---------------------------------------------------------------------------
  // The corrected combination `remove = remove && can_be_removed(entry)`

  /** The verdict with AND in place of OR. */
  function CorrectedRemovable(children: seq<Entry>, now: int): (r: bool)
    decreases children, 1
  {
    CorrectedFold(true, children, now)
  }

  /** The flag of the corrected loop after the entries `s`, starting from `acc`. */
  function CorrectedFold(acc: bool, s: seq<Entry>, now: int): (r: bool)
    decreases s, 0
  {
    if s == [] then acc
    else CorrectedStep(CorrectedFold(acc, s[..|s| - 1], now), s[|s| - 1], now)
  }

  /** One corrected iteration: a subdirectory gives `acc && CorrectedRemovable(ch)`. */
  function CorrectedStep(acc: bool, e: Entry, now: int): (r: bool)
    decreases e
  {
    match e
    case Dir(_, ch) => acc && CorrectedRemovable(ch, now)
    case File(_, a, m) => if IsFresh(now, a, m) then false else acc
  }

  /** With AND, a directory is removable exactly when every file beneath it is stale. */
  lemma {:induction false} CorrectedIffAllStale(children: seq<Entry>, now: int)
    ensures CorrectedRemovable(children, now) == AllStale(children, now)
    decreases children, 1
  {
    CorrectedFoldIff(true, children, now);
  }

  lemma {:induction false} CorrectedFoldIff(acc: bool, s: seq<Entry>, now: int)
    ensures CorrectedFold(acc, s, now) == (acc && AllStale(s, now))
    decreases s, 0
  {
    if s != [] {
      var n := |s| - 1;
      var p, e := s[..n], s[n];
      CorrectedFoldIff(acc, p, now);
      CorrectedStepIff(CorrectedFold(acc, p, now), e, now);
      assert forall i :: 0 <= i < n ==> p[i] == s[i];
      assert AllStale(s, now) == (AllStale(p, now) && EntryStale(e, now));
    }
  }

  lemma {:induction false} CorrectedStepIff(acc: bool, e: Entry, now: int)
    ensures CorrectedStep(acc, e, now) == (acc && EntryStale(e, now))
    decreases e
  {
    match e
    case Dir(_, ch) => CorrectedIffAllStale(ch, now);
    case File(_, _, _) =>
  }
}
