/** `can_be_removed`: the walk over one directory listing that decides whether the
    directory may be deleted. */
module Removal {
  import opened Timestamps

  /** An entry of a directory listing. The order of `children` is the order in which
      `read_dir` yields them. */
  datatype Entry =
    | File(name: string, atimeMs: u64, mtimeMs: u64)
    | Dir(name: string, children: seq<Entry>)

  /** A plain file whose access or modification time is within three weeks of `now`. */
  predicate FreshFile(e: Entry, now: int)
  {
    e.File? && IsFresh(now, e.atimeMs, e.mtimeMs)
  }

  /** The verdict of `can_be_removed` on a directory whose listing is `children`. */
  function Removable(children: seq<Entry>, now: int): (r: bool)
    ensures children == [] ==> r
    ensures children != [] && FreshFile(children[|children| - 1], now) ==> !r
    decreases children, 1
  {
    Fold(true, children, now)
  }

  /** The `remove` flag after the loop has processed the entries `s`, starting from `acc`. */
  function Fold(acc: bool, s: seq<Entry>, now: int): (r: bool)
    ensures s != [] && FreshFile(s[|s| - 1], now) ==> !r
    // once false, only a subdirectory can make the flag true again
    ensures !acc && (forall i :: 0 <= i < |s| ==> s[i].File?) ==> !r
    decreases s, 0
  {
    if s == [] then acc
    else Step(Fold(acc, s[..|s| - 1], now), s[|s| - 1], now)
  }

  /** One iteration of the loop: a subdirectory is combined with a short-circuiting
      `remove || can_be_removed(entry)`; a fresh file clears the flag. */
  function Step(acc: bool, e: Entry, now: int): (r: bool)
    ensures FreshFile(e, now) ==> !r
    ensures acc && !FreshFile(e, now) ==> r
    ensures !acc && e.Dir? ==> r == Removable(e.children, now)
    ensures !acc && e.File? ==> !r
    decreases e
  {
    match e
    case Dir(_, ch) => acc || Removable(ch, now)
    case File(_, a, m) => if IsFresh(now, a, m) then false else acc
  }

  /** How many directories one call of `can_be_removed` on `children` lists with
      `read_dir`: its own, plus those of the subdirectories it recurses into. */
  function Listings(children: seq<Entry>, now: int): (r: nat)
    ensures r >= 1
    ensures children == [] ==> r == 1
    decreases children, 1
  {
    1 + FoldListings(true, children, now)
  }

  /** The listings made by the recursive calls while the loop processes `s` from `acc`. */
  function FoldListings(acc: bool, s: seq<Entry>, now: int): (r: nat)
    decreases s, 0
  {
    if s == [] then 0
    else FoldListings(acc, s[..|s| - 1], now) + StepListings(Fold(acc, s[..|s| - 1], now), s[|s| - 1], now)
  }

  /** A subdirectory is listed only when `||` evaluates its right operand, i.e. when the
      flag is false. */
  function StepListings(acc: bool, e: Entry, now: int): (r: nat)
    decreases e
  {
    match e
    case Dir(_, ch) => if acc then 0 else Listings(ch, now)
    case File(_, _, _) => 0
  }

  /** `can_be_removed`: walks the listing once, in order, keeping the `remove` flag.
      Returns the verdict and the number of directories listed along the way. */
  method CanBeRemoved(children: seq<Entry>, now: int) returns (remove: bool, listed: nat)
    ensures remove == Removable(children, now)
    ensures listed == Listings(children, now)
    decreases children
  {
    remove := true;
    listed := 1;
    for i := 0 to |children|
      invariant remove == Fold(true, children[..i], now)
      invariant listed == 1 + FoldListings(true, children[..i], now)
    {
      assert children[..i + 1][..i] == children[..i];
      match children[i]
      case Dir(_, ch) =>
        // `remove || can_be_removed(entry)`: the call happens only when `remove` is false
        if !remove {
          var sub, n := CanBeRemoved(ch, now);
          remove := sub;
          listed := listed + n;
        }
      case File(_, a, m) =>
        if IsFresh(now, a, m) {
          remove := false;
        }
    }
    assert children[..|children|] == children;
  }

  // ---------------------------------------------------------------------------
  // What the verdict is

  /** No entry of `s` after position `j` is a fresh file. */
  ghost predicate NoFreshFileAfter(s: seq<Entry>, j: int, now: int)
  {
    forall i :: 0 <= i < |s| && j < i ==> !FreshFile(s[i], now)
  }

  /** Position `j` of `s` holds a subdirectory that is itself removable. */
  ghost predicate RemovableDirAt(s: seq<Entry>, j: int, now: int)
  {
    0 <= j < |s| && s[j].Dir? && Removable(s[j].children, now)
  }

  /** A fresh last entry leaves no position with no fresh file after it. */
  lemma FreshLastEntry(s: seq<Entry>, now: int)
    requires s != [] && FreshFile(s[|s| - 1], now)
    ensures !NoFreshFileAfter(s, -1, now)
    ensures forall j :: 0 <= j < |s| ==> !NoFreshFileAfter(s, j, now) || !RemovableDirAt(s, j, now)
  {
  }

  /** Past a non-fresh last entry, the conditions on `s` below its last position are
      those on the listing without that entry. */
  lemma NonFreshLastEntry(s: seq<Entry>, now: int)
    requires s != [] && !FreshFile(s[|s| - 1], now)
    ensures NoFreshFileAfter(s, -1, now) <==> NoFreshFileAfter(s[..|s| - 1], -1, now)
    ensures forall j :: 0 <= j < |s| - 1 ==>
      (RemovableDirAt(s, j, now) <==> RemovableDirAt(s[..|s| - 1], j, now)) &&
      (NoFreshFileAfter(s, j, now) <==> NoFreshFileAfter(s[..|s| - 1], j, now))
  {
    var p := s[..|s| - 1];
    assert forall i :: 0 <= i < |p| ==> p[i] == s[i];
  }

  /** The loop's result from any starting flag: it is true iff the flag started true and
      no fresh file occurs, or some removable subdirectory occurs with no fresh file
      after it. */
  lemma {:induction false} FoldCharacterization(acc: bool, s: seq<Entry>, now: int)
    ensures Fold(acc, s, now) <==>
      (acc && NoFreshFileAfter(s, -1, now)) ||
      (exists j :: RemovableDirAt(s, j, now) && NoFreshFileAfter(s, j, now))
    decreases |s|
  {
    if s != [] {
      var n := |s| - 1;
      var p, e := s[..n], s[n];
      FoldCharacterization(acc, p, now);
      assert forall i :: 0 <= i < n ==> p[i] == s[i];
      if FreshFile(e, now) {
        FreshLastEntry(s, now);
      } else {
        NonFreshLastEntry(s, now);
        if (exists j :: RemovableDirAt(p, j, now) && NoFreshFileAfter(p, j, now)) {
          var j :| RemovableDirAt(p, j, now) && NoFreshFileAfter(p, j, now);
          assert RemovableDirAt(s, j, now) && NoFreshFileAfter(s, j, now);
        }
        if (exists j :: RemovableDirAt(s, j, now) && NoFreshFileAfter(s, j, now)) {
          var j :| RemovableDirAt(s, j, now) && NoFreshFileAfter(s, j, now);
          if j < n {
            assert RemovableDirAt(p, j, now) && NoFreshFileAfter(p, j, now);
          }
        }
        match e
        case File(_, _, _) =>
          assert !RemovableDirAt(s, n, now);
        case Dir(_, ch) =>
          assert RemovableDirAt(s, n, now) <==> Removable(ch, now);
          assert NoFreshFileAfter(s, n, now);
      }
    }
  }

  /** The verdict on a directory: removable iff no fresh file sits directly in it, or some
      subdirectory listed after the last such file is itself removable. */
  lemma RemovableIff(children: seq<Entry>, now: int)
    ensures Removable(children, now) <==>
      NoFreshFileAfter(children, -1, now) ||
      (exists j :: RemovableDirAt(children, j, now) && NoFreshFileAfter(children, j, now))
  {
    FoldCharacterization(true, children, now);
  }

  /** An empty directory is removable with one listing (the contracts of `Removable` and `Listings`). */
  lemma EmptyDirectoryRemovable(now: int)
    ensures Removable([], now) && Listings([], now) == 1
  {
  }

  /** The file case of `Step`'s contract, stated per file; a file never causes a listing. */
  lemma FileStep(acc: bool, name: string, atimeMs: u64, mtimeMs: u64, now: int)
    ensures Step(acc, File(name, atimeMs, mtimeMs), now) == (acc && !IsFresh(now, atimeMs, mtimeMs))
    ensures !IsFresh(now, atimeMs, mtimeMs) ==> Step(acc, File(name, atimeMs, mtimeMs), now) == acc
    ensures StepListings(acc, File(name, atimeMs, mtimeMs), now) == 0
  {
  }

  /** The subdirectory case of `Step`'s contract, with the listings it causes. */
  lemma DirStep(acc: bool, name: string, ch: seq<Entry>, now: int)
    ensures acc ==> Step(acc, Dir(name, ch), now) && StepListings(acc, Dir(name, ch), now) == 0
    ensures !acc ==> Step(acc, Dir(name, ch), now) == Removable(ch, now)
    ensures !acc ==> StepListings(acc, Dir(name, ch), now) == Listings(ch, now)
  {
  }

  /** A directory holding only files is removable iff every one of them is stale. */
  lemma FilesOnlyRemovableIff(children: seq<Entry>, now: int)
    requires forall i :: 0 <= i < |children| ==> children[i].File?
    ensures Removable(children, now) <==>
      forall i :: 0 <= i < |children| ==> !IsFresh(now, children[i].atimeMs, children[i].mtimeMs)
  {
    RemovableIff(children, now);
  }

  /** While the flag is true and no fresh file comes, it stays true and no subdirectory
      is listed. */
  lemma {:induction false} NoFreshFileKeepsFlag(s: seq<Entry>, now: int)
    requires NoFreshFileAfter(s, -1, now)
    ensures Fold(true, s, now) && FoldListings(true, s, now) == 0
    decreases |s|
  {
    if s != [] {
      var p := s[..|s| - 1];
      assert forall i :: 0 <= i < |p| ==> p[i] == s[i];
      NoFreshFileKeepsFlag(p, now);
      assert !FreshFile(s[|s| - 1], now);
    }
  }

  /** A directory with no fresh file directly inside it is removable whatever its
      subdirectories hold, and none of them is listed. */
  lemma NoDirectFreshFileRemovable(children: seq<Entry>, now: int)
    requires forall i :: 0 <= i < |children| ==> !FreshFile(children[i], now)
    ensures Removable(children, now) && Listings(children, now) == 1
  {
    NoFreshFileKeepsFlag(children, now);
  }

  /** A fresh last entry blocks the directory (the second ensures of `Removable`). */
  lemma LastFreshFileBlocks(children: seq<Entry>, now: int)
    requires children != [] && FreshFile(children[|children| - 1], now)
    ensures !Removable(children, now)
  {
  }
}
