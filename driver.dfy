/** The loop of `main` over the top-level entries of `~/tmp`: each one is either deleted
    or kept, according to `can_be_removed`. */
module Driver {
  import opened Removal

  /** What the program does with one top-level entry (named relative to `~/tmp`). */
  datatype Action = Delete(path: string) | Keep(path: string)

  /** How the run ends: every entry handled, or a panic when `read_dir` is called on a
      top-level entry that is a plain file. */
  datatype Outcome = Completed | Panicked(path: string)

  /** The decision for one top-level directory. */
  function Decide(e: Entry, now: int): (a: Action)
    requires e.Dir?
    ensures a.path == e.name
    ensures a.Delete? <==> Removable(e.children, now)
  {
    if Removable(e.children, now) then Delete(e.name) else Keep(e.name)
  }

  /** The names that `actions` deletes. */
  function Deleted(actions: seq<Action>): (d: seq<string>)
    ensures |d| <= |actions|
    ensures forall p :: p in d <==> exists k :: 0 <= k < |actions| && actions[k] == Delete(p)
  {
    if actions == [] then []
    else
      var last := match actions[|actions| - 1] case Delete(p) => [p] case Keep(_) => [];
      Deleted(actions[..|actions| - 1]) + last
  }

  /** The loop of `main`: entries are handled in listing order; each directory is deleted
      exactly when it is removable and kept otherwise; the first plain file stops the run. */
  method Scrub(top: seq<Entry>, now: int) returns (actions: seq<Action>, outcome: Outcome)
    ensures |actions| <= |top|
    ensures forall k :: 0 <= k < |actions| ==> top[k].Dir? && actions[k] == Decide(top[k], now)
    ensures outcome.Completed? <==> |actions| == |top|
    ensures outcome.Panicked? ==> top[|actions|].File? && outcome.path == top[|actions|].name
  {
    actions := [];
    var i := 0;
    while i < |top|
      invariant 0 <= i <= |top| && |actions| == i
      invariant forall k :: 0 <= k < i ==> top[k].Dir? && actions[k] == Decide(top[k], now)
    {
      match top[i]
      case File(name, _, _) =>
        return actions, Panicked(name);
      case Dir(name, ch) =>
        var remove, _ := CanBeRemoved(ch, now);
        if remove {
          actions := actions + [Delete(name)];
        } else {
          actions := actions + [Keep(name)];
        }
      i := i + 1;
    }
    outcome := Completed;
  }

  /** A completed run deletes exactly the removable top-level directories and keeps the rest. */
  lemma CompletedRunDeletesExactlyRemovable(top: seq<Entry>, now: int, actions: seq<Action>)
    requires |actions| == |top|
    requires forall k :: 0 <= k < |top| ==> top[k].Dir? && actions[k] == Decide(top[k], now)
    requires forall k, l :: 0 <= k < l < |top| ==> top[k].name != top[l].name  // names in a listing are distinct
    ensures forall k :: 0 <= k < |top| ==>
      (Removable(top[k].children, now) ==> top[k].name in Deleted(actions))
    ensures forall k :: 0 <= k < |top| ==>
      (!Removable(top[k].children, now) ==> top[k].name !in Deleted(actions))
    ensures forall p :: p in Deleted(actions) ==>
      exists k :: 0 <= k < |top| && top[k].name == p && Removable(top[k].children, now)
  {
  }
}
