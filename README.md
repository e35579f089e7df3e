# scrubber — a Dafny model of the removability decision

scrubber is a small tool that cleans out `~/tmp`. It looks at each top-level entry of
that directory. It deletes the entry when `can_be_removed` judges it removable, and
keeps it otherwise. `can_be_removed` walks a directory listing in `read_dir` order
with one boolean flag, `remove`, which starts true:

- a plain file clears the flag when its access or modification time, truncated to
  whole seconds, is less than three weeks before `now`;
- a subdirectory is combined with `remove = remove || can_be_removed(entry)`.

Rust's `||` short-circuits. So while the flag is true, a subdirectory is neither
listed nor able to change the flag. While the flag is false, the subdirectory's own
verdict replaces it.

This project models that decision as written and proves what it actually does. It
also proves that the code does not meet the stricter rule "every file beneath is
stale".

Files:

- `timestamps.dfy` (module `Timestamps`): the time arithmetic. File times are
  unsigned 64-bit millisecond counts (`u64`). They are cast to `i64`
  (two's-complement wrap, `AsI64`) and divided by 1000 rounding toward zero
  (`TruncDiv1000`). Each one is then compared with `now` against
  `ThreeWeeks` = 1 814 400 s (`Recent`, `IsFresh`). `now` is the wall clock in whole
  seconds. The comparison is exact on whole seconds: the file time carries no
  sub-second part, so the clock's fraction of a second cannot change the outcome of
  `now - t < 3 weeks`.
- `removal.dfy` (module `Removal`): the directory tree `Entry = File | Dir`. A `Dir`'s
  `children` sequence is the listing order. The specification functions are
  `Removable`, `Fold` and `Step`. `Fold` applies `Step` to each entry in turn, last
  entry outermost. `Listings` counts the directories a call lists. The method
  `CanBeRemoved` is the loop of `can_be_removed`, with the recursive call made only
  when `||` evaluates it. Beside them are the lemmas that characterise the verdict.
- `all_stale.dfy` (module `AllStaleProperty`): the "all descendants stale" property. It proves
  that the code satisfies it in one direction and gives a counterexample for the
  other. It also holds the AND-combination, proved equal to that property.
- `driver.dfy` (module `Driver`): the loop of `main`. Each top-level directory
  becomes a `Delete` or `Keep` action. A top-level plain file makes `read_dir` panic
  and ends the run (`Panicked`). Actions taken before that point stand.

## Model

| member | source | states |
|---|---|---|
| `Timestamps.AsI64` | src/main.rs:25-26 | `ms as i64` is the unique value in the i64 range that is congruent to the u64 timestamp modulo 2^64 |
| `Timestamps.TruncDiv1000` | src/main.rs:25-26 | `/ 1000` on an i64 rounds toward zero: for x >= 0 the result r satisfies 1000r <= x < 1000r + 1000; for x < 0 it satisfies 1000r - 1000 < x <= 1000r, with r <= 0 |
| `Timestamps.Seconds` | src/main.rs:25-26 | `ms as i64 / 1000`: for a timestamp below 2^63 it is ms / 1000; a larger one wraps and gives a value at or below 0; the result always lies within ±9 223 372 036 854 775 |
| `Timestamps.Recent` | src/main.rs:28 | `now - t < old` on whole seconds, with `old` the three weeks of line 15: t is recent iff t >= now − 1 814 400 + 1; any time at or after `now` is recent |
| `Timestamps.IsFresh` | src/main.rs:24-28 | the condition of line 28: a file is fresh iff the later of its truncated access and modification times is recent |
| `Timestamps.RecentIffMillis` | src/main.rs:25-28 | for a timestamp that fits in an i64, the seconds value is ms / 1000, and the file time is within three weeks of `now` iff ms >= 1000·(now − 1 814 400 + 1): the milliseconds are discarded before the comparison |
| `Timestamps.WrappedTimestampIsOld` | src/main.rs:25-28 | a u64 timestamp of 2^63 or more wraps to a negative i64, so it reads as a time at or before the epoch and is never recent once `now` is three weeks past the epoch |
| `Removal.Removable` | src/main.rs:14-35 | the verdict of `can_be_removed` on a listing: the loop run from `remove = true`; an empty listing gives true; a listing whose last entry is a fresh file gives false |
| `Removal.Fold` | src/main.rs:18-32 | the `remove` flag after the loop has processed a prefix of the listing, entry by entry in listing order; a fresh last entry leaves it false; once false, files alone never make it true again |
| `Removal.Step` | src/main.rs:21-30 | one loop iteration: a subdirectory gives acc OR `Removable(ch)`, the right side evaluated only when acc is false; a fresh file gives false; a stale file leaves the flag. Its contract: a fresh file makes it false; a true flag survives every other entry; a false flag takes a subdirectory's verdict and stays false for a file |
| `Removal.Listings` | src/main.rs:19-22 | the number of `read_dir` calls a call of `can_be_removed` makes: its own, plus those of the subdirectories that the OR of line 22 evaluates; at least 1, and exactly 1 for an empty listing |
| `Removal.CanBeRemoved` | src/main.rs:14-35 | the loop returns `Removable(children, now)`, the left-to-right fold of the flag; it recurses into a subdirectory only while the flag is false; the number of directories it lists is `Listings(children, now)` |
| `Removal.FoldCharacterization` | src/main.rs:18-34 | from any starting flag, the loop ends true iff (the flag started true and no fresh file occurs) or some removable subdirectory occurs with no fresh file after it; both directions |
| `Removal.RemovableIff` | src/main.rs:18-34 | a directory is removable iff it directly holds no fresh file, or some subdirectory listed after its last direct fresh file is itself removable |
| `Removal.EmptyDirectoryRemovable` | src/main.rs:18-34 | an empty listing yields true, and only that directory is listed |
| `Removal.FileStep` | src/main.rs:24-30 | a file entry makes the flag `acc && !IsFresh`: a fresh file clears it, a stale file leaves it unchanged; a file never causes a listing |
| `Removal.DirStep` | src/main.rs:21-22 | while the flag is true, a subdirectory leaves it true and is not listed; while it is false, the subdirectory's own verdict replaces it, after that subdirectory is walked |
| `Removal.FilesOnlyRemovableIff` | src/main.rs:18-34 | a directory holding only files is removable iff every file in it is stale |
| `Removal.NoFreshFileKeepsFlag` | src/main.rs:18-31 | over entries with no fresh file, a true flag stays true and no subdirectory is listed |
| `Removal.NoDirectFreshFileRemovable` | src/main.rs:18-22 | a directory with no fresh file directly inside it is removable whatever its subdirectories contain, and none of them is listed |
| `Removal.LastFreshFileBlocks` | src/main.rs:28-34 | if the last entry in listing order is a fresh file, the directory is not removable |
| `AllStaleProperty.AllStaleRemovable` | src/main.rs:18-34 | if every file anywhere in the subtree is stale, the directory is removable |
| `AllStaleProperty.NestedFreshFileIgnored` | src/main.rs:21-22 | a directory whose only entry is a subdirectory holding a just-accessed file is still removable, although not all of its files are stale |
| `AllStaleProperty.ListingOrderMatters` | src/main.rs:19-34 | the same two entries (a fresh file and an empty directory) give true in one listing order and false in the other |
| `AllStaleProperty.CorrectedIffAllStale` | src/main.rs:22 | with AND in place of OR, a directory is removable exactly when every file beneath it is stale |
| `AllStaleProperty.CorrectedFoldIff` | src/main.rs:18-34 | the AND-fold from flag `acc` ends true iff `acc` holds and every entry's subtree is stale |
| `AllStaleProperty.CorrectedStepIff` | src/main.rs:21-30 | one AND-step keeps the flag iff the entry (a file, or a whole subtree) is stale |
| `Driver.Decide` | src/main.rs:44-49 | a top-level directory is deleted iff `can_be_removed` holds for it, and kept otherwise; the action names that entry |
| `Driver.Scrub` | src/main.rs:42-50 | handles the top-level entries in listing order; every directory it reaches is deleted exactly when removable and kept otherwise; it completes iff no top-level entry is a plain file; otherwise it stops at the first plain file, reporting that entry's name |
| `Driver.Deleted` | src/main.rs:44-46 | a path is in the deletion list iff some action deletes it |
| `Driver.CompletedRunDeletesExactlyRemovable` | src/main.rs:42-50 | after a completed run over a listing with distinct names, every removable top-level directory is in the deletion list, no non-removable one is, and every deleted path names a removable top-level directory |

## Left out

- File-system and console calls are replaced by the `Entry` tree and the returned
  actions. These are `read_dir`, `metadata`, `is_dir`, `remove_dir_all`,
  `home_dir` and `println!` (src/main.rs:19-24, 38-48).
- The result of `remove_dir_all` is discarded by the source (src/main.rs:46). A
  `Delete` action therefore stands for an attempted deletion, whether it succeeded
  or not.
- The clock is one parameter `now` for the whole scan. The source reads `now_utc()`
  again in every recursive call (src/main.rs:16), so a recursive call could see a
  slightly later time. The `time` crate's `Tm`/`Timespec` conversions appear only
  as their effect on whole seconds.
- Panics inside the walk are outside the model: the tree assumes every listing and
  metadata read succeeds (src/main.rs:19, 20, 24). So are a missing home directory
  and an unreadable `~/tmp` (src/main.rs:38, 42). The panic from calling `read_dir`
  on a top-level plain file (src/main.rs:44) is modelled as `Panicked`.
- The `time` crate panics on a `Duration` outside its range. This can happen when
  `now` minus a wrapped timestamp is extreme. That case is not modelled.
- Symbolic links are not modelled: `is_dir` and `metadata` follow them. A link to
  an ancestor directory therefore makes `can_be_removed` recurse without end once
  the flag is false. A finite `Entry` tree cannot express such a cycle. Also left
  out are cross-device trees and the nightly `#![feature]` gates (src/main.rs:1-2).
- Features that this version of the code does not have are not modelled: three
  verdicts (empty, removable with sizes and latest time, blocked with a culprit
  path), an mtime-only policy, error propagation instead of
  panics, a directory-name filter, a dry-run flag, an early exit on the first
  blocking entry. The model follows the code: a boolean result, `||` at line 22, and
  a loop that always runs to the end of the listing.

## Findings

| source | as written | input that shows it | evidently intended | confidence | as-written member | corrected member |
|---|---|---|---|---|---|---|
| src/main.rs:22 | line 22 combines with a short-circuiting OR: a subdirectory is consulted only while the flag is false, and its verdict then overrides the flag | `~/tmp/x` whose only entry is `sub/`, and `sub/` holds `new.txt` accessed just now: `x` is judged removable and deleted | a directory is removable only if every file beneath it is stale (`remove && can_be_removed(entry)`) | not executed; high | `AllStaleProperty.NestedFreshFileIgnored` | `AllStaleProperty.CorrectedIffAllStale` |

The driver model (`Driver.Scrub`) keeps the `||` of the code, because it describes
what the program does. The corrected AND-fold stands alone, with its intended
property proved.
