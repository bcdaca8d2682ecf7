/** The rolling file buffer: when to archive, how, and what the files on disk hold over a whole run. */
module RollingBuffer {
  import opened Wrappers
  import opened RollingFile

  // ---- When to roll ----

  datatype RollingPolicy =
    | RollBySize(threshold: nat)
    | RollEvery(interval: int, next: Option<int>)

  /** What `apply` answers, for a file of the given size at the given time. */
  predicate Due(policy: RollingPolicy, now: int, size: nat) {
    match policy
    case RollBySize(threshold) => size >= threshold
    case RollEvery(interval, next) => now >= if next.Some? then next.value else now + interval
  }

  /** The policy after `apply`. */
  function Applied(policy: RollingPolicy, now: int): RollingPolicy {
    match policy
    case RollBySize(_) => policy
    case RollEvery(interval, next) =>
      if Due(policy, now, 0) || next.None? then RollEvery(interval, Some(now + interval)) else policy
  }

  /** The policy after it has been asked at each of these times. */
  function AskedAt(policy: RollingPolicy, times: seq<int>): RollingPolicy {
    if times == [] then policy
    else Applied(AskedAt(policy, times[..|times| - 1]), times[|times| - 1])
  }

  /** Once due, a timed policy keeps waiting for at least the interval. */
  lemma {:induction false} NextIsFarEnough(policy: RollingPolicy, times: seq<int>, i: nat)
    requires policy.RollEvery? && i < |times| && Due(AskedAt(policy, times[..i]), times[i], 0)
    requires forall j, k | 0 <= j <= k < |times| :: times[j] <= times[k]
    ensures var after := AskedAt(policy, times);
            after.RollEvery? && after.interval == policy.interval &&
            after.next.Some? && after.next.value >= times[i] + policy.interval
  {
    var n := |times| - 1;
    var before := AskedAt(policy, times[..n]);
    KeepsInterval(policy, times[..n]);
    if i == n {
    } else {
      assert times[..n][..i] == times[..i];
      NextIsFarEnough(policy, times[..n], i);
    }
  }

  lemma {:induction false} KeepsInterval(policy: RollingPolicy, times: seq<int>)
    requires policy.RollEvery?
    ensures AskedAt(policy, times).RollEvery? && AskedAt(policy, times).interval == policy.interval
  {
    if times == [] {
    } else {
      KeepsInterval(policy, times[..|times| - 1]);
    }
  }

  /** A timed policy that starts afresh rolls at request k. */
  predicate RollsAt(interval: int, times: seq<int>, k: nat)
    requires k < |times|
  {
    Due(AskedAt(RollEvery(interval, None), times[..k]), times[k], 0)
  }

  /** Request i is the last roll before k, or the first request when there was no roll before k. */
  ghost predicate CountsFrom(interval: int, times: seq<int>, i: nat, k: nat)
    requires k < |times|
  {
    i < k && (i == 0 || RollsAt(interval, times, i)) && forall j | i < j < k :: !RollsAt(interval, times, j)
  }

  /** There is always such a request, unless k is the first itself. */
  lemma {:induction false} SomethingCounts(interval: int, times: seq<int>, k: nat) returns (i: nat)
    requires 0 < k < |times|
    ensures CountsFrom(interval, times, i, k)
  {
    hide RollsAt;
    if k == 1 {
      i := 0;
    } else if RollsAt(interval, times, k - 1) {
      i := k - 1;
    } else {
      i := SomethingCounts(interval, times, k - 1);
    }
  }

  lemma {:induction false} NextFollows(interval: int, times: seq<int>, i: nat, k: nat)
    requires k < |times| && CountsFrom(interval, times, i, k)
    ensures AskedAt(RollEvery(interval, None), times[..k]) == RollEvery(interval, Some(times[i] + interval))
    decreases k
  {
    var policy := RollEvery(interval, None);
    assert times[..k][..k - 1] == times[..k - 1];
    KeepsInterval(policy, times[..i]);
    if i == k - 1 {
      assert times[..0] == [];
    } else {
      NextFollows(interval, times, i, k - 1);
      assert !RollsAt(interval, times, k - 1);
    }
  }

  /** A request rolls exactly when the interval has passed since the last roll, or since the first request. */
  lemma TimedRollIff(interval: int, times: seq<int>, k: nat)
    requires k < |times|
    ensures k == 0 ==> (RollsAt(interval, times, k) <==> interval <= 0)
    ensures forall i: nat | CountsFrom(interval, times, i, k) ::
              RollsAt(interval, times, k) <==> times[k] >= times[i] + interval
  {
    assert times[..0] == [];
    forall i: nat | CountsFrom(interval, times, i, k)
      ensures RollsAt(interval, times, k) <==> times[k] >= times[i] + interval
    {
      NextFollows(interval, times, i, k);
    }
  }

  /** Two rolls by time are at least the interval apart, and a first request never rolls. */
  lemma RollsAreApart(policy: RollingPolicy, times: seq<int>, i: nat, j: nat)
    requires policy.RollEvery? && i < j < |times|
    requires forall p, q | 0 <= p <= q < |times| :: times[p] <= times[q]
    requires Due(AskedAt(policy, times[..i]), times[i], 0) && Due(AskedAt(policy, times[..j]), times[j], 0)
    ensures times[j] - times[i] >= policy.interval
    ensures policy.next.None? && policy.interval > 0 ==> i > 0
  {
    assert times[..j][..i] == times[..i];
    NextIsFarEnough(policy, times[..j], i);
    assert times[..0] == [];
  }

  // ---- What a roll does to the files ----

  datatype ArchivePolicy = ArchiveIncremental | ArchiveTimestamp(pattern: string)

  function Stamped(base: string, stamp: string): string {
    base + "." + stamp
  }

  /** The stamped file is named like the live one, followed by a dot and the stamp. */
  lemma StampedName(base: string, stamp: string)
    ensures var path := Stamped(base, stamp);
            |path| == |base| + 1 + |stamp| && base <= path && path[|base|] as int == 46 && path[|base| + 1..] == stamp
  {}

  /** The file whose numbered archives this policy shifts. */
  function ShiftBase(policy: ArchivePolicy, base: string, stamp: string): string {
    if policy.ArchiveIncremental? then base else Stamped(base, stamp)
  }

  ghost predicate Shifted(before: Files, after: Files, base: string) {
    exists n :: ShiftedUp(before, after, base, n)
  }

  ghost predicate Rolled(policy: ArchivePolicy, before: Files, after: Files, base: string, stamp: string) {
    var target := Stamped(base, stamp);
    match policy
    case ArchiveIncremental => exists mid :: Shifted(before, mid, base) && after == mid[base := []]
    case ArchiveTimestamp(pattern) =>
      if pattern == "" then after == before
      else exists mid ::
          && (if target in before then Shifted(before, mid, target) else mid == before)
          && after == if base in mid then mid[target := mid[base]][base := []] else mid
  }

  function Appended(files: Files, path: string, s: seq<byte>): Files {
    if s == [] then files else files[path := Content(At(files, path)) + s]
  }

  /** One write, with or without a roll before it; a roll by itself writes nothing. */
  ghost predicate Evolves(policy: ArchivePolicy, before: Files, after: Files, base: string, stamp: string,
                          s: seq<byte>)
  {
    exists mid :: (mid == before || Rolled(policy, before, mid, base, stamp)) && after == Appended(mid, base, s)
  }

  // ---- Nothing is lost ----

  /** Everything logged under one stamp: the archives, highest number first, the stamped file, then the live file. */
  function Log(policy: ArchivePolicy, files: Files, base: string, stamp: string, bound: nat): seq<byte> {
    if policy.ArchiveIncremental? then History(files, base, bound)
    else History(files, Stamped(base, stamp), bound) + Content(At(files, base))
  }

  ghost predicate Bounded(policy: ArchivePolicy, files: Files, base: string, stamp: string, bound: nat) {
    NoArchivesFrom(files, ShiftBase(policy, base, stamp), bound)
  }

  lemma {:induction false} SameArchives(files: Files, others: Files, base: string, n: nat)
    requires forall k: nat :: At(files, ArchivePath(base, k)) == At(others, ArchivePath(base, k))
    ensures Archived(files, base, n) == Archived(others, base, n)
  {
    hide ArchivePath, Decimal;
    if n == 0 {
    } else {
      SameArchives(files, others, base, n - 1);
    }
  }

  /** The live file is neither the stamped file nor a numbered archive of either. */
  lemma LiveIsNoArchive(base: string, stamp: string, k: nat)
    ensures Stamped(base, stamp) != base
    ensures ArchivePath(base, k) != base
    ensures ArchivePath(Stamped(base, stamp), k) != base
    ensures ArchivePath(Stamped(base, stamp), k) != Stamped(base, stamp)
  {
    hide Decimal;
    assert |Stamped(base, stamp)| > |base|;
    assert |ArchivePath(base, k)| > |base|;
    assert |ArchivePath(Stamped(base, stamp), k)| > |Stamped(base, stamp)|;
  }

  /** Only the live file and the stamped file differ: the numbered archives are those of before. */
  lemma ArchivesUntouched(policy: ArchivePolicy, before: Files, after: Files, base: string, stamp: string, n: nat)
    requires forall p | p != base && p != Stamped(base, stamp) :: At(after, p) == At(before, p)
    requires policy.ArchiveIncremental? ==> At(after, Stamped(base, stamp)) == At(before, Stamped(base, stamp))
    ensures Archived(after, ShiftBase(policy, base, stamp), n) == Archived(before, ShiftBase(policy, base, stamp), n)
    ensures Bounded(policy, before, base, stamp, n) ==> Bounded(policy, after, base, stamp, n)
  {
    hide ArchivePath, Decimal, Stamped;
    var shifted := ShiftBase(policy, base, stamp);
    forall k: nat ensures At(after, ArchivePath(shifted, k)) == At(before, ArchivePath(shifted, k)) {
      LiveIsNoArchive(base, stamp, k);
    }
    SameArchives(after, before, shifted, n);
  }

  lemma BoundIsLoose(files: Files, base: string, bound: nat)
    requires NoArchivesFrom(files, base, bound)
    ensures NoArchivesFrom(files, base, bound + 1)
    ensures Archived(files, base, bound + 1) == Archived(files, base, bound)
  {
    hide ArchivePath, Decimal;
    Unfold(files, base, bound);
    assert At(files, ArchivePath(base, bound)) == None;
  }

  /** The incremental archiver keeps the log. */
  lemma IncrementalKeepsLog(before: Files, after: Files, base: string, stamp: string, bound: nat)
    requires Rolled(ArchiveIncremental, before, after, base, stamp) && NoArchivesFrom(before, base, bound)
    ensures History(after, base, bound + 1) == History(before, base, bound)
    ensures NoArchivesFrom(after, base, bound + 1)
  {
    hide ArchivePath, Decimal, ShiftedUp;
    var mid :| Shifted(before, mid, base) && after == mid[base := []];
    var n :| ShiftedUp(before, mid, base, n);
    ShiftKeepsHistory(before, mid, base, n, bound);
    ArchivesUntouched(ArchiveIncremental, mid, after, base, stamp, bound + 1);
    assert At(mid, base) == None && At(after, base) == Some([]);
  }

  /** The time stamp archiver keeps the log too, whether the stamped file exists already or not. */
  lemma TimestampKeepsLog(policy: ArchivePolicy, before: Files, after: Files, base: string, stamp: string, bound: nat)
    requires policy.ArchiveTimestamp? && Rolled(policy, before, after, base, stamp)
    requires Bounded(policy, before, base, stamp, bound)
    ensures Log(policy, after, base, stamp, bound + 1) == Log(policy, before, base, stamp, bound)
    ensures Bounded(policy, after, base, stamp, bound + 1)
  {
    hide ArchivePath, Decimal, ShiftedUp, Stamped;
    var target := Stamped(base, stamp);
    LiveIsNoArchive(base, stamp, 0);
    if policy.pattern == "" {
      BoundIsLoose(before, target, bound);
    } else {
      var mid :| && (if target in before then Shifted(before, mid, target) else mid == before)
                 && after == if base in mid then mid[target := mid[base]][base := []] else mid;
      FreedFile(before, mid, base, stamp);
      FreedKeepsHistory(before, mid, base, stamp, bound);
      ArchivesUntouched(policy, mid, after, base, stamp, bound + 1);
      assert At(mid, target) == None;
      if base in mid {
        assert At(after, target) == At(mid, base) && At(after, base) == Some([]);
      }
    }
  }

  /** The fallback shift frees the stamped file's name and leaves the live file alone. */
  lemma FreedFile(before: Files, mid: Files, base: string, stamp: string)
    requires if Stamped(base, stamp) in before then Shifted(before, mid, Stamped(base, stamp)) else mid == before
    ensures Stamped(base, stamp) !in mid
    ensures At(mid, base) == At(before, base)
    ensures Stamped(base, stamp) != base
  {
    hide ArchivePath, Decimal, Stamped;
    LiveIsNoArchive(base, stamp, 0);
    var target := Stamped(base, stamp);
    if target in before {
      var n :| ShiftedUp(before, mid, target, n);
      assert At(mid, target) == None;
      forall k: nat ensures ArchivePath(target, k) != base {
        LiveIsNoArchive(base, stamp, k);
      }
    }
  }

  lemma FreedKeepsHistory(before: Files, mid: Files, base: string, stamp: string, bound: nat)
    requires if Stamped(base, stamp) in before then Shifted(before, mid, Stamped(base, stamp)) else mid == before
    requires NoArchivesFrom(before, Stamped(base, stamp), bound)
    ensures History(mid, Stamped(base, stamp), bound + 1) == History(before, Stamped(base, stamp), bound)
    ensures NoArchivesFrom(mid, Stamped(base, stamp), bound + 1)
  {
    hide ArchivePath, Decimal, Stamped, ShiftedUp;
    var target := Stamped(base, stamp);
    if target in before {
      var n :| ShiftedUp(before, mid, target, n);
      ShiftKeepsHistory(before, mid, target, n, bound);
    } else {
      BoundIsLoose(before, target, bound);
    }
  }

  lemma RollKeepsLog(policy: ArchivePolicy, before: Files, after: Files, base: string, stamp: string, bound: nat)
    requires after == before || Rolled(policy, before, after, base, stamp)
    requires Bounded(policy, before, base, stamp, bound)
    ensures Log(policy, after, base, stamp, bound + 1) == Log(policy, before, base, stamp, bound)
    ensures Bounded(policy, after, base, stamp, bound + 1)
  {
    hide ArchivePath, Decimal, Stamped, Rolled;
    if after == before {
      BoundIsLoose(before, ShiftBase(policy, base, stamp), bound);
    } else if policy.ArchiveIncremental? {
      IncrementalKeepsLog(before, after, base, stamp, bound);
    } else {
      TimestampKeepsLog(policy, before, after, base, stamp, bound);
    }
  }

  lemma AppendGrowsLog(policy: ArchivePolicy, files: Files, base: string, stamp: string, s: seq<byte>, bound: nat)
    requires Bounded(policy, files, base, stamp, bound)
    ensures Log(policy, Appended(files, base, s), base, stamp, bound) == Log(policy, files, base, stamp, bound) + s
    ensures Bounded(policy, Appended(files, base, s), base, stamp, bound)
  {
    hide ArchivePath, Decimal, Stamped, Archived, NoArchivesFrom;
    LiveIsNoArchive(base, stamp, 0);
    var after := Appended(files, base, s);
    ArchivesUntouched(policy, files, after, base, stamp, bound);
    assert Content(At(after, base)) == Content(At(files, base)) + s;
    assert At(after, Stamped(base, stamp)) == At(files, Stamped(base, stamp));
    var shifted := ShiftBase(policy, base, stamp);
    assert History(after, shifted, bound) ==
           if policy.ArchiveIncremental? then History(files, shifted, bound) + s else History(files, shifted, bound);
  }

  /** One write adds exactly its bytes to the log, whether the file is rolled or not. */
  lemma EvolvesGrowsLog(policy: ArchivePolicy, before: Files, after: Files, base: string, stamp: string,
                        s: seq<byte>, bound: nat)
    requires Evolves(policy, before, after, base, stamp, s) && Bounded(policy, before, base, stamp, bound)
    ensures Log(policy, after, base, stamp, bound + 1) == Log(policy, before, base, stamp, bound) + s
    ensures Bounded(policy, after, base, stamp, bound + 1)
  {
    hide Rolled, Appended, Log, Bounded;
    var mid :| (mid == before || Rolled(policy, before, mid, base, stamp)) && after == Appended(mid, base, s);
    RollKeepsLog(policy, before, mid, base, stamp, bound);
    AppendGrowsLog(policy, mid, base, stamp, s, bound + 1);
  }

  function Joined(parts: seq<seq<byte>>): seq<byte> {
    if parts == [] then [] else Joined(parts[..|parts| - 1]) + parts[|parts| - 1]
  }

  /**
    * Over any run of writes and rolls under one stamp, the files together hold what was there before and every byte
    * written, in order. `RollingPieces` treats runs in which the stamp changes.
    */
  lemma {:induction false} RunKeepsEverything(policy: ArchivePolicy, trace: seq<Files>, base: string, stamp: string,
                                              written: seq<seq<byte>>, bound: nat)
    requires |trace| == |written| + 1 && Bounded(policy, trace[0], base, stamp, bound)
    requires forall i | 0 <= i < |written| :: Evolves(policy, trace[i], trace[i + 1], base, stamp, written[i])
    ensures Log(policy, trace[|written|], base, stamp, bound + |written|) ==
            Log(policy, trace[0], base, stamp, bound) + Joined(written)
    ensures Bounded(policy, trace[|written|], base, stamp, bound + |written|)
  {
    hide Evolves, Bounded, Log;
    var n := |written|;
    if n == 0 {
    } else {
      RunKeepsEverything(policy, trace[..n], base, stamp, written[..n - 1], bound);
      assert trace[..n][n - 1] == trace[n - 1];
      EvolvesGrowsLog(policy, trace[n - 1], trace[n], base, stamp, written[n - 1], bound + n - 1);
    }
  }

  // ---- The buffer ----

  datatype OpenMode = Truncating | Appending

  class RollingFilebuf {
    const disk: FileSystem
    const path: string
    const mode: OpenMode
    const automatic: bool
    const archiver: ArchivePolicy
    var rolling: RollingPolicy
    var isOpen: bool

    constructor (disk: FileSystem, path: string, mode: OpenMode, automatic: bool,
                 archiver: ArchivePolicy, rolling: RollingPolicy)
      ensures this.disk == disk && this.path == path && this.mode == mode && this.automatic == automatic
      ensures this.archiver == archiver && this.rolling == rolling && !isOpen
    {
      this.disk, this.path, this.mode, this.automatic := disk, path, mode, automatic;
      this.archiver, this.rolling, isOpen := archiver, rolling, false;
    }

    /** An open file exists. */
    predicate Valid() reads this, disk {
      isOpen ==> path in disk.files
    }

    method Open()
      modifies this`isOpen, disk
      ensures Valid() && isOpen && disk.replaced == old(disk.replaced)
      ensures disk.files == if mode.Appending? && path in old(disk.files) then old(disk.files)
                            else old(disk.files)[path := []]
    {
      if mode.Truncating? || path !in disk.files {
        disk.files := disk.files[path := []];
      }
      isOpen := true;
    }

    /** The archive policy's `apply`: closes the file, archives it and reopens it empty; no file is replaced. */
    method Archive(stamp: string) returns (ok: bool)
      requires Valid()
      modifies this`isOpen, disk
      ensures Valid() && disk.replaced == old(disk.replaced)
      ensures Rolled(archiver, old(disk.files), disk.files, path, stamp)
      ensures ok == (archiver == ArchiveIncremental || (archiver.pattern != "" && path in old(disk.files)))
      ensures isOpen == (ok || (archiver == ArchiveTimestamp("") && old(isOpen)))
    {
      hide ShiftedUp, ArchivePath, Decimal;
      ghost var before := disk.files;
      if archiver.ArchiveIncremental? {
        isOpen := false;
        var n := disk.Archive(path);
        assert ShiftedUp(before, disk.files, path, n);
        LiveIsGone(before, disk.files, path, n);
        ghost var mid := disk.files;
        Open();
        assert Shifted(before, mid, path) && disk.files == mid[path := []];
        return true;
      }
      if archiver.pattern == "" {
        return false;
      }
      isOpen := false;
      var target := Stamped(path, stamp);
      if target in disk.files {
        var n := disk.Archive(target);
        assert ShiftedUp(before, disk.files, target, n);
      }
      ghost var mid := disk.files;
      FreedFile(before, mid, path, stamp);
      ok := disk.Rename(path, target);
      if ok {
        Open();
        assert disk.files == mid[target := mid[path]][path := []];
      }
    }

    /** `roll`: the rolling policy's answer is not consulted. */
    method Roll(now: int, stamp: string)
      requires Valid()
      modifies this`isOpen, this`rolling, disk
      ensures Valid() && rolling == Applied(old(rolling), now) && disk.replaced == old(disk.replaced)
      ensures old(isOpen) ==> isOpen
      ensures Rolled(archiver, old(disk.files), disk.files, path, stamp)
      ensures Evolves(archiver, old(disk.files), disk.files, path, stamp, [])
    {
      hide Rolled;
      rolling := Applied(rolling, now);
      var _ := Archive(stamp);
      assert disk.files == Appended(disk.files, path, []);
    }

    /** `xsputn`: rolls first when the policy says so and the mode is automatic, then appends. */
    method Write(s: seq<byte>, now: int, stamp: string) returns (count: nat)
      requires Valid()
      modifies this`isOpen, this`rolling, disk
      ensures Valid() && rolling == Applied(old(rolling), now) && disk.replaced == old(disk.replaced)
      ensures old(isOpen) ==> isOpen
      ensures count == if isOpen then |s| else 0
      ensures Evolves(archiver, old(disk.files), disk.files, path, stamp, s[..count])
      ensures old(isOpen) && automatic && old(rolling).RollBySize? ==>
                if |old(disk.files)[path]| < old(rolling).threshold then
                  disk.files == Appended(old(disk.files), path, s)
                else
                  exists mid ::
                    && Rolled(archiver, old(disk.files), mid, path, stamp)
                    && disk.files == Appended(mid, path, s)
      ensures old(isOpen) && !automatic ==> disk.files == Appended(old(disk.files), path, s)
      ensures !old(isOpen) && (!automatic || old(rolling).RollBySize?) ==> count == 0 && disk.files == old(disk.files)
      ensures old(isOpen) && !(automatic && Due(old(rolling), now, |old(disk.files)[path]|)) ==>
                disk.files == Appended(old(disk.files), path, s)
      ensures old(isOpen) && archiver != ArchiveTimestamp("") &&
              automatic && Due(old(rolling), now, |old(disk.files)[path]|) ==>
                disk.files[path] == s
    {
      hide Rolled;
      ghost var before := disk.files;
      var due := if isOpen then Due(rolling, now, |disk.files[path]|)
                 else rolling.RollEvery? && Due(rolling, now, 0);
      rolling := Applied(rolling, now);
      if due && automatic {
        var ok := Archive(stamp);
        LiveIsEmpty(archiver, before, disk.files, path, stamp);
      }
      ghost var mid := disk.files;
      count := 0;
      if isOpen {
        assert s == [] ==> mid[path] + s == mid[path];
        disk.files := disk.files[path := disk.files[path] + s];
        assert disk.files == Appended(mid, path, s);
        count := |s|;
      }
      assert s[..count] == if isOpen then s else [];
      assert disk.files == Appended(mid, path, s[..count]);
    }
  }

  lemma LiveIsGone(before: Files, after: Files, base: string, n: nat)
    requires ShiftedUp(before, after, base, n)
    ensures base !in after
  {
    assert At(after, base) == None;
  }

  /** After a roll that takes place, the live file is empty. */
  lemma LiveIsEmpty(policy: ArchivePolicy, before: Files, after: Files, base: string, stamp: string)
    requires Rolled(policy, before, after, base, stamp)
    ensures policy != ArchiveTimestamp("") && base in before ==> At(after, base) == Some([])
  {
    hide ShiftedUp, ArchivePath, Decimal, Stamped;
    if policy.ArchiveTimestamp? && policy.pattern != "" {
      var target := Stamped(base, stamp);
      var mid :| && (if target in before then Shifted(before, mid, target) else mid == before)
                 && after == if base in mid then mid[target := mid[base]][base := []] else mid;
      FreedFile(before, mid, base, stamp);
      assert At(mid, base) == At(before, base);
    }
  }
}
