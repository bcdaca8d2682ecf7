/** Archiving a log file by shifting numbered files, over an abstract file map. */
module RollingFile {
  import opened Wrappers

  type Files = map<string, seq<byte>>

  // ---- Archive names ----

  function Digit(d: nat): char
    requires d < 10
  {
    ['0', '1', '2', '3', '4', '5', '6', '7', '8', '9'][d]
  }

  /** A number as `%d` prints it. */
  function Decimal(n: nat): (s: string)
    ensures |s| >= 1
  {
    if n < 10 then [Digit(n)] else Decimal(n / 10) + [Digit(n % 10)]
  }

  lemma DecimalEnds(n: nat)
    ensures Decimal(n)[|Decimal(n)| - 1] == Digit(n % 10)
    ensures n < 10 <==> |Decimal(n)| == 1
    ensures n >= 10 ==> Decimal(n)[..|Decimal(n)| - 1] == Decimal(n / 10)
  {
  }

  lemma {:induction false} DecimalIsInjective(m: nat, n: nat)
    requires Decimal(m) == Decimal(n)
    ensures m == n
  {
    DecimalEnds(m);
    DecimalEnds(n);
    if m >= 10 && n >= 10 {
      DecimalIsInjective(m / 10, n / 10);
    }
  }

  /** The number a string of decimal digits stands for, by character codes: '0' to '9' are 48 to 57. */
  function ReadDigits(s: string): int {
    if s == "" then 0 else 10 * ReadDigits(s[..|s| - 1]) + (s[|s| - 1] as int - 48)
  }

  /** A printed number consists of digits, without a leading zero, and reads back as the number. */
  lemma {:induction false} DecimalReadsBack(n: nat)
    ensures ReadDigits(Decimal(n)) == n
    ensures forall i | 0 <= i < |Decimal(n)| :: 48 <= Decimal(n)[i] as int <= 57
    ensures |Decimal(n)| > 1 ==> Decimal(n)[0] as int != 48
  {
    var s := Decimal(n);
    if n < 10 {
      assert s[..0] == "";
    } else {
      DecimalReadsBack(n / 10);
      assert s[..|s| - 1] == Decimal(n / 10);
      assert n / 10 < 10 ==> |Decimal(n / 10)| == 1 && ReadDigits(Decimal(n / 10)) == n / 10;
    }
  }

  /** `formatPath` */
  function ArchivePath(base: string, n: nat): string {
    base + "." + Decimal(n)
  }

  /** An archive is named like the live file, followed by a dot and its number; the newest has number 0. */
  lemma ArchiveName(base: string, n: nat)
    ensures base <= ArchivePath(base, n) && ReadDigits(ArchivePath(base, n)[|base| + 1..]) == n
    ensures |ArchivePath(base, n)| > |base| && ArchivePath(base, n)[|base|] as int == 46
    ensures ArchivePath(base, 0) == base + ".0"
  {
    DecimalReadsBack(n);
    assert ArchivePath(base, n)[|base| + 1..] == Decimal(n);
  }

  /** Two archives never share a name, and none is the live file. */
  lemma ArchivePathsDiffer(base: string)
    ensures forall n :: ArchivePath(base, n) != base
    ensures forall m, n | m != n :: ArchivePath(base, m) != ArchivePath(base, n)
  {
    forall m: nat, n: nat | m != n ensures ArchivePath(base, m) != ArchivePath(base, n) {
      if ArchivePath(base, m) == ArchivePath(base, n) {
        var k := |base| + 1;
        assert ArchivePath(base, m)[k..] == Decimal(m) && ArchivePath(base, n)[k..] == Decimal(n);
        DecimalIsInjective(m, n);
      }
    }
    forall n ensures ArchivePath(base, n) != base {
      assert |ArchivePath(base, n)| > |base|;
    }
  }

  function At(files: Files, path: string): Option<seq<byte>> {
    if path in files then Some(files[path]) else None
  }

  function Content(file: Option<seq<byte>>): seq<byte> {
    if file.Some? then file.value else []
  }

  // ---- The whole log, oldest byte first ----

  /** The archives numbered below n, highest number first. */
  function Archived(files: Files, base: string, n: nat): seq<byte> {
    if n == 0 then [] else Content(At(files, ArchivePath(base, n - 1))) + Archived(files, base, n - 1)
  }

  /** All archives, highest number first, then the live file. */
  function History(files: Files, base: string, bound: nat): seq<byte> {
    Archived(files, base, bound) + Content(At(files, base))
  }

  ghost predicate NoArchivesFrom(files: Files, base: string, bound: nat) {
    forall n | n >= bound :: ArchivePath(base, n) !in files
  }

  /** There are finitely many archives. */
  lemma {:induction false} ArchivesAreBounded(files: Files, base: string) returns (bound: nat)
    ensures NoArchivesFrom(files, base, bound)
    decreases |files|
  {
    hide Decimal, ArchivePath;
    bound := 0;
    if files == map[] {
    } else {
      var p :| p in files;
      var rest := files - {p};
      assert rest.Keys == files.Keys - {p};
      bound := ArchivesAreBounded(rest, base);
      ArchivePathsDiffer(base);
      if k: nat :| p == ArchivePath(base, k) {
        bound := bound + k + 1;
      }
      forall n | n >= bound ensures ArchivePath(base, n) !in files {
        assert ArchivePath(base, n) != p && ArchivePath(base, n) !in rest;
      }
    }
  }

  // ---- The shift ----

  ghost predicate IsArchive(base: string, n: nat, path: string) {
    exists k | 0 <= k <= n :: path == ArchivePath(base, k)
  }

  /** What archive k holds once everything belonging above number `free` has moved up by one. */
  function Moved(before: Files, base: string, free: int, k: nat): Option<seq<byte>> {
    if k < free then At(before, ArchivePath(base, k))
    else if k == free then None
    else if k == 0 then At(before, base)
    else At(before, ArchivePath(base, k - 1))
  }

  /**
    * Part of the shift is done: of the first `free` archives and the live file, those that belong at a number
    * above `free` have moved up by one, and number `free` itself is unused.
    */
  ghost predicate Shifting(before: Files, now: Files, base: string, top: nat, free: int) {
    && -1 <= free <= top
    && (forall k: nat | k <= top :: At(now, ArchivePath(base, k)) == Moved(before, base, free, k))
    && At(now, base) == (if free == -1 then None else At(before, base))
    && (forall p | p != base && !IsArchive(base, top, p) :: At(now, p) == At(before, p))
  }

  /** The first n archives and the live file each moved up by one, into an unused number; nothing else changed. */
  ghost predicate ShiftedUp(before: Files, after: Files, base: string, n: nat) {
    && (forall k | 0 <= k < n :: ArchivePath(base, k) in before)
    && ArchivePath(base, n) !in before
    && Shifting(before, after, base, n, -1)
  }

  lemma ShiftStarts(files: Files, base: string, n: nat)
    requires ArchivePath(base, n) !in files
    ensures Shifting(files, files, base, n, n)
  {
    hide Decimal, ArchivePath;
  }

  lemma ShiftStep(before: Files, now: Files, next: Files, base: string, top: nat, free: nat, from: string)
    requires Shifting(before, now, base, top, free)
    requires from == if free > 0 then ArchivePath(base, free - 1) else base
    requires next == if from in now then now[ArchivePath(base, free) := now[from]] - {from} else now
    ensures Shifting(before, next, base, top, free - 1)
  {
    hide Decimal, ArchivePath;
    ArchivePathsDiffer(base);
    assert from != ArchivePath(base, free);
    forall p ensures At(next, p) ==
        if p == from then None else if p == ArchivePath(base, free) then At(now, from) else At(now, p) {
    }
    assert At(now, from) == At(before, from);
    forall p | p != base && !IsArchive(base, top, p) ensures At(next, p) == At(before, p) {
      assert At(now, p) == At(before, p);
      assert p != from;
    }
  }

  lemma ShiftedAt(before: Files, after: Files, base: string, n: nat, k: nat)
    requires ShiftedUp(before, after, base, n)
    ensures At(after, ArchivePath(base, k)) ==
              if k == 0 then At(before, base)
              else if k <= n then At(before, ArchivePath(base, k - 1))
              else At(before, ArchivePath(base, k))
  {
    hide Decimal, ArchivePath;
    ArchivePathsDiffer(base);
  }

  lemma Unfold(files: Files, base: string, n: nat)
    ensures Archived(files, base, n + 1) == Content(At(files, ArchivePath(base, n))) + Archived(files, base, n)
  {
  }

  lemma {:induction false} ShiftedArchives(before: Files, after: Files, base: string, n: nat, m: nat)
    requires ShiftedUp(before, after, base, n)
    ensures Archived(after, base, m + 1) ==
              Archived(before, base, if m <= n then m else m + 1) + Content(At(before, base))
  {
    hide Decimal, ArchivePath, Shifting, At, Archived, Content;
    Unfold(after, base, m);
    ShiftedAt(before, after, base, n, m);
    if m == 0 {
      NoneArchived(before, base);
      NoneArchived(after, base);
    } else {
      ShiftedArchives(before, after, base, n, m - 1);
      if m <= n {
        Unfold(before, base, m - 1);
      } else {
        FreeNumber(before, after, base, n);
        Unfold(before, base, m);
      }
    }
  }

  lemma NoneArchived(files: Files, base: string)
    ensures Archived(files, base, 0) == []
  {
  }

  lemma FreeNumber(before: Files, after: Files, base: string, n: nat)
    requires ShiftedUp(before, after, base, n)
    ensures At(before, ArchivePath(base, n)) == None
    ensures Archived(before, base, n + 1) == Archived(before, base, n)
  {
    hide Decimal, ArchivePath, Shifting;
  }

  /** Shifting leaves the log as it was, and the live file absent. */
  lemma ShiftKeepsHistory(before: Files, after: Files, base: string, n: nat, bound: nat)
    requires ShiftedUp(before, after, base, n) && NoArchivesFrom(before, base, bound)
    ensures base !in after
    ensures History(after, base, bound + 1) == History(before, base, bound)
    ensures NoArchivesFrom(after, base, bound + 1)
  {
    hide Decimal, ArchivePath;
    ShiftedArchives(before, after, base, n, bound);
    assert At(after, base) == None;
    assert Archived(before, base, bound + 1) == Archived(before, base, bound);
    forall k | k >= bound + 1 ensures ArchivePath(base, k) !in after {
      ShiftedAt(before, after, base, n, k);
      assert At(before, ArchivePath(base, k)) == None;
      assert At(before, ArchivePath(base, k - 1)) == None;
      assert At(after, ArchivePath(base, k)) == None;
    }
  }

  // ---- Files ----

  lemma SubsetSize<T>(small: set<T>, large: set<T>)
    requires small <= large
    ensures |small| <= |large|
  {
    assert large == small + (large - small);
  }

  class FileSystem {
    var files: Files
    /** How many existing files a rename has replaced. */
    ghost var replaced: nat

    constructor (files: Files)
      ensures this.files == files && replaced == 0
    {
      this.files := files;
      replaced := 0;
    }

    /** `file_utils::rename` */
    method Rename(from: string, to: string) returns (ok: bool)
      modifies this
      ensures ok == (from in old(files))
      ensures from == to || from !in old(files) ==> files == old(files)
      ensures from != to && from in old(files) ==> files == old(files)[to := old(files)[from]] - {from}
      ensures replaced == old(replaced) + if ok && from != to && to in old(files) then 1 else 0
    {
      ok := from in files;
      if ok && from != to {
        if to in files {
          replaced := replaced + 1;
        }
        files := files[to := files[from]] - {from};
      }
    }

    /** `ArchiveIncremental::archive`: shifts up to the least unused number, returns it, and replaces no file. */
    method Archive(base: string) returns (index: nat)
      modifies this
      ensures ShiftedUp(old(files), files, base, index)
      ensures replaced == old(replaced)
    {
      hide Decimal, ArchivePath, Shifting;
      ArchivePathsDiffer(base);
      var n: int := 0;
      ghost var seen: set<string> := {};
      while ArchivePath(base, n) in files
        invariant n >= 0 && |seen| == n && seen <= files.Keys
        invariant forall k | 0 <= k < n :: ArchivePath(base, k) in files
        invariant forall p | p in seen :: exists k | 0 <= k < n :: p == ArchivePath(base, k)
        invariant files == old(files) && replaced == old(replaced)
        decreases |files.Keys| - n
      {
        seen := seen + {ArchivePath(base, n)};
        SubsetSize(seen, files.Keys);
        n := n + 1;
      }
      index := n;
      ShiftStarts(files, base, index);
      while n >= 0
        invariant -1 <= n <= index
        invariant Shifting(old(files), files, base, index, n)
        invariant replaced == old(replaced)
      {
        ghost var now := files;
        var oldPath := if n > 0 then ArchivePath(base, n - 1) else base;
        TargetIsFree(old(files), files, base, index, n);
        var _ := Rename(oldPath, ArchivePath(base, n));
        ShiftStep(old(files), now, files, base, index, n, oldPath);
        n := n - 1;
      }
    }
  }

  lemma TargetIsFree(before: Files, now: Files, base: string, top: nat, free: nat)
    requires Shifting(before, now, base, top, free)
    ensures ArchivePath(base, free) !in now
  {
    hide Decimal, ArchivePath;
    assert At(now, ArchivePath(base, free)) == None;
  }
}
