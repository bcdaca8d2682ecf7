/**
 * What a rolling log keeps when the time stamp changes from roll to roll: whatever the stamps, the bytes written are
 * cut into consecutive pieces, and each piece is the whole content of one file.
 */
module RollingPieces {
  import opened Wrappers
  import opened RollingFile
  import opened RollingBuffer

  // ---- The contents of all files ----

  ghost function Pick(files: Files): (path: string)
    requires files != map[]
    ensures path in files
  {
    var path :| path in files;
    path
  }

  ghost function ContentsOf(files: Files): multiset<seq<byte>>
    decreases |files|
  {
    if files == map[] then multiset{}
    else
      var path := Pick(files);
      SmallerWithout(files, path);
      multiset{files[path]} + ContentsOf(files - {path})
  }

  lemma SmallerWithout(files: Files, path: string)
    requires path in files
    ensures |files - {path}| == |files| - 1
  {
    assert (files - {path}).Keys == files.Keys - {path};
  }

  lemma TakeOutPicked(files: Files)
    requires files != map[]
    ensures ContentsOf(files) == multiset{files[Pick(files)]} + ContentsOf(files - {Pick(files)})
  {}

  lemma WithoutBoth(files: Files, path: string, other: string)
    ensures files - {path} - {other} == files - {other} - {path}
  {}

  lemma {:induction false} TakeOut(files: Files, path: string)
    requires path in files
    ensures ContentsOf(files) == multiset{files[path]} + ContentsOf(files - {path})
    decreases |files|
  {
    hide ContentsOf, Pick;
    var first := Pick(files);
    TakeOutPicked(files);
    if path == first {
    } else {
      SmallerWithout(files, first);
      SmallerWithout(files, path);
      TakeOut(files - {first}, path);
      TakeOut(files - {path}, first);
      WithoutBoth(files, first, path);
    }
  }

  lemma PutIn(files: Files, path: string, content: seq<byte>)
    requires path !in files
    ensures ContentsOf(files[path := content]) == ContentsOf(files) + multiset{content}
  {
    TakeOut(files[path := content], path);
    assert files[path := content] - {path} == files;
  }

  /** A rename to an unused name keeps the contents. */
  lemma RenameConserves(files: Files, from: string, to: string)
    requires from in files && to !in files
    ensures ContentsOf(files[to := files[from]] - {from}) == ContentsOf(files)
  {
    hide ContentsOf;
    TakeOut(files, from);
    PutIn(files - {from}, to, files[from]);
    assert files[to := files[from]] - {from} == (files - {from})[to := files[from]];
  }

  // ---- A shift ----

  lemma ShiftIsUnique(before: Files, after: Files, other: Files, base: string, n: nat)
    requires Shifting(before, after, base, n, -1) && Shifting(before, other, base, n, -1)
    ensures after == other
  {
    hide ArchivePath, Decimal;
    forall path ensures At(after, path) == At(other, path) {
      if path != base && IsArchive(base, n, path) {
        var k :| 0 <= k <= n && path == ArchivePath(base, k);
      }
    }
    forall path ensures path in after <==> path in other
      ensures path in after ==> after[path] == other[path]
    {
      assert At(after, path) == At(other, path);
    }
  }

  /** A shift only renames: the contents stay. */
  lemma ShiftConserves(before: Files, after: Files, base: string, n: nat)
    requires ShiftedUp(before, after, base, n)
    ensures ContentsOf(after) == ContentsOf(before)
  {
    hide ArchivePath, Decimal, Shifting;
    ArchivePathsDiffer(base);
    ShiftStarts(before, base, n);
    var now, free: int := before, n;
    while free >= 0
      invariant -1 <= free <= n
      invariant Shifting(before, now, base, n, free) && ContentsOf(now) == ContentsOf(before)
    {
      var from := if free > 0 then ArchivePath(base, free - 1) else base;
      TargetIsFree(before, now, base, n, free);
      var next := if from in now then now[ArchivePath(base, free) := now[from]] - {from} else now;
      if from in now {
        RenameConserves(now, from, ArchivePath(base, free));
      }
      ShiftStep(before, now, next, base, n, free, from);
      now, free := next, free - 1;
    }
    ShiftIsUnique(before, after, now, base, n);
  }

  // ---- A roll and a write ----

  function Live(files: Files, base: string): seq<byte> {
    Content(At(files, base))
  }

  /** The contents of all files but the live one. */
  ghost function Archives(files: Files, base: string): multiset<seq<byte>> {
    ContentsOf(files - {base})
  }

  lemma AllContents(files: Files, base: string)
    ensures ContentsOf(files) ==
            Archives(files, base) + if base in files then multiset{files[base]} else multiset{}
  {
    if base in files {
      TakeOut(files, base);
    } else {
      assert files - {base} == files;
    }
  }

  /** A roll turns the live file's content, if there is one, into one more archive. */
  lemma RollConserves(policy: ArchivePolicy, before: Files, after: Files, base: string, stamp: string)
    returns (archived: seq<seq<byte>>)
    requires Rolled(policy, before, after, base, stamp)
    ensures Archives(after, base) == Archives(before, base) + multiset(archived)
    ensures Joined(archived) + Live(after, base) == Live(before, base)
  {
    hide ArchivePath, Decimal, Stamped, ShiftedUp, ContentsOf, Archives, Joined, Live;
    if policy.ArchiveTimestamp? && policy.pattern == "" {
      archived := [];
      OnePiece(archived);
    } else {
      LiveIs(before, base);
      archived := if base in before then [before[base]] else [];
      if policy.ArchiveIncremental? {
        IncrementalConserves(before, after, base, stamp);
      } else {
        TimestampConserves(policy, before, after, base, stamp);
      }
      AllContents(before, base);
      OnePiece(archived);
    }
  }

  lemma LiveIs(files: Files, base: string)
    ensures Live(files, base) == if base in files then files[base] else []
  {}

  lemma OnePiece(parts: seq<seq<byte>>)
    requires |parts| <= 1
    ensures Joined(parts) == if parts == [] then [] else parts[0]
    ensures multiset(parts) == if parts == [] then multiset{} else multiset{parts[0]}
  {
    if |parts| == 1 {
      assert parts == [parts[0]];
      assert Joined(parts[..0]) == [];
    }
  }

  lemma IncrementalConserves(before: Files, after: Files, base: string, stamp: string)
    requires Rolled(ArchiveIncremental, before, after, base, stamp)
    ensures Archives(after, base) == ContentsOf(before) && Live(after, base) == []
  {
    hide ArchivePath, Decimal, ShiftedUp, ContentsOf;
    var mid :| Shifted(before, mid, base) && after == mid[base := []];
    var n :| ShiftedUp(before, mid, base, n);
    ShiftConserves(before, mid, base, n);
    LiveIsGone(before, mid, base, n);
    assert after - {base} == mid;
  }

  lemma TimestampConserves(policy: ArchivePolicy, before: Files, after: Files, base: string, stamp: string)
    requires policy.ArchiveTimestamp? && policy.pattern != "" && Rolled(policy, before, after, base, stamp)
    ensures Archives(after, base) == ContentsOf(before) && Live(after, base) == []
  {
    hide ArchivePath, Decimal, Stamped, ShiftedUp, ContentsOf;
    var target := Stamped(base, stamp);
    var mid :| && (if target in before then Shifted(before, mid, target) else mid == before)
               && after == if base in mid then mid[target := mid[base]][base := []] else mid;
    FreedFile(before, mid, base, stamp);
    if target in before {
      var n :| ShiftedUp(before, mid, target, n);
      ShiftConserves(before, mid, target, n);
    }
    if base in mid {
      RenameConserves(mid, base, target);
      assert after - {base} == mid[target := mid[base]] - {base};
    } else {
      assert after - {base} == mid;
    }
  }

  /** One write: at most one piece moves to the archives, and the new bytes follow the last one. */
  lemma WriteConserves(policy: ArchivePolicy, before: Files, after: Files, base: string, stamp: string, s: seq<byte>)
    returns (archived: seq<seq<byte>>)
    requires Evolves(policy, before, after, base, stamp, s)
    ensures Archives(after, base) == Archives(before, base) + multiset(archived)
    ensures Joined(archived) + Live(after, base) == Live(before, base) + s
  {
    hide Rolled, Archives, Live, Appended;
    var mid :| (mid == before || Rolled(policy, before, mid, base, stamp)) && after == Appended(mid, base, s);
    archived := [];
    if mid != before {
      archived := RollConserves(policy, before, mid, base, stamp);
    }
    AppendTouchesLive(mid, base, s);
    assert Joined(archived) + Live(mid, base) == Live(before, base) by {
      OnePiece([]);
    }
    assert Joined(archived) + (Live(mid, base) + s) == (Joined(archived) + Live(mid, base)) + s;
  }

  lemma AppendTouchesLive(files: Files, base: string, s: seq<byte>)
    ensures Archives(Appended(files, base, s), base) == Archives(files, base)
    ensures Live(Appended(files, base, s), base) == Live(files, base) + s
  {
    hide ContentsOf;
    assert Appended(files, base, s) - {base} == files - {base};
  }

  lemma {:induction false} JoinedConcat(a: seq<seq<byte>>, b: seq<seq<byte>>)
    ensures Joined(a + b) == Joined(a) + Joined(b)
  {
    if b == [] {
      assert a + b == a;
    } else {
      var n := |b| - 1;
      assert (a + b)[..|a| + n] == a + b[..n];
      JoinedConcat(a, b[..n]);
    }
  }

  /**
   * Over any run of writes and rolls, with any stamps: what was in the live file and every byte written since are, in
   * order, the pieces moved to the archives and then the live file; and the archives are those of before and exactly
   * these pieces, so none was lost, changed or overwritten.
   */
  lemma {:induction false} RunKeepsPieces(policy: ArchivePolicy, trace: seq<Files>, base: string,
                                          stamps: seq<string>, written: seq<seq<byte>>)
    returns (pieces: seq<seq<byte>>)
    requires |trace| == |written| + 1 && |stamps| == |written|
    requires forall i | 0 <= i < |written| :: Evolves(policy, trace[i], trace[i + 1], base, stamps[i], written[i])
    ensures Archives(trace[|written|], base) == Archives(trace[0], base) + multiset(pieces)
    ensures Joined(pieces) + Live(trace[|written|], base) == Live(trace[0], base) + Joined(written)
    decreases |written|
  {
    hide Evolves, Live, Archives;
    var n := |written|;
    if n == 0 {
      pieces := [];
    } else {
      var earlier := RunKeepsPieces(policy, trace[..n], base, stamps[..n - 1], written[..n - 1]);
      var archived := WriteConserves(policy, trace[n - 1], trace[n], base, stamps[n - 1], written[n - 1]);
      JoinedConcat(earlier, archived);
      pieces := earlier + archived;
      Regroup(Joined(earlier), Joined(archived), Live(trace[n], base), Live(trace[n - 1], base),
              Live(trace[0], base), Joined(written[..n - 1]), written[n - 1]);
    }
  }

  lemma Regroup(a: seq<byte>, b: seq<byte>, live: seq<byte>, was: seq<byte>,
                first: seq<byte>, w: seq<byte>, s: seq<byte>)
    requires b + live == was + s && a + was == first + w
    ensures (a + b) + live == first + (w + s)
  {
    assert (a + b) + live == a + (b + live);
    assert a + (was + s) == (a + was) + s;
    assert (first + w) + s == first + (w + s);
  }
}
