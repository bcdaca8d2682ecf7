/**
 * Conversion between system time and UTC, which counts leap seconds. Times are ticks, `tps` to the second; a leap
 * second table lists the seconds of system time before which one was inserted.
 */
module LeapSeconds {

  ghost predicate Table(leaps: seq<int>) {
    forall i, j | 0 <= i < j < |leaps| :: leaps[i] < leaps[j]
  }

  /** `std::upper_bound`: the number of entries not after t. */
  function UpperBound(leaps: seq<int>, tps: int, t: int): (n: nat)
    ensures n <= |leaps|
  {
    if leaps == [] || leaps[|leaps| - 1] * tps <= t then |leaps|
    else UpperBound(leaps[..|leaps| - 1], tps, t)
  }

  lemma {:induction false} UpperBoundIs(leaps: seq<int>, tps: int, t: int)
    requires Table(leaps) && tps >= 1
    ensures var n := UpperBound(leaps, tps, t);
            && (forall i | 0 <= i < n :: leaps[i] * tps <= t)
            && (forall i | n <= i < |leaps| :: t < leaps[i] * tps)
  {
    if leaps != [] && !(leaps[|leaps| - 1] * tps <= t) {
      UpperBoundIs(leaps[..|leaps| - 1], tps, t);
    } else {
      forall i | 0 <= i < |leaps| ensures leaps[i] * tps <= t {
        Scale(leaps[i], leaps[|leaps| - 1], tps);
      }
    }
  }

  lemma Scale(a: int, b: int, tps: int)
    requires a <= b && tps >= 0
    ensures a * tps <= b * tps
  {}

  /** `utc_clock::from_sys` */
  function FromSys(leaps: seq<int>, tps: int, st: int): int {
    st + UpperBound(leaps, tps, st) * tps
  }

  /** `is_leap_second`: whether the time is in an inserted second, and the leap seconds so far, in seconds. */
  function IsLeapSecond(leaps: seq<int>, tps: int, ut: int): (bool, int) {
    var n := UpperBound(leaps, tps, ut);
    var tp := ut - n * tps;
    if n > 0 && tp < leaps[n - 1] * tps then
      if tp >= leaps[n - 1] * tps - tps then (true, n) else (false, n - 1)
    else (false, n)
  }

  /** `utc_clock::to_sys` */
  function ToSys(leaps: seq<int>, tps: int, ut: int): int
    requires tps >= 1
  {
    var (inLeap, ds) := IsLeapSecond(leaps, tps, ut);
    var tp := ut - ds * tps;
    if inLeap then tp / tps * tps + tps - 1 else tp
  }

  /** UTC is ahead of system time by one second for each entry that is not later. */
  lemma FromSysCounts(leaps: seq<int>, tps: int, st: int) returns (n: nat)
    requires Table(leaps) && tps >= 1
    ensures n <= |leaps| && FromSys(leaps, tps, st) == st + n * tps
    ensures forall i | 0 <= i < |leaps| :: leaps[i] * tps <= st <==> i < n
  {
    hide UpperBound;
    n := UpperBound(leaps, tps, st);
    UpperBoundIs(leaps, tps, st);
  }

  // ---- Where the inserted seconds are ----

  /** The second inserted by entry i: it starts when i leap seconds have passed. */
  predicate Inserted(leaps: seq<int>, tps: int, i: int, ut: int) {
    0 <= i < |leaps| && (leaps[i] + i) * tps <= ut < (leaps[i] + i + 1) * tps
  }

  /** The stretch of ordinary time after k inserted seconds. */
  predicate Ordinary(leaps: seq<int>, tps: int, k: int, ut: int) {
    && 0 <= k <= |leaps|
    && (k > 0 ==> (leaps[k - 1] + k) * tps <= ut)
    && (k < |leaps| ==> ut < (leaps[k] + k) * tps)
  }

  /** Each entry is followed by the next no sooner than the given number of seconds past its index. */
  ghost predicate Spaced(leaps: seq<int>, extra: int) {
    forall i | 0 <= i < |leaps| - 1 :: leaps[i + 1] - leaps[i] >= i + extra
  }

  /** An inserted second is flagged, counted, and shown as the last tick before it. */
  lemma InsertedIsFlagged(leaps: seq<int>, tps: int, i: int, ut: int)
    requires Table(leaps) && tps >= 1 && Spaced(leaps, 1) && Inserted(leaps, tps, i, ut)
    ensures IsLeapSecond(leaps, tps, ut) == (true, i + 1)
    ensures ToSys(leaps, tps, ut) == leaps[i] * tps - 1
  {
    var n := UpperBound(leaps, tps, ut);
    UpperBoundIs(leaps, tps, ut);
    Scale(leaps[i], leaps[i] + i, tps);
    assert n >= i + 1;
    if i + 1 < |leaps| {
      Scale(leaps[i] + i + 1, leaps[i + 1], tps);
    }
    assert n == i + 1;
    var tp := ut - n * tps;
    assert (leaps[i] - 1) * tps == (leaps[i] + i) * tps - n * tps;
    assert leaps[i] * tps == (leaps[i] + i + 1) * tps - n * tps;
    FloorIn(tp, leaps[i] - 1, tps);
  }

  lemma FloorIn(tp: int, q: int, tps: int)
    requires tps >= 1 && q * tps <= tp < (q + 1) * tps
    ensures tp / tps == q
  {
    var r := tp - q * tps;
    assert tp == q * tps + r && 0 <= r < tps;
    var d := tp / tps;
    assert tp == d * tps + tp % tps;
    assert (d - q) * tps == r - tp % tps;
    SmallMultiple(d - q, tps);
  }

  lemma SmallMultiple(k: int, tps: int)
    requires tps >= 1 && -tps < k * tps < tps
    ensures k == 0
  {
    if k >= 1 { Scale(1, k, tps); }
    if k <= -1 { Scale(k, -1, tps); }
  }

  /** In ordinary time nothing is flagged and the clocks differ by the leap seconds so far. */
  lemma OrdinaryIsShifted(leaps: seq<int>, tps: int, k: int, ut: int)
    requires Table(leaps) && tps >= 1 && Spaced(leaps, 0) && Ordinary(leaps, tps, k, ut)
    ensures IsLeapSecond(leaps, tps, ut) == (false, k)
    ensures ToSys(leaps, tps, ut) == ut - k * tps
  {
    var n := UpperBound(leaps, tps, ut);
    UpperBoundIs(leaps, tps, ut);
    if k > 0 {
      Scale(leaps[k - 1], leaps[k - 1] + k, tps);
    }
    assert n >= k;
    if k + 1 < |leaps| {
      Scale(leaps[k] + k, leaps[k + 1], tps);
    }
    assert n <= k + 1;
    if n == k {
      if k > 0 { assert leaps[k - 1] * tps == (leaps[k - 1] + k) * tps - k * tps; }
    } else {
      assert (leaps[k] - 1) * tps == (leaps[k] + k) * tps - (k + 1) * tps;
    }
  }

  /** Every time is ordinary or in an inserted second. */
  lemma {:induction false} Somewhere(leaps: seq<int>, tps: int, ut: int, k: int) returns (at: int)
    requires Table(leaps) && tps >= 1 && 0 <= k <= |leaps| && (k < |leaps| ==> ut < (leaps[k] + k) * tps)
    ensures Ordinary(leaps, tps, at, ut) || Inserted(leaps, tps, at, ut)
    decreases k
  {
    if k == 0 || (leaps[k - 1] + k) * tps <= ut {
      at := k;
    } else if (leaps[k - 1] + k - 1) * tps <= ut {
      at := k - 1;
    } else {
      at := Somewhere(leaps, tps, ut, k - 1);
    }
  }

  // ---- Round trips ----

  lemma FromSysIsOrdinary(leaps: seq<int>, tps: int, st: int)
    requires Table(leaps) && tps >= 1
    ensures Ordinary(leaps, tps, UpperBound(leaps, tps, st), FromSys(leaps, tps, st))
  {
    var n := UpperBound(leaps, tps, st);
    UpperBoundIs(leaps, tps, st);
    if n > 0 { assert (leaps[n - 1] + n) * tps == leaps[n - 1] * tps + n * tps; }
    if n < |leaps| { assert (leaps[n] + n) * tps == leaps[n] * tps + n * tps; }
  }

  /** At the last tick before an entry, only the earlier entries count. */
  lemma BeforeEntry(leaps: seq<int>, tps: int, m: int)
    requires Table(leaps) && tps >= 1 && 0 <= m < |leaps|
    ensures UpperBound(leaps, tps, leaps[m] * tps - 1) == m
  {
    hide UpperBound;
    UpperBoundIs(leaps, tps, leaps[m] * tps - 1);
    if m > 0 { Scale(leaps[m - 1], leaps[m] - 1, tps); }
  }

  /** Where two entries are too close together, system time just before the first does not come back. */
  lemma TooClose(leaps: seq<int>, tps: int, m: int)
    requires Table(leaps) && tps >= 1 && 0 <= m < |leaps| - 1 && leaps[m + 1] - leaps[m] < m
    ensures var st := leaps[m] * tps - 1; ToSys(leaps, tps, FromSys(leaps, tps, st)) < st
  {
    hide UpperBound;
    var st := leaps[m] * tps - 1;
    BeforeEntry(leaps, tps, m);
    var ut := st + m * tps;
    var n := UpperBound(leaps, tps, ut);
    UpperBoundIs(leaps, tps, ut);
    Scale(leaps[m + 1], leaps[m] + m - 1, tps);
    assert (leaps[m] + m - 1) * tps == leaps[m] * tps + m * tps - tps;
    assert n >= m + 2;
    Scale(leaps[m] + 1, leaps[n - 1], tps);
    assert (leaps[m] + 1) * tps == leaps[m] * tps + tps;
    assert ut - n * tps == st + (m - n) * tps;
    Scale(m - n, -2, tps);
    assert ut - (n - 1) * tps == st + (m - n) * tps + tps;
  }

  /**
   * System time survives the trip to UTC and back for every time exactly when each entry comes at least as many
   * seconds before the next as there are entries before it. Real tables, with months between entries, do.
   */
  lemma RoundTripIff(leaps: seq<int>, tps: int)
    requires Table(leaps) && tps >= 1
    ensures (forall st :: ToSys(leaps, tps, FromSys(leaps, tps, st)) == st) <==> Spaced(leaps, 0)
  {
    if Spaced(leaps, 0) {
      forall st ensures ToSys(leaps, tps, FromSys(leaps, tps, st)) == st {
        FromSysIsOrdinary(leaps, tps, st);
        OrdinaryIsShifted(leaps, tps, UpperBound(leaps, tps, st), FromSys(leaps, tps, st));
      }
    } else {
      var m :| 0 <= m < |leaps| - 1 && leaps[m + 1] - leaps[m] < m;
      TooClose(leaps, tps, m);
    }
  }

  /** UTC survives the trip to system time and back exactly outside the inserted seconds. */
  lemma BackAndForth(leaps: seq<int>, tps: int, ut: int)
    requires Table(leaps) && tps >= 1 && Spaced(leaps, 1)
    ensures FromSys(leaps, tps, ToSys(leaps, tps, ut)) == ut <==> !IsLeapSecond(leaps, tps, ut).0
  {
    hide ToSys, IsLeapSecond, UpperBound;
    var at := Somewhere(leaps, tps, ut, |leaps|);
    if Inserted(leaps, tps, at, ut) {
      InsertedIsFlagged(leaps, tps, at, ut);
      BeforeEntry(leaps, tps, at);
      assert (leaps[at] + at) * tps == leaps[at] * tps + at * tps;
    } else {
      OrdinaryIsShifted(leaps, tps, at, ut);
      ShiftedBack(leaps, tps, at, ut);
    }
  }

  lemma ShiftedBack(leaps: seq<int>, tps: int, k: int, ut: int)
    requires Table(leaps) && tps >= 1 && Ordinary(leaps, tps, k, ut)
    ensures UpperBound(leaps, tps, ut - k * tps) == k
  {
    var st := ut - k * tps;
    UpperBoundIs(leaps, tps, st);
    if k > 0 { assert (leaps[k - 1] + k) * tps == leaps[k - 1] * tps + k * tps; }
    if k < |leaps| { assert (leaps[k] + k) * tps == leaps[k] * tps + k * tps; }
  }

  // ---- Detection and order ----

  lemma Missed(leaps: seq<int>, tps: int, i: int)
    requires Table(leaps) && tps >= 1 && 0 <= i < |leaps| - 1 && leaps[i + 1] - leaps[i] <= i
    ensures var ut := (leaps[i] + i) * tps; Inserted(leaps, tps, i, ut) && !IsLeapSecond(leaps, tps, ut).0
  {
    hide UpperBound;
    var ut := (leaps[i] + i) * tps;
    assert (leaps[i] + i + 1) * tps == ut + tps;
    var n := UpperBound(leaps, tps, ut);
    UpperBoundIs(leaps, tps, ut);
    Scale(leaps[i + 1], leaps[i] + i, tps);
    assert n >= i + 2;
    Spread(leaps, i, n - 1);
    Behind(leaps[i] + i, leaps[n - 1] - 2, n, tps);
  }

  lemma Behind(now: int, limit: int, n: int, tps: int)
    requires tps >= 1 && now - n <= limit
    ensures now * tps - n * tps <= (limit + 2) * tps - 2 * tps
  {
    Scale(now - n, limit, tps);
  }

  lemma {:induction false} Spread(leaps: seq<int>, i: int, j: int)
    requires Table(leaps) && 0 <= i <= j < |leaps|
    ensures leaps[j] >= leaps[i] + j - i
    decreases j
  {
    if i == j {
    } else {
      Spread(leaps, i, j - 1);
    }
  }

  lemma FlaggedIsInserted(leaps: seq<int>, tps: int, ut: int)
    requires Table(leaps) && tps >= 1 && IsLeapSecond(leaps, tps, ut).0
    ensures Inserted(leaps, tps, UpperBound(leaps, tps, ut) - 1, ut)
  {
    var n := UpperBound(leaps, tps, ut);
    assert (leaps[n - 1] + n - 1) * tps == leaps[n - 1] * tps - tps + n * tps;
    assert (leaps[n - 1] + n) * tps == leaps[n - 1] * tps + n * tps;
  }

  /** The inserted seconds, and only they, are flagged, exactly when the entries are one second further apart still. */
  lemma DetectionIff(leaps: seq<int>, tps: int)
    requires Table(leaps) && tps >= 1
    ensures (forall ut :: IsLeapSecond(leaps, tps, ut).0 <==> exists i :: Inserted(leaps, tps, i, ut))
            <==> Spaced(leaps, 1)
  {
    if Spaced(leaps, 1) {
      forall ut ensures IsLeapSecond(leaps, tps, ut).0 <==> exists i :: Inserted(leaps, tps, i, ut) {
        if IsLeapSecond(leaps, tps, ut).0 {
          FlaggedIsInserted(leaps, tps, ut);
        } else if i :| Inserted(leaps, tps, i, ut) {
          InsertedIsFlagged(leaps, tps, i, ut);
        }
      }
    } else {
      var i :| 0 <= i < |leaps| - 1 && leaps[i + 1] - leaps[i] < i + 1;
      Missed(leaps, tps, i);
    }
  }

  lemma ToSysBounds(leaps: seq<int>, tps: int, ut: int) returns (at: int)
    requires Table(leaps) && tps >= 1 && Spaced(leaps, 1)
    ensures Ordinary(leaps, tps, at, ut) || Inserted(leaps, tps, at, ut)
    ensures Inserted(leaps, tps, at, ut) ==> ToSys(leaps, tps, ut) == leaps[at] * tps - 1
    ensures Ordinary(leaps, tps, at, ut) ==>
              && ToSys(leaps, tps, ut) == ut - at * tps
              && (at > 0 ==> leaps[at - 1] * tps <= ToSys(leaps, tps, ut))
              && (at < |leaps| ==> ToSys(leaps, tps, ut) < leaps[at] * tps)
  {
    at := Somewhere(leaps, tps, ut, |leaps|);
    if Inserted(leaps, tps, at, ut) {
      InsertedIsFlagged(leaps, tps, at, ut);
    }
    if Ordinary(leaps, tps, at, ut) {
      OrdinaryIsShifted(leaps, tps, at, ut);
      if at > 0 { assert (leaps[at - 1] + at) * tps == leaps[at - 1] * tps + at * tps; }
      if at < |leaps| { assert (leaps[at] + at) * tps == leaps[at] * tps + at * tps; }
    }
  }

  predicate Within(leaps: seq<int>, tps: int, at: int, ut: int) {
    Ordinary(leaps, tps, at, ut) || Inserted(leaps, tps, at, ut)
  }

  lemma StretchesInOrder(leaps: seq<int>, tps: int, ut: int, later: int, a: int, b: int)
    requires Table(leaps) && tps >= 1 && ut <= later && Within(leaps, tps, a, ut) && Within(leaps, tps, b, later)
    ensures a <= b
  {
    if b < a {
      var from := if Ordinary(leaps, tps, a, ut) then leaps[a - 1] + a else leaps[a] + a;
      Spread(leaps, b, if Ordinary(leaps, tps, a, ut) then a - 1 else a);
      Scale(leaps[b] + b + 1, from, tps);
      Scale(leaps[b] + b, leaps[b] + b + 1, tps);
    }
  }

  /** On a table with room between its entries conversion to system time never goes back. */
  lemma ToSysIsMonotone(leaps: seq<int>, tps: int, ut: int, later: int)
    requires Table(leaps) && tps >= 1 && Spaced(leaps, 1) && ut <= later
    ensures ToSys(leaps, tps, ut) <= ToSys(leaps, tps, later)
  {
    hide ToSys, Spaced;
    var a := ToSysBounds(leaps, tps, ut);
    var b := ToSysBounds(leaps, tps, later);
    StretchesInOrder(leaps, tps, ut, later, a, b);
    if a < b {
      EntriesScale(leaps, tps, a, b - 1);
      if b < |leaps| { EntriesScale(leaps, tps, a, b); }
    }
  }

  lemma EntriesScale(leaps: seq<int>, tps: int, i: int, j: int)
    requires Table(leaps) && tps >= 1 && 0 <= i <= j < |leaps|
    ensures leaps[i] * tps <= leaps[j] * tps
  {
    Scale(leaps[i], leaps[j], tps);
  }

  /** With one tick to the second an inserted second is a single tick, and shows as the one before it or after it. */
  lemma AtOneTick(leaps: seq<int>, ut: int)
    requires Table(leaps)
    ensures var n := UpperBound(leaps, 1, ut);
            ToSys(leaps, 1, ut) == if n > 0 && ut - n < leaps[n - 1] - 1 then ut - n + 1 else ut - n
  {
    UpperBoundIs(leaps, 1, ut);
  }

  lemma {:induction false} OneTickIsMonotone(leaps: seq<int>, ut: int, later: int)
    requires Table(leaps) && ut <= later
    ensures ToSys(leaps, 1, ut) <= ToSys(leaps, 1, later)
    decreases later - ut
  {
    hide ToSys, UpperBound;
    if ut == later {
    } else {
      OneTickIsMonotone(leaps, ut + 1, later);
      AtOneTick(leaps, ut);
      AtOneTick(leaps, ut + 1);
      UpperBoundIs(leaps, 1, ut);
      UpperBoundIs(leaps, 1, ut + 1);
      OneMore(leaps, ut);
    }
  }

  /** From one tick to the next at most one entry is passed. */
  lemma OneMore(leaps: seq<int>, ut: int)
    requires Table(leaps)
    ensures var n, n' := UpperBound(leaps, 1, ut), UpperBound(leaps, 1, ut + 1);
            n' == n || (n' == n + 1 && leaps[n] == ut + 1)
  {
    hide UpperBound;
    UpperBoundIs(leaps, 1, ut);
    UpperBoundIs(leaps, 1, ut + 1);
    var n, n' := UpperBound(leaps, 1, ut), UpperBound(leaps, 1, ut + 1);
    assert forall i | 0 <= i < |leaps| :: (leaps[i] <= ut <==> i < n) && (leaps[i] <= ut + 1 <==> i < n');
    assert n' < |leaps| ==> leaps[n'] > ut;
    assert n + 1 < |leaps| ==> leaps[n + 1] > leaps[n];
    assert n < |leaps| && n < n' ==> leaps[n] == ut + 1;
  }

  /** Where an entry comes too soon, system time goes back when it is passed, unless a second is a single tick. */
  lemma GoesBack(leaps: seq<int>, tps: int, i: int)
    requires Table(leaps) && tps >= 2 && 0 <= i < |leaps| - 1 && leaps[i + 1] - leaps[i] <= i
    ensures var now := leaps[i + 1] * tps - 1; ToSys(leaps, tps, now + 1) < ToSys(leaps, tps, now)
  {
    hide UpperBound;
    var now := leaps[i + 1] * tps - 1;
    BeforeEntry(leaps, tps, i + 1);
    AtEntry(leaps, tps, i + 1);
    assert now - (i + 1) * tps == (leaps[i + 1] - i - 1) * tps - 1;
    assert now + 1 - (i + 2) * tps == (leaps[i + 1] - i - 2) * tps;
    Scale(leaps[i + 1] - i - 1, leaps[i] - 1, tps);
    Scale(leaps[i + 1] - i - 2, leaps[i + 1] - 3, tps);
    assert (leaps[i] - 1) * tps == leaps[i] * tps - tps;
    assert (leaps[i + 1] - 3) * tps == leaps[i + 1] * tps - 3 * tps;
    assert (i + 1) * tps == i * tps + tps;
  }

  lemma AtEntry(leaps: seq<int>, tps: int, m: int)
    requires Table(leaps) && tps >= 1 && 0 <= m < |leaps|
    ensures UpperBound(leaps, tps, leaps[m] * tps) == m + 1
  {
    hide UpperBound;
    UpperBoundIs(leaps, tps, leaps[m] * tps);
    if m + 1 < |leaps| { Scale(leaps[m] + 1, leaps[m + 1], tps); }
  }

  /** Conversion to system time never goes back exactly when seconds are not divided or the table has room. */
  lemma ToSysMonotoneIff(leaps: seq<int>, tps: int)
    requires Table(leaps) && tps >= 1
    ensures (forall ut, later | ut <= later :: ToSys(leaps, tps, ut) <= ToSys(leaps, tps, later))
            <==> tps == 1 || Spaced(leaps, 1)
  {
    hide ToSys;
    if tps == 1 || Spaced(leaps, 1) {
      forall ut, later | ut <= later ensures ToSys(leaps, tps, ut) <= ToSys(leaps, tps, later) {
        if tps == 1 {
          OneTickIsMonotone(leaps, ut, later);
        } else {
          ToSysIsMonotone(leaps, tps, ut, later);
        }
      }
    } else {
      var i :| 0 <= i < |leaps| - 1 && leaps[i + 1] - leaps[i] <= i;
      GoesBack(leaps, tps, i);
    }
  }
}
