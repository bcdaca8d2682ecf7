/** Scanning a stream for the longest of a list of keywords, ignoring case. */
module Keywords {
  import opened Ascii

  /** `toupper` in the C locale */
  function ToUpper(c: char): char {
    if 'a' <= c <= 'z' then c - 'a' + 'A' else c
  }

  /** Comparing what `toupper` gives is comparing without regard to case. */
  lemma ToUpperIgnoresCase(c: char, d: char)
    ensures ToUpper(c) == ToUpper(d) <==> SameLetter(c, d)
  {}

  /** `a` is, ignoring case, a prefix of `b`. */
  ghost predicate FoldPrefix(a: string, b: string) {
    |a| <= |b| && forall i | 0 <= i < |a| :: SameLetter(a[i], b[i])
  }

  ghost predicate FoldEqual(a: string, b: string) {
    |a| == |b| && FoldPrefix(a, b)
  }

  /** n is the length of the longest prefix of the text that is a prefix of some keyword. */
  ghost predicate LongestMatch(text: string, keywords: seq<string>, n: nat) {
    && n <= |text|
    && (n == 0 || exists k :: 0 <= k < |keywords| && FoldPrefix(text[..n], keywords[k]))
    && (forall k, longer | 0 <= k < |keywords| && n < longer <= |text| :: !FoldPrefix(text[..longer], keywords[k]))
  }

  datatype Status = DoesntMatch | MightMatch | DoesMatch

  /** An input stream over a text. */
  class Stream {
    const text: string
    var position: nat
    var eofbit: bool
    var failbit: bool

    ghost predicate Valid()
      reads this
    {
      position <= |text|
    }

    constructor (text: string)
      ensures this.text == text && Valid() && position == 0 && !eofbit && !failbit
    {
      this.text := text;
      position := 0;
      eofbit, failbit := false, false;
    }
  }

  /** After n characters were matched: which keywords still might match, and which do. */
  ghost predicate StatusOk(text: string, keywords: seq<string>, n: nat, k: nat, st: Status)
    requires n <= |text| && k < |keywords|
  {
    && (st == MightMatch <==> |keywords[k]| > n && FoldPrefix(text[..n], keywords[k]))
    && (st == DoesMatch <==> FoldEqual(text[..n], keywords[k]))
  }

  /** The same when no keyword is left that might match. */
  ghost predicate FinalStatusOk(text: string, keywords: seq<string>, n: nat, k: nat, st: Status)
    requires n <= |text| && k < |keywords|
  {
    && st != MightMatch && (st == DoesMatch <==> FoldEqual(text[..n], keywords[k]))
    && (n < |text| ==> !FoldPrefix(text[..n + 1], keywords[k]))
  }

  ghost function Count(status: array<Status>, st: Status): nat
    reads status
  {
    multiset(status[..])[st]
  }

  lemma SetStatus(before: seq<Status>, k: nat, st: Status)
    requires k < |before|
    ensures multiset(before[k := st]) == multiset(before) - multiset{before[k]} + multiset{st}
    ensures multiset(before)[before[k]] >= 1
  {
    assert before[k] in before;
  }

  lemma ExtendPrefix(text: string, n: nat, word: string)
    requires n < |text|
    ensures FoldPrefix(text[..n + 1], word) <==>
              FoldPrefix(text[..n], word) && |word| > n && SameLetter(text[n], word[n])
  {
    if FoldPrefix(text[..n + 1], word) {
      forall i | 0 <= i < n ensures SameLetter(text[..n][i], word[i]) {
        assert text[..n][i] == text[..n + 1][i];
      }
      assert text[..n + 1][n] == text[n];
    }
  }

  /** What one keyword's status becomes when the character at n is read. */
  function AfterChar(text: string, word: string, n: nat, st: Status): Status
    requires n < |text| && (st == MightMatch ==> n < |word|)
  {
    if st != MightMatch then st
    else if !SameLetter(text[n], word[n]) then DoesntMatch
    else if |word| == n + 1 then DoesMatch
    else MightMatch
  }

  /** The keyword is among those found not stale after n + 1 characters. */
  function WithoutStale(word: string, n: nat, st: Status): Status {
    if st == DoesMatch && |word| != n + 1 then DoesntMatch else st
  }

  lemma StatusAfterMatch(text: string, keywords: seq<string>, n: nat, k: nat, st: Status)
    requires n < |text| && k < |keywords| && StatusOk(text, keywords, n, k, st)
    ensures StatusOk(text, keywords, n + 1, k, WithoutStale(keywords[k], n, AfterChar(text, keywords[k], n, st)))
  {
    ExtendPrefix(text, n, keywords[k]);
  }

  lemma StatusAfterMiss(text: string, keywords: seq<string>, n: nat, k: nat, st: Status)
    requires n < |text| && k < |keywords| && StatusOk(text, keywords, n, k, st)
    requires st == MightMatch ==> !SameLetter(text[n], keywords[k][n])
    ensures FinalStatusOk(text, keywords, n, k, AfterChar(text, keywords[k], n, st))
  {
    ExtendPrefix(text, n, keywords[k]);
  }

  lemma StatusAtEnd(text: string, keywords: seq<string>, n: nat, k: nat, st: Status)
    requires n <= |text| && k < |keywords| && StatusOk(text, keywords, n, k, st) && st != MightMatch
    ensures FinalStatusOk(text, keywords, n, k, st)
  {
    if n < |text| { ExtendPrefix(text, n, keywords[k]); }
  }

  /** Two keywords in play make the counters add up to at least two. */
  lemma TwoInPlay(status: seq<Status>, j: nat, k: nat)
    requires j < |status| && k < |status| && j != k && status[j] != DoesntMatch && status[k] != DoesntMatch
    ensures multiset(status)[MightMatch] + multiset(status)[DoesMatch] >= 2
  {
    var rest := status[j := DoesntMatch];
    SetStatus(status, j, DoesntMatch);
    SetStatus(rest, k, DoesntMatch);
  }

  /** Changes one status and keeps the counters right. */
  method Mark(status: array<Status>, k: nat, st: Status, might0: nat, does0: nat) returns (might: nat, does: nat)
    requires k < status.Length && might0 == Count(status, MightMatch) && does0 == Count(status, DoesMatch)
    modifies status
    ensures status[..] == old(status[..])[k := st]
    ensures old(status[k]) != MightMatch && st != MightMatch ==> might == might0
    ensures might == Count(status, MightMatch) && does == Count(status, DoesMatch)
  {
    ghost var before := status[..];
    SetStatus(before, k, st);
    might := might0 - (if status[k] == MightMatch then 1 else 0) + (if st == MightMatch then 1 else 0);
    does := does0 - (if status[k] == DoesMatch then 1 else 0) + (if st == DoesMatch then 1 else 0);
    status[k] := st;
    assert status[..] == before[k := st];
  }

  /** Tests every keyword that might match against the character at n. */
  method TestKeywords(text: string, keywords: seq<string>, n: nat, status: array<Status>, might0: nat, does0: nat)
    returns (consume: bool, might: nat, does: nat)
    requires n < |text| && status.Length == |keywords|
    requires forall k | 0 <= k < |keywords| :: status[k] == MightMatch ==> |keywords[k]| > n
    requires might0 == Count(status, MightMatch) && does0 == Count(status, DoesMatch)
    modifies status
    ensures forall k | 0 <= k < |keywords| :: (old(status[k]) == MightMatch ==> n < |keywords[k]|) &&
              status[k] == AfterChar(text, keywords[k], n, old(status[k]))
    ensures consume <==> exists k :: 0 <= k < |keywords| && old(status[k]) == MightMatch && status[k] != DoesntMatch
    ensures might == Count(status, MightMatch) && does == Count(status, DoesMatch)
  {
    hide ToUpper, SameLetter, Count;
    consume, might, does := false, might0, does0;
    var c := ToUpper(text[n]);
    for k := 0 to |keywords|
      invariant forall j | 0 <= j < k :: status[j] == AfterChar(text, keywords[j], n, old(status[j]))
      invariant forall j | k <= j < |keywords| :: status[j] == old(status[j])
      invariant consume <==> exists j :: 0 <= j < k && old(status[j]) == MightMatch && status[j] != DoesntMatch
      invariant might == Count(status, MightMatch) && does == Count(status, DoesMatch)
    {
      if status[k] == MightMatch {
        ToUpperIgnoresCase(text[n], keywords[k][n]);
        if c == ToUpper(keywords[k][n]) {
          consume := true;
          if |keywords[k]| == n + 1 {
            ghost var before := status[..];
            might, does := Mark(status, k, DoesMatch, might, does);
            assert forall j | 0 <= j < |keywords| && j != k :: status[..][j] == before[j];
            assert status[..][k] == DoesMatch;
          }
        } else {
          ghost var before := status[..];
          might, does := Mark(status, k, DoesntMatch, might, does);
          assert forall j | 0 <= j < |keywords| && j != k :: status[..][j] == before[j];
          assert status[..][k] == DoesntMatch;
        }
      }
    }
  }

  /** Drops the keywords that matched before the character at n was consumed. */
  method DropStale(keywords: seq<string>, n: nat, status: array<Status>, might0: nat, does0: nat) returns (does: nat)
    requires status.Length == |keywords| && might0 == Count(status, MightMatch) && does0 == Count(status, DoesMatch)
    modifies status
    ensures forall k | 0 <= k < |keywords| :: status[k] == WithoutStale(keywords[k], n, old(status[k]))
    ensures does == Count(status, DoesMatch) && might0 == Count(status, MightMatch)
  {
    hide Count;
    does := does0;
    for k := 0 to |keywords|
      invariant forall j | 0 <= j < k :: status[j] == WithoutStale(keywords[j], n, old(status[j]))
      invariant forall j | k <= j < |keywords| :: status[j] == old(status[j])
      invariant does == Count(status, DoesMatch) && might0 == Count(status, MightMatch)
    {
      if status[k] == DoesMatch && |keywords[k]| != n + 1 {
        ghost var before := status[..];
        var might;
        might, does := Mark(status, k, DoesntMatch, might0, does);
        assert forall j | 0 <= j < |keywords| && j != k :: status[..][j] == before[j];
        assert status[..][k] == DoesntMatch;
      }
    }
  }

  ghost predicate AllOk(text: string, keywords: seq<string>, n: nat, status: seq<Status>) {
    n <= |text| && |status| == |keywords| && forall k | 0 <= k < |keywords| :: StatusOk(text, keywords, n, k, status[k])
  }

  ghost predicate AllFinal(text: string, keywords: seq<string>, n: nat, status: seq<Status>) {
    && n <= |text| && |status| == |keywords|
    && forall k | 0 <= k < |keywords| :: FinalStatusOk(text, keywords, n, k, status[k])
  }

  ghost predicate Matched(text: string, keywords: seq<string>, n: nat) {
    n <= |text| && (n == 0 || exists k :: 0 <= k < |keywords| && FoldPrefix(text[..n], keywords[k]))
  }

  /** Reads one more character: what the loop of `scan_keyword` does between two peeks. */
  method ReadChar(text: string, keywords: seq<string>, n: nat, status: array<Status>, might0: nat, does0: nat)
    returns (consume: bool, might: nat, does: nat)
    requires n < |text| && AllOk(text, keywords, n, status[..])
    requires might0 == Count(status, MightMatch) && does0 == Count(status, DoesMatch)
    modifies status
    ensures might == Count(status, MightMatch) && does == Count(status, DoesMatch)
    ensures consume ==> AllOk(text, keywords, n + 1, status[..]) && Matched(text, keywords, n + 1)
    ensures !consume ==> AllFinal(text, keywords, n, status[..]) && might == 0
  {
    ghost var before := status[..];
    assert forall k | 0 <= k < |keywords| :: StatusOk(text, keywords, n, k, before[k]);
    consume, might, does := TestKeywords(text, keywords, n, status, might0, does0);
    ghost var tested := status[..];
    if consume {
      ghost var j :| 0 <= j < |keywords| && before[j] == MightMatch && tested[j] != DoesntMatch;
      ExtendPrefix(text, n, keywords[j]);
      if might + does > 1 {
        does := DropStale(keywords, n, status, might, does);
      } else {
        forall k | 0 <= k < |keywords| ensures tested[k] == WithoutStale(keywords[k], n, tested[k]) {
          if k != j && tested[k] == DoesMatch { TwoInPlay(tested, j, k); }
        }
      }
      forall k | 0 <= k < |keywords| ensures StatusOk(text, keywords, n + 1, k, status[k]) {
        StatusAfterMatch(text, keywords, n, k, before[k]);
      }
    } else {
      forall k | 0 <= k < |keywords| ensures FinalStatusOk(text, keywords, n, k, status[k]) {
        assert !(before[k] == MightMatch && tested[k] != DoesntMatch);
        StatusAfterMiss(text, keywords, n, k, before[k]);
      }
      NoneLeft(text, keywords, n, tested);
    }
  }

  lemma NoneLeft(text: string, keywords: seq<string>, n: nat, status: seq<Status>)
    requires AllFinal(text, keywords, n, status)
    ensures multiset(status)[MightMatch] == 0
  {
    forall k | 0 <= k < |status| ensures status[k] != MightMatch {
      assert FinalStatusOk(text, keywords, n, k, status[k]);
    }
    assert MightMatch !in multiset(status) by { assert MightMatch !in status; }
  }

  ghost predicate Decided(text: string, keywords: seq<string>, n: nat, status: seq<Status>) {
    && n <= |text| && |status| == |keywords|
    && (forall k | 0 <= k < |keywords| :: status[k] == DoesMatch <==> FoldEqual(text[..n], keywords[k]))
    && (n < |text| ==> AllFinal(text, keywords, n, status))
  }

  lemma AllDecided(text: string, keywords: seq<string>, n: nat, status: seq<Status>)
    requires AllOk(text, keywords, n, status) || AllFinal(text, keywords, n, status)
    requires n == |text| || multiset(status)[MightMatch] == 0
    ensures Decided(text, keywords, n, status)
  {
    forall k | 0 <= k < |keywords|
      ensures status[k] == DoesMatch <==> FoldEqual(text[..n], keywords[k])
      ensures n < |text| ==> FinalStatusOk(text, keywords, n, k, status[k])
    {
      if AllOk(text, keywords, n, status) {
        assert StatusOk(text, keywords, n, k, status[k]);
        assert status[k] in multiset(status);
        if n < |text| { StatusAtEnd(text, keywords, n, k, status[k]); }
      } else {
        assert FinalStatusOk(text, keywords, n, k, status[k]);
      }
    }
  }

  lemma ShorterPrefix(text: string, n: nat, longer: nat, word: string)
    requires n <= longer <= |text| && FoldPrefix(text[..longer], word)
    ensures FoldPrefix(text[..n], word)
  {
    forall i | 0 <= i < n ensures SameLetter(text[..n][i], word[i]) {
      assert text[..n][i] == text[..longer][i];
    }
  }

  lemma LongestAtEnd(text: string, keywords: seq<string>, n: nat, status: seq<Status>)
    requires Matched(text, keywords, n) && Decided(text, keywords, n, status)
    ensures LongestMatch(text, keywords, n)
  {
    forall k, longer | 0 <= k < |keywords| && n < longer <= |text| ensures !FoldPrefix(text[..longer], keywords[k]) {
      assert FinalStatusOk(text, keywords, n, k, status[k]);
      if FoldPrefix(text[..longer], keywords[k]) {
        ShorterPrefix(text, n + 1, longer, keywords[k]);
      }
    }
  }

  /** Some keyword continues after the n characters matched. */
  ghost predicate CouldGoOn(text: string, keywords: seq<string>, n: nat)
    requires n <= |text|
  {
    exists k :: 0 <= k < |keywords| && |keywords[k]| > n && FoldPrefix(text[..n], keywords[k])
  }

  lemma WhoCouldGoOn(text: string, keywords: seq<string>, n: nat, status: seq<Status>)
    requires AllOk(text, keywords, n, status)
    ensures multiset(status)[MightMatch] > 0 <==> CouldGoOn(text, keywords, n)
  {
    hide FoldEqual, FoldPrefix;
    assert forall k | 0 <= k < |keywords| :: StatusOk(text, keywords, n, k, status[k]);
    if CouldGoOn(text, keywords, n) {
      var k :| 0 <= k < |keywords| && |keywords[k]| > n && FoldPrefix(text[..n], keywords[k]);
      assert status[k] in multiset(status);
    }
    if multiset(status)[MightMatch] > 0 {
      assert MightMatch in status;
      var k :| 0 <= k < |status| && status[k] == MightMatch;
      assert |keywords[k]| > n && FoldPrefix(text[..n], keywords[k]);
    }
  }

  /**
   * `scan_keyword`: consumes the longest prefix of the input that begins some keyword, and returns the index of the
   * first keyword equal to it, or fails when there is none.
   */
  method ScanKeyword(input: Stream, keywords: seq<string>) returns (found: nat)
    requires input.Valid() && !input.eofbit && !input.failbit
    modifies input
    ensures input.Valid() && old(input.position) <= input.position
    ensures var rest := input.text[old(input.position)..];
            var n := input.position - old(input.position);
            && LongestMatch(rest, keywords, n)
            && found <= |keywords|
            && (found < |keywords| ==> FoldEqual(rest[..n], keywords[found]))
            && (forall k | 0 <= k < found :: !FoldEqual(rest[..n], keywords[k]))
            && (input.failbit <==> found == |keywords|)
            && (input.eofbit <==> n == |rest| && CouldGoOn(rest, keywords, n))
  {
    hide Decided, LongestMatch, AllOk, AllFinal, FoldEqual;
    ghost var text := input.text[input.position..];
    var start := input.position;
    var status, might, does := StartStatus(text, keywords);
    var indx := 0;
    ghost var n: nat := 0;
    while might > 0
      invariant input.position == start + n <= |input.text| && !input.failbit && !input.eofbit
      invariant fresh(status) && might == Count(status, MightMatch) && does == Count(status, DoesMatch)
      invariant Matched(text, keywords, n)
      invariant if might > 0 then indx == n && AllOk(text, keywords, n, status[..])
                else AllOk(text, keywords, n, status[..]) || (n < |text| && AllFinal(text, keywords, n, status[..]))
      decreases |text| - n, might
    {
      if input.position == |input.text| {
        input.eofbit := true;
        WhoCouldGoOn(text, keywords, n, status[..]);
        break;
      }
      var consume;
      consume, might, does := ReadChar(input.text[start..], keywords, indx, status, might, does);
      if consume {
        input.position := input.position + 1;
        n := n + 1;
      }
      indx := indx + 1;
    }
    if n == |text| {
      WhoCouldGoOn(text, keywords, n, status[..]);
    }
    AllDecided(text, keywords, n, status[..]);
    LongestAtEnd(text, keywords, n, status[..]);
    found := FirstMatch(text, keywords, n, status);
    if found == |keywords| {
      input.failbit := true;
    }
  }

  method FirstMatch(ghost text: string, keywords: seq<string>, ghost n: nat, status: array<Status>) returns (found: nat)
    requires Decided(text, keywords, n, status[..])
    ensures found <= |keywords| && (found < |keywords| ==> FoldEqual(text[..n], keywords[found]))
    ensures forall k | 0 <= k < found :: !FoldEqual(text[..n], keywords[k])
  {
    found := 0;
    while found < |keywords| && status[found] != DoesMatch
      invariant found <= |keywords| && forall k | 0 <= k < found :: status[..][k] != DoesMatch
    {
      found := found + 1;
    }
    assert found < |keywords| ==> status[..][found] == DoesMatch;
  }

  /** Every keyword might match, except that an empty one already does. */
  method StartStatus(ghost text: string, keywords: seq<string>) returns (status: array<Status>, might: nat, does: nat)
    ensures fresh(status) && AllOk(text, keywords, 0, status[..])
    ensures might == Count(status, MightMatch) && does == Count(status, DoesMatch)
  {
    status := new Status[|keywords|](_ => MightMatch);
    hide Count;
    might, does := |keywords|, 0;
    CountAll(status);
    for k := 0 to |keywords|
      invariant forall j | 0 <= j < k :: status[j] == if |keywords[j]| > 0 then MightMatch else DoesMatch
      invariant forall j | k <= j < |keywords| :: status[j] == MightMatch
      invariant might == Count(status, MightMatch) && does == Count(status, DoesMatch)
    {
      if |keywords[k]| == 0 {
        ghost var before := status[..];
        might, does := Mark(status, k, DoesMatch, might, does);
        assert forall j | 0 <= j < |keywords| && j != k :: status[..][j] == before[j];
        assert status[..][k] == DoesMatch;
      }
    }
  }

  lemma CountAll(status: array<Status>)
    requires forall k | 0 <= k < status.Length :: status[k] == MightMatch
    ensures Count(status, MightMatch) == status.Length && Count(status, DoesMatch) == 0
  {
    AllMight(status[..]);
  }

  lemma {:induction false} AllMight(status: seq<Status>)
    requires forall k | 0 <= k < |status| :: status[k] == MightMatch
    ensures multiset(status)[MightMatch] == |status| && multiset(status)[DoesMatch] == 0
  {
    if status == [] {
    } else {
      AllMight(status[1..]);
      assert status == [MightMatch] + status[1..];
    }
  }
}
