/**
 * Cutting overlapping rules, on values: what one cut does to the two rules involved, and what a pass over the rules
 * still to be settled keeps. The in-place algorithm is in `RuleTable`.
 */
module RuleCuts {
  import opened Rules

  /** `Rule::overlaps`, for rules in order of their start. */
  predicate Overlaps(x: Rule, y: Rule)
    requires x.start <= y.start
  {
    y.start <= x.end && !(x.start == y.start && x.end == y.end)
  }

  predicate InForceIn(r: Rule, year: int) {
    r.start <= year <= r.end
  }

  /** Two rules overlap when some year belongs to both, and some year to one of them only. */
  lemma OverlapsMeans(x: Rule, y: Rule)
    requires x.start <= y.start && x.start <= x.end && y.start <= y.end
    ensures Overlaps(x, y) <==>
            && (exists year :: InForceIn(x, year) && InForceIn(y, year))
            && (exists year :: InForceIn(x, year) != InForceIn(y, year))
  {
    if Overlaps(x, y) {
      assert InForceIn(x, y.start) && InForceIn(y, y.start);
      var year := if x.start < y.start then x.start else if x.end < y.end then y.end else x.end;
      assert InForceIn(x, year) != InForceIn(y, year);
    }
  }

  /** The constructor that takes another rule's body. */
  function Piece(r: Rule, start: int, end: int): Rule {
    r.(start := start, end := end)
  }

  /** What becomes of the earlier rule of an overlapping pair. */
  function Head(x: Rule, y: Rule): Rule {
    if x.start == y.start then
      if y.end < x.end then Piece(x, x.start, y.end) else x
    else Piece(x, x.start, y.start - 1)
  }

  /** What takes the place of the later rule. */
  function Mid(x: Rule, y: Rule): seq<Rule> {
    if x.start == y.start then
      if y.end < x.end then [y, Piece(x, y.end + 1, x.end)]
      else [Piece(y, y.start, x.end), Piece(y, x.end + 1, y.end)]
    else if y.end < x.end then [Piece(x, y.start, y.end), y, Piece(x, y.end + 1, x.end)]
    else if y.end > x.end then [Piece(x, y.start, x.end), Piece(y, y.start, x.end), Piece(y, x.end + 1, y.end)]
    else [Piece(x, y.start, x.end), y]
  }

  /** The list after `Rule::split` of the rules at i and k. */
  function CutAt(rules: seq<Rule>, i: nat, k: nat): seq<Rule>
    requires i < k < |rules|
  {
    rules[..i] + [Head(rules[i], rules[k])] + rules[i + 1..k] + Mid(rules[i], rules[k]) + rules[k + 1..]
  }

  // ---- A cut conserves what is covered ----

  lemma CoverOfOne(a: Rule)
    ensures Cover([a]) == Covered(a)
  {
    assert [a][1..] == [];
    assert Gather([], Covered) == multiset{};
  }

  lemma CoverOfTwo(a: Rule, b: Rule)
    ensures Cover([a, b]) == Covered(a) + Covered(b)
  {
    CoverOfOne(a);
    CoverOfOne(b);
    GatherConcat([a], [b], Covered);
    assert [a] + [b] == [a, b];
  }

  lemma CoverOfThree(a: Rule, b: Rule, c: Rule)
    ensures Cover([a, b, c]) == Covered(a) + Covered(b) + Covered(c)
  {
    CoverOfTwo(a, b);
    CoverOfOne(c);
    GatherConcat([a, b], [c], Covered);
    assert [a, b] + [c] == [a, b, c];
  }

  lemma PiecesCover(x: Rule, y: Rule)
    requires x.start <= y.start && Overlaps(x, y) && x.start <= x.end && y.start <= y.end
    ensures Covered(Head(x, y)) + Cover(Mid(x, y)) == Covered(x) + Covered(y)
  {
    hide YearsOf, Cover;
    var mid := Mid(x, y);
    if x.start == y.start {
      CoverOfTwo(mid[0], mid[1]);
      if y.end < x.end {
        YearsSplit(x.body, x.start, y.end, x.end);
      } else {
        YearsSplit(y.body, y.start, x.end, y.end);
      }
    } else {
      YearsSplit(x.body, x.start, y.start - 1, x.end);
      if y.end < x.end {
        CoverOfThree(mid[0], mid[1], mid[2]);
        YearsSplit(x.body, y.start, y.end, x.end);
      } else if y.end > x.end {
        CoverOfThree(mid[0], mid[1], mid[2]);
        YearsSplit(y.body, y.start, x.end, y.end);
      } else {
        CoverOfTwo(mid[0], mid[1]);
      }
    }
  }

  lemma CutCovers(u: seq<Rule>, i: nat, k: nat)
    requires i < k < |u| && u[i].start <= u[k].start && Overlaps(u[i], u[k])
    requires u[i].start <= u[i].end && u[k].start <= u[k].end
    ensures Cover(CutAt(u, i, k)) == Cover(u)
  {
    hide Cover, Covered, Head, Mid;
    var x, y := u[i], u[k];
    var a, b, c := u[..i], u[i + 1..k], u[k + 1..];
    PiecesCover(x, y);
    CoverOfOne(x);
    CoverOfOne(y);
    CoverOfOne(Head(x, y));
    assert u == a + [x] + b + [y] + c;
    assert CutAt(u, i, k) == a + [Head(x, y)] + b + Mid(x, y) + c;
    assert Cover(u) == Cover(a) + Cover([x]) + Cover(b) + Cover([y]) + Cover(c) by { GatherFive(a, [x], b, [y], c); }
    GatherFive(a, [Head(x, y)], b, Mid(x, y), c);
    Exchange(Cover(a), Covered(Head(x, y)), Cover(b), Cover(Mid(x, y)), Cover(c), Covered(x), Covered(y));
  }

  lemma Exchange<T>(a: multiset<T>, h: multiset<T>, b: multiset<T>, m: multiset<T>, c: multiset<T>,
                    x: multiset<T>, y: multiset<T>)
    requires h + m == x + y
    ensures a + h + b + m + c == a + x + b + y + c
  {
    assert a + h + b + m + c == a + b + c + (h + m);
  }

  lemma GatherFive(a: seq<Rule>, b: seq<Rule>, c: seq<Rule>, d: seq<Rule>, e: seq<Rule>)
    ensures Cover(a + b + c + d + e) == Cover(a) + Cover(b) + Cover(c) + Cover(d) + Cover(e)
  {
    GatherConcat(a, b, Covered);
    GatherConcat(a + b, c, Covered);
    GatherConcat(a + b + c, d, Covered);
    GatherConcat(a + b + c + d, e, Covered);
  }

  // ---- Boundaries ----

  /** A year in which some rule starts, or that follows the last year of one. */
  ghost predicate Boundary(rules: seq<Rule>, b: int) {
    exists r :: r in rules && (r.start == b || r.end + 1 == b)
  }

  /** No boundary of the list falls inside the rule's years. */
  ghost predicate Whole(rules: seq<Rule>, r: Rule) {
    forall b | r.start < b <= r.end :: !Boundary(rules, b)
  }

  /** A rule made by cutting rules of the list: valid, of the same name, and bounded by boundaries of the list. */
  ghost predicate CutFrom(rules: seq<Rule>, name: string, r: Rule) {
    RuleOk(r) && r.body.name == name && Boundary(rules, r.start) && Boundary(rules, r.end + 1)
  }

  /**
   * The rules not yet settled: cut from the original list, sorted, and still showing every original boundary that
   * falls inside one of them.
   */
  ghost predicate Unsettled(rules: seq<Rule>, name: string, u: seq<Rule>) {
    && (forall r | r in u :: CutFrom(rules, name, r))
    && (forall r, b | r in u && r.start < b <= r.end && Boundary(rules, b) :: Boundary(u, b))
    && Sorted(u)
  }

  /** r has the range of x or a longer one, or lies beyond it. */
  predicate Apart(x: Rule, r: Rule) {
    r.start > x.end || (r.start == x.start && r.end >= x.end)
  }

  /** x starts in an earlier year than y, or in the same year and its day comes no later in the year. */
  predicate NoLater(x: Rule, y: Rule) {
    x.start < y.start || (x.start == y.start && (Month(x) < Month(y) || (Month(x) == Month(y) && Day(x) <= Day(y))))
  }

  /** The first rule has been compared with those before position m. */
  ghost predicate Compared(u: seq<Rule>, m: nat)
    requires 1 <= m <= |u|
  {
    && (forall q | 1 <= q < m :: Apart(u[0], u[q]) && (u[q].start == u[0].start ==> NoLater(u[0], u[q])))
    && (Boundary(u[1..], u[0].end + 1) || forall q | 1 <= q < m :: u[q].start == u[0].start ==> u[q].end == u[0].end)
  }

  lemma StartsSorted(rules: seq<Rule>, name: string, u: seq<Rule>, p: nat, q: nat)
    requires Unsettled(rules, name, u) && p <= q < |u|
    ensures u[p].start <= u[q].start
  {
    if p < q {
      assert u[p] in u && u[q] in u;
      assert CutFrom(rules, name, u[p]) && CutFrom(rules, name, u[q]);
      assert !RuleLess(u[q], u[p]);
    }
  }

  lemma KeysSorted(rules: seq<Rule>, name: string, u: seq<Rule>, p: nat, q: nat)
    requires Unsettled(rules, name, u) && p < q < |u|
    ensures !KeyLess(u[q], u[p])
  {
    assert u[p] in u && u[q] in u;
    assert CutFrom(rules, name, u[p]) && CutFrom(rules, name, u[q]);
    assert !RuleLess(u[q], u[p]);
  }

  lemma SkipStep(rules: seq<Rule>, name: string, u: seq<Rule>, m: nat)
    requires Unsettled(rules, name, u) && 1 <= m < |u| && Compared(u, m)
    requires u[0].start <= u[m].start && !Overlaps(u[0], u[m])
    ensures Compared(u, m + 1)
  {
    hide Boundary, Sorted;
    KeysSorted(rules, name, u, 0, m);
    assert u[0] in u && CutFrom(rules, name, u[0]);
  }

  /** The other rules start no earlier than the first, and none cuts into its range. */
  lemma OthersAreApart(rules: seq<Rule>, name: string, u: seq<Rule>, r: Rule)
    requires |u| >= 1 && Unsettled(rules, name, u) && Compared(u, |u|) && r in u[1..]
    ensures CutFrom(rules, name, u[0]) && CutFrom(rules, name, r) && u[0].start <= r.start && Apart(u[0], r)
    ensures r.start <= u[0].end < r.end ==> Boundary(u[1..], u[0].end + 1)
  {
    hide Boundary;
    var q :| 0 <= q < |u| - 1 && u[1..][q] == r;
    assert u[q + 1] == r && u[q + 1] in u && u[0] in u;
    StartsSorted(rules, name, u, 0, q + 1);
  }

  lemma FirstIsWhole(rules: seq<Rule>, name: string, u: seq<Rule>)
    requires |u| >= 1 && Unsettled(rules, name, u) && Compared(u, |u|)
    ensures Whole(rules, u[0])
  {
    hide Compared, Sorted;
    var x := u[0];
    assert u == [x] + u[1..] && x in u;
    forall b | x.start < b <= x.end ensures !Boundary(rules, b) {
      forall s | s in u ensures s.start != b && s.end + 1 != b {
        if s != x {
          OthersAreApart(rules, name, u, s);
        }
      }
      assert !Boundary(u, b);
    }
  }

  /** A rule compared with all the others is settled, and the others remain. */
  lemma SettleFirst(rules: seq<Rule>, name: string, u: seq<Rule>)
    requires |u| >= 1 && Unsettled(rules, name, u) && Compared(u, |u|)
    ensures Whole(rules, u[0]) && Unsettled(rules, name, u[1..])
    ensures forall q | 1 <= q < |u| :: NoLater(u[0], u[q])
  {
    hide CutFrom, Whole, RuleLess;
    var x, rest := u[0], u[1..];
    assert u == [x] + rest;
    FirstIsWhole(rules, name, u);
    assert forall r | r in rest :: r in u;
    forall q | 1 <= q < |u| ensures NoLater(x, u[q]) {
      assert u[q] == rest[q - 1];
      OthersAreApart(rules, name, u, u[q]);
    }
    forall r, b | r in rest && r.start < b <= r.end && Boundary(rules, b) ensures Boundary(rest, b) {
      assert r in u && Boundary(u, b);
      var s :| s in u && (s.start == b || s.end + 1 == b);
      OthersAreApart(rules, name, u, r);
      assert s in rest || s == x;
    }
  }

  // ---- Counting rules up to a key ----

  function UpTo(y: Rule): Rule -> multiset<Rule> {
    r => if KeyLess(y, r) then multiset{} else multiset{r}
  }

  lemma {:induction false} CountIsBounded(s: seq<Rule>, y: Rule)
    ensures |Gather(s, UpTo(y))| <= |s|
    ensures (forall r | r in s :: KeyLess(y, r)) ==> |Gather(s, UpTo(y))| == 0
    ensures (forall r | r in s :: !KeyLess(y, r)) ==> |Gather(s, UpTo(y))| == |s|
  {
    if s == [] {
    } else {
      CountIsBounded(s[1..], y);
      assert forall r | r in s[1..] :: r in s;
      assert s[0] in s;
    }
  }

  /** In a sorted list with more than q rules up to y's key, the rule at q is one of them. */
  lemma FirstAreSmall(t: seq<Rule>, name: string, y: Rule, q: nat)
    requires Sorted(t) && SameName(t, name) && q < |t| && |Gather(t, UpTo(y))| > q
    ensures !KeyLess(y, t[q])
  {
    if KeyLess(y, t[q]) {
      forall r | r in t[q..] ensures KeyLess(y, r) {
        var k :| q <= k < |t| && t[k] == r;
        if q < k { SortedByKey(t, name, q, k); }
      }
      assert t == t[..q] + t[q..];
      GatherConcat(t[..q], t[q..], UpTo(y));
      CountIsBounded(t[..q], y);
      CountIsBounded(t[q..], y);
    }
  }

  // ---- A cut among the rules still to be settled ----

  /** The first rule is about to be cut against the one at m. */
  ghost predicate Cutting(rules: seq<Rule>, name: string, u: seq<Rule>, m: nat) {
    && 1 <= m < |u| && Unsettled(rules, name, u) && Compared(u, m)
    && u[0].start <= u[m].start && Overlaps(u[0], u[m])
  }

  lemma CutMembers(u: seq<Rule>, m: nat, r: Rule)
    requires 1 <= m < |u|
    ensures r in CutAt(u, 0, m) <==> r == Head(u[0], u[m]) || r in u[1..m] || r in Mid(u[0], u[m]) || r in u[m + 1..]
  {
    hide Head, Mid;
  }

  lemma PiecesAreCutFrom(rules: seq<Rule>, name: string, x: Rule, y: Rule, r: Rule)
    requires x.start <= y.start && Overlaps(x, y) && CutFrom(rules, name, x) && CutFrom(rules, name, y)
    requires r == Head(x, y) || r in Mid(x, y)
    ensures CutFrom(rules, name, r)
    ensures (x.start <= r.start && r.end <= x.end) || (y.start <= r.start && r.end <= y.end)
  {}

  lemma CutIsCutFrom(rules: seq<Rule>, name: string, u: seq<Rule>, m: nat, r: Rule)
    requires Cutting(rules, name, u, m) && r in CutAt(u, 0, m)
    ensures CutFrom(rules, name, r)
    ensures exists s :: s in u && s.start <= r.start && r.end <= s.end
  {
    hide Head, Mid, CutFrom;
    CutMembers(u, m, r);
    assert u[0] in u && u[m] in u && CutFrom(rules, name, u[0]) && CutFrom(rules, name, u[m]);
    if r in u[1..m] || r in u[m + 1..] {
      assert r in u;
    } else {
      PiecesAreCutFrom(rules, name, u[0], u[m], r);
    }
  }

  lemma PiecesKeepBoundaries(x: Rule, y: Rule, b: int) returns (piece: Rule)
    requires x.start <= y.start && Overlaps(x, y)
    requires b in {x.start, x.end + 1, y.start, y.end + 1}
    ensures piece == Head(x, y) || piece in Mid(x, y)
    ensures piece.start == b || piece.end + 1 == b
  {
    var mid := Mid(x, y);
    var first, last := mid[0], mid[|mid| - 1];
    assert first in mid && last in mid;
    piece := if b == x.start then Head(x, y)
             else if first.start == b || first.end + 1 == b then first
             else if last.start == b || last.end + 1 == b then last
             else Head(x, y);
  }

  lemma CutKeepsBoundaries(rules: seq<Rule>, name: string, u: seq<Rule>, m: nat, b: int)
    requires Cutting(rules, name, u, m) && Boundary(u, b)
    ensures Boundary(CutAt(u, 0, m), b)
  {
    hide Unsettled, Compared, Overlaps, CutAt, Head, Mid;
    var r :| r in u && (r.start == b || r.end + 1 == b);
    if r == u[0] || r == u[m] {
      var piece := PiecesKeepBoundaries(u[0], u[m], b);
      CutMembers(u, m, piece);
    } else {
      CutMembers(u, m, r);
      var q :| 0 <= q < |u| && u[q] == r;
      assert if q < m then r == u[1..m][q - 1] else r == u[m + 1..][q - m - 1];
    }
  }

  lemma SortedCutIsUnsettled(rules: seq<Rule>, name: string, u: seq<Rule>, m: nat, t: seq<Rule>)
    requires Cutting(rules, name, u, m) && multiset(t) == multiset(CutAt(u, 0, m)) && Sorted(t)
    ensures Unsettled(rules, name, t)
  {
    hide Overlaps, CutAt, CutFrom, RuleLess;
    var c := CutAt(u, 0, m);
    SameMembers(t, c);
    forall r | r in t ensures CutFrom(rules, name, r) {
      CutIsCutFrom(rules, name, u, m, r);
    }
    forall r, b | r in t && r.start < b <= r.end && Boundary(rules, b) ensures Boundary(t, b) {
      CutIsCutFrom(rules, name, u, m, r);
      var s :| s in u && s.start <= r.start && r.end <= s.end;
      assert Boundary(u, b);
      CutKeepsBoundaries(rules, name, u, m, b);
      var w :| w in c && (w.start == b || w.end + 1 == b);
      assert w in t;
    }
  }

  lemma SameMembers(t: seq<Rule>, c: seq<Rule>)
    requires multiset(t) == multiset(c)
    ensures |t| == |c|
    ensures forall r :: r in t <==> r in c
  {
    assert |multiset(t)| == |t| && |multiset(c)| == |c|;
    forall r ensures r in t <==> r in c {
      assert r in t <==> r in multiset(t);
      assert r in c <==> r in multiset(c);
    }
  }

  /** Whatever comes before the cut position stays apart from the shortened first rule. */
  lemma CutIsApart(rules: seq<Rule>, name: string, u: seq<Rule>, m: nat, e: Rule)
    requires Cutting(rules, name, u, m) && e in CutAt(u, 0, m)
    requires u[0].start < u[m].start || !KeyLess(u[m], e)
    ensures Apart(Head(u[0], u[m]), e)
  {
    var x, y := u[0], u[m];
    assert x in u && y in u && CutFrom(rules, name, x) && CutFrom(rules, name, y);
    CutMembers(u, m, e);
    if e in u[1..m] {
      var q :| 0 <= q < m - 1 && u[1..m][q] == e;
      assert Apart(x, u[q + 1]);
    } else if e in u[m + 1..] {
      var q :| 0 <= q < |u| - m - 1 && u[m + 1..][q] == e;
      assert u[m + 1 + q] == e && e in u && CutFrom(rules, name, e);
      assert !RuleLess(e, y);
    }
  }

  lemma CutSameName(rules: seq<Rule>, name: string, u: seq<Rule>, m: nat, t: seq<Rule>)
    requires Cutting(rules, name, u, m) && multiset(t) == multiset(CutAt(u, 0, m))
    ensures SameName(t, name) && |t| == |CutAt(u, 0, m)| && |t| >= |u| + 1
  {
    hide CutAt;
    var c := CutAt(u, 0, m);
    SameMembers(t, c);
    forall p | 0 <= p < |t| ensures t[p].body.name == name {
      assert t[p] in t;
      CutIsCutFrom(rules, name, u, m, t[p]);
    }
    CutSize(u, m);
  }

  lemma CutSize(u: seq<Rule>, m: nat)
    requires 1 <= m < |u|
    ensures |CutAt(u, 0, m)| == |u| + |Mid(u[0], u[m])| - 1 >= |u| + 1
  {}

  lemma FewAreUpTo(rules: seq<Rule>, name: string, u: seq<Rule>, m: nat, r: Rule)
    requires Cutting(rules, name, u, m) && u[0].start == u[m].start
    requires r == Head(u[0], u[m]) || r in u[1..m] || r == Mid(u[0], u[m])[0]
    ensures !KeyLess(u[m], r)
  {
    hide Sorted, Boundary;
    KeysSorted(rules, name, u, 0, m);
    if r in u[1..m] {
      var q :| 0 <= q < m - 1 && u[1..m][q] == r;
      KeysSorted(rules, name, u, q + 1, m);
    }
  }

  /** When both rules start together, the cut list has m + 1 rules up to the key of the one at m. */
  lemma ManyUpTo(rules: seq<Rule>, name: string, u: seq<Rule>, m: nat)
    requires Cutting(rules, name, u, m) && u[0].start == u[m].start
    ensures |Gather(CutAt(u, 0, m), UpTo(u[m]))| > m
  {
    hide Head, KeyLess, Unsettled, Compared, Overlaps;
    var x, y := u[0], u[m];
    var mid := Mid(x, y);
    var few := [Head(x, y)] + u[1..m] + [mid[0]];
    var rest := mid[1..] + u[m + 1..];
    assert CutAt(u, 0, m) == few + rest;
    GatherConcat(few, rest, UpTo(y));
    forall r | r in few ensures !KeyLess(y, r) {
      FewAreUpTo(rules, name, u, m, r);
    }
    CountIsBounded(few, y);
  }

  lemma FirstAreApart(rules: seq<Rule>, name: string, u: seq<Rule>, m: nat, t: seq<Rule>, q: nat)
    requires Cutting(rules, name, u, m) && multiset(t) == multiset(CutAt(u, 0, m)) && Sorted(t)
    requires q <= m && q < |t|
    ensures Apart(Head(u[0], u[m]), t[q])
  {
    hide CutAt, Head, Mid, Apart, RuleLess, Unsettled;
    SameMembers(t, CutAt(u, 0, m));
    assert t[q] in t;
    if u[0].start == u[m].start {
      CutSameName(rules, name, u, m, t);
      ManyUpTo(rules, name, u, m);
      GatherPermutation(t, CutAt(u, 0, m), UpTo(u[m]));
      FirstAreSmall(t, name, u[m], q);
    }
    CutIsApart(rules, name, u, m, t[q]);
  }

  /** Every rule of the cut list is a rule from before, or a piece that keeps its day or starts later than the first. */
  lemma CutComesFrom(rules: seq<Rule>, name: string, u: seq<Rule>, m: nat, e: Rule)
    requires Cutting(rules, name, u, m) && e in CutAt(u, 0, m)
    ensures exists r :: r in u && NoLater(r, e)
    ensures u[0].start <= e.start
  {
    hide Boundary, Compared;
    var x, y := u[0], u[m];
    assert x in u && y in u && CutFrom(rules, name, x) && CutFrom(rules, name, y);
    CutMembers(u, m, e);
    if e in u[1..m] || e in u[m + 1..] {
      assert e in u && NoLater(e, e);
      var q :| 0 <= q < |u| && u[q] == e;
      StartsSorted(rules, name, u, 0, q);
    } else {
      assert NoLater(x, e) || NoLater(y, e);
    }
  }

  /** After the sort the list starts with a rule that has the shortened range. */
  lemma SortedCutHead(rules: seq<Rule>, name: string, u: seq<Rule>, m: nat, t: seq<Rule>)
    requires Cutting(rules, name, u, m) && multiset(t) == multiset(CutAt(u, 0, m)) && Sorted(t)
    ensures |t| > m + 1
    ensures t[0].start == Head(u[0], u[m]).start && t[0].end == Head(u[0], u[m]).end
  {
    var h := Head(u[0], u[m]);
    SameMembers(t, CutAt(u, 0, m));
    CutSameName(rules, name, u, m, t);
    FirstAreApart(rules, name, u, m, t, 0);
    CutMembers(u, m, h);
    CutComesFrom(rules, name, u, m, t[0]);
    var k :| 0 <= k < |t| && t[k] == h;
    if k > 0 { SortedByKey(t, name, 0, k); }
  }

  /** Of rules with one range, a sorted list has the one that comes no later in the year in front. */
  lemma FrontIsNoLater(t: seq<Rule>, name: string, e: Rule)
    requires Sorted(t) && SameName(t, name) && e in t && t[0].start == e.start && t[0].end == e.end
    ensures NoLater(t[0], e)
  {
    var k :| 0 <= k < |t| && t[k] == e;
    if k > 0 { SortedByKey(t, name, 0, k); }
  }

  /** What a rule of the cut list that starts with the first one is. */
  lemma StartsWithHead(rules: seq<Rule>, name: string, u: seq<Rule>, m: nat, e: Rule)
    requires Cutting(rules, name, u, m) && e in CutAt(u, 0, m) && e.start == u[0].start
    requires u[0].start == u[m].start ==> !KeyLess(u[m], e)
    ensures || NoLater(Head(u[0], u[m]), e)
            || (u[0].start == u[m].start && NoLater(Mid(u[0], u[m])[0], e))
  {
    hide Boundary, Apart;
    var x, y := u[0], u[m];
    assert x in u && y in u && CutFrom(rules, name, x) && CutFrom(rules, name, y);
    CutMembers(u, m, e);
    if e in u[1..m] {
      var p :| 0 <= p < m - 1 && u[1..m][p] == e;
      assert u[p + 1] == e;
    } else if e in u[m + 1..] {
      var p :| 0 <= p < |u| - m - 1 && u[m + 1..][p] == e;
      KeysSorted(rules, name, u, m, m + 1 + p);
    }
  }

  /** Whatever comes before the cut position and starts with the first rule comes no earlier in the year. */
  lemma FirstAreNoEarlier(rules: seq<Rule>, name: string, u: seq<Rule>, m: nat, t: seq<Rule>, q: nat)
    requires Cutting(rules, name, u, m) && multiset(t) == multiset(CutAt(u, 0, m)) && Sorted(t)
    requires 1 <= q <= m && q < |t| && t[q].start == t[0].start
    ensures NoLater(t[0], t[q])
  {
    hide CutAt, Unsettled, Compared, Sorted;
    var x, y := u[0], u[m];
    SameMembers(t, CutAt(u, 0, m));
    CutSameName(rules, name, u, m, t);
    SortedCutHead(rules, name, u, m, t);
    CutMembers(u, m, Head(x, y));
    FrontIsNoLater(t, name, Head(x, y));
    assert t[q] in t;
    if x.start == y.start {
      assert Mid(x, y)[0] in Mid(x, y);
      CutMembers(u, m, Mid(x, y)[0]);
      FrontIsNoLater(t, name, Mid(x, y)[0]);
      ManyUpTo(rules, name, u, m);
      GatherPermutation(t, CutAt(u, 0, m), UpTo(y));
      FirstAreSmall(t, name, y, q);
    }
    StartsWithHead(rules, name, u, m, t[q]);
  }

  lemma PieceAfterHead(x: Rule, y: Rule)
    requires x.start <= y.start && Overlaps(x, y)
    ensures exists next :: next in Mid(x, y) && next.start == Head(x, y).end + 1
    ensures Head(x, y).start == x.start
  {
    var mid := Mid(x, y);
    assert mid[0] in mid && mid[1] in mid;
  }

  /** A rule starts right after the shortened one. */
  lemma SortedCutNext(rules: seq<Rule>, name: string, u: seq<Rule>, m: nat, t: seq<Rule>)
    requires Cutting(rules, name, u, m) && multiset(t) == multiset(CutAt(u, 0, m)) && |t| >= 1
    requires t[0].start == Head(u[0], u[m]).start && t[0].end == Head(u[0], u[m]).end
    ensures Boundary(t[1..], t[0].end + 1)
  {
    hide CutAt, Head, Mid, Unsettled, Compared;
    PieceAfterHead(u[0], u[m]);
    var next :| next in Mid(u[0], u[m]) && next.start == Head(u[0], u[m]).end + 1;
    CutMembers(u, m, next);
    SameMembers(t, CutAt(u, 0, m));
    assert t[0] in t;
    CutIsCutFrom(rules, name, u, m, t[0]);
    var n :| 0 <= n < |t| && t[n] == next;
    assert t[1..][n - 1] == next;
  }

  lemma CoverPermutation(t: seq<Rule>, c: seq<Rule>)
    requires multiset(t) == multiset(c)
    ensures Cover(t) == Cover(c)
  {
    GatherPermutation(t, c, Covered);
  }

  /** One cut and sort: the rules stay unsettled, and one more of them is compared with the first. */
  lemma CutStep(rules: seq<Rule>, name: string, u: seq<Rule>, m: nat, t: seq<Rule>)
    requires Cutting(rules, name, u, m) && multiset(t) == multiset(CutAt(u, 0, m)) && Sorted(t)
    ensures |t| > m + 1 && Unsettled(rules, name, t) && Compared(t, m + 1)
    ensures Cover(t) == Cover(u)
  {
    hide CutAt, Head, Mid, RuleLess, Cover;
    SortedCutIsUnsettled(rules, name, u, m, t);
    SortedCutHead(rules, name, u, m, t);
    SortedCutNext(rules, name, u, m, t);
    forall q | 1 <= q < m + 1 ensures Apart(t[0], t[q]) && (t[q].start == t[0].start ==> NoLater(t[0], t[q])) {
      FirstAreApart(rules, name, u, m, t, q);
      if t[q].start == t[0].start {
        FirstAreNoEarlier(rules, name, u, m, t, q);
      }
    }
    assert u[0] in u && u[m] in u && CutFrom(rules, name, u[0]) && CutFrom(rules, name, u[m]);
    CutCovers(u, 0, m);
    assert Cover(t) == Cover(CutAt(u, 0, m)) by { CoverPermutation(t, CutAt(u, 0, m)); }
  }
}
