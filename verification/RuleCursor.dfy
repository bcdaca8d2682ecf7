/** Walking the rules of one name as a sequence of (rule, year) pairs, forwards and backwards. */
module RuleCursor {
  import opened Wrappers
  import opened Rules
  import opened RuleTable

  /** A rule, by its index in the table, and a year. */
  datatype Position = Position(index: int, year: int)

  /** The rules from first to last have one name, and their year ranges are in order, identical or disjoint. */
  ghost predicate Group(rules: seq<Rule>, first: int, last: int) {
    && 0 <= first <= last <= |rules|
    && (forall p | first <= p < last :: rules[p].start <= rules[p].end && rules[p].body.name == rules[first].body.name)
    && (forall p, q | first <= p < q < last ::
         || (rules[p].start == rules[q].start && rules[p].end == rules[q].end)
         || rules[p].end < rules[q].start)
  }

  /** The group is all of the table that has its name. */
  ghost predicate WholeGroup(rules: seq<Rule>, first: int, last: int) {
    && Group(rules, first, last) && first < last
    && (first > 0 ==> rules[first - 1].body.name != rules[first].body.name)
    && (last < |rules| ==> rules[last].body.name != rules[first].body.name)
  }

  /** The pairs there are: each rule with each of its years. */
  predicate Pair(rules: seq<Rule>, first: int, last: int, p: Position) {
    0 <= first <= p.index < last <= |rules| && rules[p.index].start <= p.year <= rules[p.index].end
  }

  /** Year by year, and within a year in the order of the table. */
  predicate Before(p: Position, q: Position) {
    p.year < q.year || (p.year == q.year && p.index < q.index)
  }

  /** q is the pair right after p. */
  ghost predicate IsNext(rules: seq<Rule>, first: int, last: int, p: Position, q: Position) {
    && Pair(rules, first, last, p) && Pair(rules, first, last, q) && Before(p, q)
    && (forall r | Pair(rules, first, last, r) && Before(p, r) :: !Before(r, q))
  }

  ghost predicate IsLast(rules: seq<Rule>, first: int, last: int, p: Position) {
    Pair(rules, first, last, p) && forall r | Pair(rules, first, last, r) :: !Before(p, r)
  }

  // ---- What comes next ----

  lemma NextInYear(rules: seq<Rule>, first: int, last: int, r: int, y: int)
    requires Group(rules, first, last)
    requires Pair(rules, first, last, Position(r, y)) && Pair(rules, first, last, Position(r + 1, y))
    ensures IsNext(rules, first, last, Position(r, y), Position(r + 1, y))
  {}

  lemma NextRange(rules: seq<Rule>, first: int, last: int, r: int)
    requires Group(rules, first, last) && first <= r && r + 1 < last && rules[r].end < rules[r + 1].start
    ensures IsNext(rules, first, last, Position(r, rules[r].end), Position(r + 1, rules[r + 1].start))
  {}

  lemma NextYear(rules: seq<Rule>, first: int, last: int, r: int, r0: int, y: int)
    requires Group(rules, first, last) && first <= r <= r0 && Pair(rules, first, last, Position(r0, y))
    requires y < rules[r0].end && rules[r].start == rules[r0].start
    requires r == first || rules[r].start != rules[r - 1].start
    requires r0 == last - 1 || rules[r0].end != rules[r0 + 1].end
    ensures IsNext(rules, first, last, Position(r0, y), Position(r, y + 1))
  {}

  lemma NoneAfter(rules: seq<Rule>, first: int, last: int)
    requires Group(rules, first, last) && first < last
    ensures IsLast(rules, first, last, Position(last - 1, rules[last - 1].end))
  {}

  /** `find_next_rule` over a range of rules: the pair right after, or none after the last. */
  method FindNext(rules: seq<Rule>, first: int, last: int, r0: int, y: int) returns (next: Option<Position>)
    requires Group(rules, first, last) && Pair(rules, first, last, Position(r0, y))
    ensures match next
            case Some(q) => IsNext(rules, first, last, Position(r0, y), q)
            case None => IsLast(rules, first, last, Position(r0, y))
  {
    hide IsNext, IsLast;
    var r := r0;
    if y == rules[r].end {
      if r == last - 1 {
        NoneAfter(rules, first, last);
        return None;
      }
      r := r + 1;
      if y == rules[r].end {
        NextInYear(rules, first, last, r0, y);
        return Some(Position(r, y));
      }
      NextRange(rules, first, last, r0);
      return Some(Position(r, rules[r].start));
    }
    if r == last - 1 || rules[r].end < rules[r + 1].end {
      while r > first && rules[r].start == rules[r - 1].start
        invariant first <= r <= r0 && rules[r].start == rules[r0].start
      {
        r := r - 1;
      }
      NextYear(rules, first, last, r, r0, y);
      return Some(Position(r, y + 1));
    }
    NextInYear(rules, first, last, r0, y);
    return Some(Position(r + 1, y));
  }

  /** `find_next_rule` over the whole table: the bounds of the group are found by name. */
  method FindNextInTable(rules: seq<Rule>, ghost first: int, ghost last: int, r0: int, y: int)
    returns (next: Option<Position>)
    requires WholeGroup(rules, first, last) && Pair(rules, first, last, Position(r0, y))
    ensures match next
            case Some(q) => IsNext(rules, first, last, Position(r0, y), q)
            case None => IsLast(rules, first, last, Position(r0, y))
  {
    hide IsNext, IsLast;
    var r := r0;
    if y == rules[r].end {
      if r == |rules| - 1 || rules[r].body.name != rules[r + 1].body.name {
        NoneAfter(rules, first, last);
        return None;
      }
      r := r + 1;
      if y == rules[r].end {
        NextInYear(rules, first, last, r0, y);
        return Some(Position(r, y));
      }
      NextRange(rules, first, last, r0);
      return Some(Position(r, rules[r].start));
    }
    if r == |rules| - 1 || rules[r].body.name != rules[r + 1].body.name || rules[r].end < rules[r + 1].end {
      while r > 0 && rules[r].body.name == rules[r - 1].body.name && rules[r].start == rules[r - 1].start
        invariant first <= r <= r0 && rules[r].start == rules[r0].start
      {
        r := r - 1;
      }
      NextYear(rules, first, last, r, r0, y);
      return Some(Position(r, y + 1));
    }
    NextInYear(rules, first, last, r0, y);
    return Some(Position(r + 1, y));
  }

  /** `find_previous_rule`: the pair that comes right before; the source never asks for the one before the first. */
  method FindPrevious(rules: seq<Rule>, ghost first: int, ghost last: int, r0: int, y: int)
    returns (previous: Position)
    requires WholeGroup(rules, first, last) && Pair(rules, first, last, Position(r0, y))
    requires Position(r0, y) != Position(first, rules[first].start)
    ensures IsNext(rules, first, last, previous, Position(r0, y))
  {
    hide IsNext, IsLast;
    var r := r0;
    if y == rules[r].start {
      r := r - 1;
      if y == rules[r].start {
        NextInYear(rules, first, last, r, y);
        return Position(r, y);
      }
      NextRange(rules, first, last, r);
      return Position(r, rules[r].end);
    }
    if r == 0 || rules[r].body.name != rules[r - 1].body.name || rules[r - 1].start < rules[r].start {
      while r < |rules| - 1 && rules[r].body.name == rules[r + 1].body.name && rules[r].start == rules[r + 1].start
        invariant r0 <= r < last && rules[r].start == rules[r0].start
      {
        r := r + 1;
      }
      NextYear(rules, first, last, r0, r, y - 1);
      return Position(r, y - 1);
    }
    NextInYear(rules, first, last, r - 1, y);
    return Position(r - 1, y);
  }

  /** The table that `split_overlaps` leaves is made of such groups, one for each name. */
  lemma TableGivesGroups(cut: seq<Rule>, rules: seq<Rule>, first: int, last: int)
    requires TableNormal(cut) && (forall r | r in cut :: RuleOk(r))
    requires |rules| == |cut| && forall p | 0 <= p < |cut| :: rules[p] == Fixed(cut[p])
    requires 0 <= first < last <= |rules|
    requires forall p | first <= p < last :: rules[p].body.name == rules[first].body.name
    ensures Group(rules, first, last)
  {
    hide RuleOk, Fixed, NormalForm;
    forall p | 0 <= p < |rules| ensures SameYears(cut[p], rules[p]) {
      assert cut[p] in cut;
      FixedKeepsYears(cut[p]);
    }
    forall p, q | first <= p < q < last
      ensures (rules[p].start == rules[q].start && rules[p].end == rules[q].end) || rules[p].end < rules[q].start
    {
      assert SameYears(cut[p], rules[p]) && SameYears(cut[q], rules[q]);
      StringLessIrreflexive(cut[p].body.name);
      NormalPair(cut[p], cut[q]);
    }
    forall p | first <= p < last ensures rules[p].start <= rules[p].end {
      assert SameYears(cut[p], rules[p]);
    }
  }

  predicate SameYears(x: Rule, y: Rule) {
    x.start == y.start <= x.end == y.end && x.body.name == y.body.name
  }

  lemma FixedKeepsYears(r: Rule)
    requires RuleOk(r)
    ensures SameYears(r, Fixed(r))
  {}

  lemma NormalPair(x: Rule, y: Rule)
    requires NormalForm([x, y])
    ensures (x.start == y.start && x.end == y.end) || x.end < y.start
  {
    assert [x, y][0] == x && [x, y][1] == y;
  }

  /** Each pair has one successor and one predecessor, so going back undoes going forward. */
  lemma NextIsUnique(rules: seq<Rule>, first: int, last: int, p: Position, q: Position, p': Position, q': Position)
    requires IsNext(rules, first, last, p, q) && IsNext(rules, first, last, p', q')
    ensures p == p' <==> q == q'
  {}

  ghost predicate InOrder(visited: seq<Position>) {
    forall j, k | 0 <= j < k < |visited| :: Before(visited[j], visited[k])
  }

  /**
   * The loop that the zone look-ups run: from the first rule and its first year on, following `find_next_rule`. It
   * visits every pair exactly once, in order.
   */
  method Walk(rules: seq<Rule>, first: int, last: int) returns (visited: seq<Position>)
    requires Group(rules, first, last) && first < last
    ensures InOrder(visited)
    ensures forall p :: p in visited <==> Pair(rules, first, last, p)
  {
    var p := Position(first, rules[first].start);
    visited := [p];
    FirstIsFirst(rules, first, last);
    while true
      invariant Pair(rules, first, last, p) && |visited| >= 1 && visited[|visited| - 1] == p
      invariant InOrder(visited)
      invariant forall q :: q in visited <==> Pair(rules, first, last, q) && !Before(p, q)
      decreases rules[last - 1].end - p.year, last - p.index
    {
      var next := FindNext(rules, first, last, p.index, p.year);
      if next.None? {
        break;
      }
      visited := visited + [next.value];
      p := next.value;
    }
  }

  lemma FirstIsFirst(rules: seq<Rule>, first: int, last: int)
    requires Group(rules, first, last) && first < last
    ensures var p := Position(first, rules[first].start);
            Pair(rules, first, last, p) && forall q | Pair(rules, first, last, q) :: q == p || Before(p, q)
  {}

  /**
   * `find_first_std_rule`: the chronologically first pair without daylight saving; the source throws when every
   * rule of the group saves.
   */
  method FindFirstStdRule(rules: seq<Rule>, first: int, last: int) returns (found: Option<Position>)
    requires Group(rules, first, last) && first < last
    ensures match found
            case Some(p) =>
              && Pair(rules, first, last, p) && rules[p.index].body.save == 0
              && (forall q | Pair(rules, first, last, q) && Before(q, p) :: rules[q.index].body.save != 0)
            case None => forall q | first <= q < last :: rules[q].body.save != 0
  {
    var p := Position(first, rules[first].start);
    FirstIsFirst(rules, first, last);
    while rules[p.index].body.save != 0
      invariant Pair(rules, first, last, p)
      invariant forall q | Pair(rules, first, last, q) && Before(q, p) :: rules[q.index].body.save != 0
      decreases rules[last - 1].end - p.year, last - p.index
    {
      var next := FindNext(rules, first, last, p.index, p.year);
      if next.None? {
        forall q | first <= q < last ensures rules[q].body.save != 0 {
          assert Pair(rules, first, last, Position(q, rules[q].start));
        }
        return None;
      }
      p := next.value;
    }
    return Some(p);
  }
}
