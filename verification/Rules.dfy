/** Time-zone rules, their order, and what a list of rules stands for. */
module Rules {
  import opened Civil
  import opened Weekdays
  import opened MonthDayTime

  datatype Zone = Utc | Local | Standard

  /** Everything of a rule but its years. */
  datatype RuleBody = RuleBody(name: string, at: DaySpec, timeOfDay: int, zone: Zone, save: int, abbrev: string)

  /** A rule is in force in the years from `start` to `end`, inclusive. */
  datatype Rule = Rule(body: RuleBody, start: int, end: int)

  predicate RuleOk(r: Rule) {
    r.start <= r.end && YearOk(r.start) && YearOk(r.end) && SpecOk(r.body.at)
  }

  function Month(r: Rule): int {
    r.body.at.month
  }

  function Day(r: Rule): int {
    if r.body.at.MonthLast? then 31 else r.body.at.day
  }

  // ---- Order ----

  predicate StringLess(a: string, b: string) {
    if b == [] then false
    else if a == [] then true
    else a[0] < b[0] || (a[0] == b[0] && StringLess(a[1..], b[1..]))
  }

  /** Start year, month, end year and day of the month, compared in this order. */
  predicate KeyLess(x: Rule, y: Rule) {
    || x.start < y.start
    || (x.start == y.start &&
        (|| Month(x) < Month(y)
         || (Month(x) == Month(y) && (x.end < y.end || (x.end == y.end && Day(x) < Day(y))))))
  }

  /** `operator<` on rules */
  predicate RuleLess(x: Rule, y: Rule) {
    StringLess(x.body.name, y.body.name) || (x.body.name == y.body.name && KeyLess(x, y))
  }

  ghost predicate Sorted(rules: seq<Rule>) {
    forall p, q | 0 <= p < q < |rules| :: !RuleLess(rules[q], rules[p])
  }

  ghost predicate SameName(rules: seq<Rule>, name: string) {
    forall p | 0 <= p < |rules| :: rules[p].body.name == name
  }

  /** a is less than b when it is a proper prefix, or has the smaller character where they first differ. */
  lemma {:induction false} StringLessMeans(a: string, b: string)
    ensures StringLess(a, b) <==>
            exists k :: 0 <= k <= |a| && k < |b| && a[..k] == b[..k] && (k == |a| || a[k] < b[k])
  {
    if a == [] || b == [] {
      assert StringLess(a, b) ==> a[..0] == b[..0];
    } else if a[0] != b[0] {
      assert a[0] < b[0] ==> a[..0] == b[..0];
      forall k | 0 < k <= |a| && k < |b| ensures a[..k] != b[..k] {
        assert a[..k][0] != b[..k][0];
      }
    } else {
      StringLessMeans(a[1..], b[1..]);
      if k :| 0 <= k <= |a| - 1 && k < |b| - 1 && a[1..][..k] == b[1..][..k]
              && (k == |a| - 1 || a[1..][k] < b[1..][k]) {
        assert a[..k + 1] == [a[0]] + a[1..][..k] && b[..k + 1] == [b[0]] + b[1..][..k];
      }
      if k :| 0 <= k <= |a| && k < |b| && a[..k] == b[..k] && (k == |a| || a[k] < b[k]) {
        assert k > 0;
        assert a[1..][..k - 1] == a[..k][1..] && b[1..][..k - 1] == b[..k][1..];
      }
    }
  }

  /** Rules of one name are ordered by the first of start year, month, end year and day in which they differ. */
  lemma KeyLessMeans(x: Rule, y: Rule)
    ensures var a, b := [x.start, Month(x), x.end, Day(x)], [y.start, Month(y), y.end, Day(y)];
            KeyLess(x, y) <==> exists k :: 0 <= k < 4 && a[..k] == b[..k] && a[k] < b[k]
  {
    var a, b := [x.start, Month(x), x.end, Day(x)], [y.start, Month(y), y.end, Day(y)];
    assert a[..0] == b[..0];
    assert a[..1] == b[..1] <==> a[0] == b[0];
    assert a[..2] == b[..2] <==> a[0] == b[0] && a[1] == b[1];
    assert a[..3] == b[..3] <==> a[0] == b[0] && a[1] == b[1] && a[2] == b[2];
  }

  /** The month and day that rules are ordered by, against the day the rule falls on. */
  lemma KeyDayIsNear(r: Rule, y: int)
    requires RuleOk(r) && r.start <= y <= r.end
    ensures var key, days := ToDays(Date(y, Month(r), Day(r))), ToSysDays(r.body.at, y);
            match r.body.at
            case MonthDay(_, _) => days == key
            case MonthLast(_, _) => FromDays(days).month == Month(r) && Day(r) == 31
            case OnOrBefore(_, _, _) => key - 6 <= days <= key
            case OnOrAfter(_, _, _) => key <= days <= key + 6
  {
    hide ToDays, FromDays, WeekdayFromDays, WeekdayMinus, LastWeekdayToDays;
    match r.body.at
    case MonthDay(_, _) =>
    case MonthLast(m, wd) => LastWeekdayResolves(m, wd, y);
    case OnOrBefore(_, _, _) => ResolvesToNearest(r.body.at, y);
    case OnOrAfter(_, _, _) => ResolvesToNearest(r.body.at, y);
  }

  lemma StringLessIrreflexive(a: string)
    ensures !StringLess(a, a)
  {}

  /** Within one name, sorted means sorted by key. */
  lemma SortedByKey(rules: seq<Rule>, name: string, p: int, q: int)
    requires Sorted(rules) && SameName(rules, name) && 0 <= p < q < |rules|
    ensures !KeyLess(rules[q], rules[p])
  {}

  // ---- std::sort ----

  lemma {:induction false} StringLessTrans(a: string, b: string, c: string)
    requires !StringLess(b, a) && !StringLess(c, b)
    ensures !StringLess(c, a)
    ensures a == c ==> a == b
  {
    if a != [] && b != [] && c != [] && a[0] == b[0] == c[0] {
      StringLessTrans(a[1..], b[1..], c[1..]);
      assert a == [a[0]] + a[1..] && b == [b[0]] + b[1..] && c == [c[0]] + c[1..];
    }
  }

  lemma {:induction false} StringLessTotal(a: string, b: string)
    ensures StringLess(a, b) || StringLess(b, a) || a == b
    ensures !(StringLess(a, b) && StringLess(b, a))
  {
    if a != [] && b != [] {
      StringLessTotal(a[1..], b[1..]);
      assert a == [a[0]] + a[1..] && b == [b[0]] + b[1..];
    }
  }

  lemma RuleLessTrans(a: Rule, b: Rule, c: Rule)
    requires !RuleLess(b, a) && !RuleLess(c, b)
    ensures !RuleLess(c, a)
  {
    StringLessTrans(a.body.name, b.body.name, c.body.name);
    StringLessTotal(a.body.name, b.body.name);
    StringLessTotal(b.body.name, c.body.name);
    StringLessTotal(a.body.name, c.body.name);
  }

  lemma RuleLessAsym(a: Rule, b: Rule)
    ensures !(RuleLess(a, b) && RuleLess(b, a))
  {
    StringLessTotal(a.body.name, b.body.name);
  }

  function Insert(r: Rule, sorted: seq<Rule>): (result: seq<Rule>)
    ensures multiset(result) == multiset(sorted) + multiset{r}
  {
    if sorted == [] || RuleLess(r, sorted[0]) then [r] + sorted
    else
      assert sorted == [sorted[0]] + sorted[1..];
      [sorted[0]] + Insert(r, sorted[1..])
  }

  lemma {:induction false} InsertSorts(r: Rule, sorted: seq<Rule>)
    requires Sorted(sorted)
    ensures Sorted(Insert(r, sorted))
  {
    if sorted == [] {
    } else {
      RuleLessAsym(r, sorted[0]);
      if RuleLess(r, sorted[0]) {
        forall q | 0 <= q < |sorted| ensures !RuleLess(sorted[q], r) {
          if q > 0 { RuleLessTrans(r, sorted[0], sorted[q]); }
        }
      } else {
        InsertSorts(r, sorted[1..]);
        var rest := Insert(r, sorted[1..]);
        forall q | 0 <= q < |rest| ensures !RuleLess(rest[q], sorted[0]) {
          assert rest[q] in multiset(rest);
          assert rest[q] == r || rest[q] in sorted[1..];
        }
      }
    }
  }

  /** `std::sort`: some sorted arrangement of the same rules. */
  method Sort(rules: seq<Rule>) returns (sorted: seq<Rule>)
    ensures multiset(sorted) == multiset(rules) && |sorted| == |rules| && Sorted(sorted)
  {
    sorted := [];
    for n := 0 to |rules|
      invariant multiset(sorted) == multiset(rules[..n]) && |sorted| == n && Sorted(sorted)
    {
      InsertSorts(rules[n], sorted);
      assert rules[..n + 1] == rules[..n] + [rules[n]];
      sorted := Insert(rules[n], sorted);
      assert |multiset(sorted)| == n + 1;
    }
    assert rules[..|rules|] == rules;
  }

  // ---- What a list of rules stands for ----

  /** The (rule, year) pairs a rule covers. */
  function YearsOf(body: RuleBody, start: int, end: int): (m: multiset<(RuleBody, int)>)
    ensures |m| == if start <= end then end - start + 1 else 0
    decreases end - start
  {
    if start > end then multiset{} else multiset{(body, start)} + YearsOf(body, start + 1, end)
  }

  function Covered(r: Rule): multiset<(RuleBody, int)> {
    YearsOf(r.body, r.start, r.end)
  }

  /** The sum of a measure over a list. */
  function Gather<T>(rules: seq<Rule>, f: Rule -> multiset<T>): multiset<T> {
    if rules == [] then multiset{} else f(rules[0]) + Gather(rules[1..], f)
  }

  lemma {:induction false} GatherConcat<T>(a: seq<Rule>, b: seq<Rule>, f: Rule -> multiset<T>)
    ensures Gather(a + b, f) == Gather(a, f) + Gather(b, f)
  {
    if a == [] {
      assert a + b == b;
    } else {
      assert (a + b)[1..] == a[1..] + b;
      GatherConcat(a[1..], b, f);
    }
  }

  /** A sum does not depend on the order. */
  lemma {:induction false} GatherPermutation<T>(a: seq<Rule>, b: seq<Rule>, f: Rule -> multiset<T>)
    requires multiset(a) == multiset(b)
    ensures Gather(a, f) == Gather(b, f)
    decreases |a|
  {
    if a == [] {
      assert |multiset(a)| == |b|;
    } else {
      assert a[0] in multiset(b);
      var k :| 0 <= k < |b| && b[k] == a[0];
      RemoveOne(b, k);
      assert multiset(a) == multiset(a[1..]) + multiset{a[0]} by { assert a == [a[0]] + a[1..]; }
      CancelOne(multiset(a[1..]), multiset(b[..k] + b[k + 1..]), a[0]);
      GatherPermutation(a[1..], b[..k] + b[k + 1..], f);
      GatherRemoveOne(b, k, f);
    }
  }

  lemma CancelOne<T>(m: multiset<T>, n: multiset<T>, x: T)
    requires m + multiset{x} == n + multiset{x}
    ensures m == n
  {
    assert m == (m + multiset{x}) - multiset{x};
    assert n == (n + multiset{x}) - multiset{x};
  }

  lemma RemoveOne(b: seq<Rule>, k: nat)
    requires k < |b|
    ensures multiset(b) == multiset(b[..k] + b[k + 1..]) + multiset{b[k]}
  {
    assert b == b[..k] + ([b[k]] + b[k + 1..]);
  }

  lemma GatherRemoveOne<T>(b: seq<Rule>, k: nat, f: Rule -> multiset<T>)
    requires k < |b|
    ensures Gather(b, f) == f(b[k]) + Gather(b[..k] + b[k + 1..], f)
  {
    assert b == b[..k] + ([b[k]] + b[k + 1..]);
    GatherConcat(b[..k], b[k + 1..], f);
    GatherConcat(b[..k], [b[k]] + b[k + 1..], f);
    assert ([b[k]] + b[k + 1..])[1..] == b[k + 1..];
  }

  function Cover(rules: seq<Rule>): multiset<(RuleBody, int)> {
    Gather(rules, Covered)
  }

  /** How many rules of the list have this body and are in force in this year. */
  function InForce(rules: seq<Rule>, body: RuleBody, year: int): nat {
    if rules == [] then 0
    else
      var r := rules[0];
      InForce(rules[1..], body, year) + if r.body == body && r.start <= year <= r.end then 1 else 0
  }

  lemma {:induction false} YearsCount(owner: RuleBody, start: int, end: int, body: RuleBody, year: int)
    ensures YearsOf(owner, start, end)[(body, year)] == if owner == body && start <= year <= end then 1 else 0
    decreases end - start
  {
    if start > end {
    } else {
      YearsCount(owner, start + 1, end, body, year);
    }
  }

  /** A pair is covered as many times as there are rules with that body in force in that year. */
  lemma {:induction false} CoverCounts(rules: seq<Rule>, body: RuleBody, year: int)
    ensures Cover(rules)[(body, year)] == InForce(rules, body, year)
  {
    if rules == [] {
    } else {
      YearsCount(rules[0].body, rules[0].start, rules[0].end, body, year);
      CoverCounts(rules[1..], body, year);
    }
  }

  /** Each rule covers at least one pair, so the pairs bound the number of rules. */
  lemma {:induction false} CoverBoundsSize(rules: seq<Rule>)
    requires forall r | r in rules :: r.start <= r.end
    ensures |rules| <= |Cover(rules)|
  {
    if rules == [] {
    } else {
      assert forall r | r in rules[1..] :: r in rules;
      CoverBoundsSize(rules[1..]);
      assert |Covered(rules[0])| >= 1;
    }
  }

  lemma {:induction false} YearsSplit(body: RuleBody, start: int, mid: int, end: int)
    requires start <= mid + 1 && mid <= end
    ensures YearsOf(body, start, end) == YearsOf(body, start, mid) + YearsOf(body, mid + 1, end)
    decreases mid - start
  {
    if start <= mid {
      YearsSplit(body, start + 1, mid, end);
    }
  }
}
