/** The table of time-zone rules, and the in-place algorithm that makes year ranges identical or disjoint. */
module RuleTable {
  import opened Rules
  import opened RuleCuts
  import opened MonthDayTime

  /** Sorted by start year and then month, with every two year ranges identical or disjoint. */
  ghost predicate NormalForm(rules: seq<Rule>) {
    forall p, q | 0 <= p < q < |rules| ::
      || (rules[p].start == rules[q].start && rules[p].end == rules[q].end && Month(rules[p]) <= Month(rules[q]))
      || rules[p].end < rules[q].start
  }

  /** A rule of a single year, with its day fixed for that year. */
  function Fixed(r: Rule): (f: Rule)
    requires RuleOk(r)
    ensures RuleOk(f)
  {
    if r.start == r.end then r.(body := r.body.(at := Canonical(r.body.at, r.start))) else r
  }

  /** The rules settled so far. */
  ghost predicate Settled(original: seq<Rule>, name: string, s: seq<Rule>) {
    && (forall p | 0 <= p < |s| :: CutFrom(original, name, s[p]) && Whole(original, s[p]))
    && (forall p, q | 0 <= p < q < |s| :: NoLater(s[p], s[q]))
  }

  /** Ranges with no boundary inside are identical or disjoint, and then the order kept so far is the full one. */
  lemma WholeIsNormal(original: seq<Rule>, name: string, s: seq<Rule>)
    requires Settled(original, name, s)
    ensures NormalForm(s) && Sorted(s)
  {
    forall p, q | 0 <= p < q < |s|
      ensures || (s[p].start == s[q].start && s[p].end == s[q].end && Month(s[p]) <= Month(s[q]))
              || s[p].end < s[q].start
      ensures !RuleLess(s[q], s[p])
    {
      StringLessIrreflexive(name);
      assert CutFrom(original, name, s[p]) && CutFrom(original, name, s[q]);
      assert Whole(original, s[p]) && Whole(original, s[q]);
      assert NoLater(s[p], s[q]);
    }
  }

  lemma SliceOfSlice(s: seq<Rule>, lo: nat, hi: nat, a: nat, b: nat)
    requires lo <= hi <= |s| && a <= b <= hi - lo
    ensures s[lo..hi][a..b] == s[lo + a..lo + b]
  {
    var t := s[lo..hi];
    assert forall j | a <= j < b :: t[j] == s[lo + j];
    assert forall j | 0 <= j < b - a :: t[a..b][j] == s[lo + a..lo + b][j];
  }

  lemma CutSlice(rules: seq<Rule>, i: nat, k: nat, e: nat)
    requires i < k < e <= |rules|
    ensures var c := CutAt(rules, i, k);
            var e' := e + |c| - |rules|;
            && i <= e' <= |c| && c[..i] == rules[..i] && c[e'..] == rules[e..]
            && c[i..e'] == CutAt(rules[i..e], 0, k - i)
  {
    hide Head, Mid;
    var u := rules[i..e];
    var x, y := rules[i], rules[k];
    assert u[0] == x && u[k - i] == y;
    var c := CutAt(rules, i, k);
    var e' := e + |c| - |rules|;
    assert rules[k + 1..] == rules[k + 1..e] + rules[e..];
    SliceOfSlice(rules, i, e, 1, k - i);
    SliceOfSlice(rules, i, e, k - i + 1, e - i);
    assert c == rules[..i] + ([Head(x, y)] + u[1..k - i] + Mid(x, y) + u[k - i + 1..]) + rules[e..];
  }

  /** What the comparison of the rules at i and k leaves of the unsettled rules u. */
  ghost predicate Stepped(original: seq<Rule>, name: string, u: seq<Rule>, u': seq<Rule>, m: nat) {
    && 1 <= m && |u'| >= m + 1 && |u| >= 1
    && Unsettled(original, name, u') && Compared(u', m + 1)
    && Cover(u') == Cover(u) && (forall e | e in u' :: exists r :: r in u && NoLater(r, e))
  }

  lemma CutIsStep(original: seq<Rule>, name: string, u: seq<Rule>, m: nat, t: seq<Rule>)
    requires Cutting(original, name, u, m) && multiset(t) == multiset(CutAt(u, 0, m)) && Sorted(t)
    ensures Stepped(original, name, u, t, m)
  {
    hide CutAt, Cover;
    CutStep(original, name, u, m, t);
    SameMembers(t, CutAt(u, 0, m));
    forall e | e in t ensures exists r :: r in u && NoLater(r, e) {
      CutComesFrom(original, name, u, m, e);
    }
  }

  lemma SkipIsStep(original: seq<Rule>, name: string, u: seq<Rule>, m: nat)
    requires Unsettled(original, name, u) && 1 <= m < |u| && Compared(u, m)
    requires u[0].start <= u[m].start && !Overlaps(u[0], u[m])
    ensures Stepped(original, name, u, u, m)
  {
    SkipStep(original, name, u, m);
    assert forall e | e in u :: NoLater(e, e);
  }

  /** Of the group from i0 to e, the rules before i are settled and the others are not. */
  ghost predicate Looping(original: seq<Rule>, name: string, rules: seq<Rule>, i0: nat, i: nat, e: nat) {
    && i0 <= i <= e <= |rules|
    && Settled(original, name, rules[i0..i]) && Unsettled(original, name, rules[i..e])
    && (forall p, r | i0 <= p < i && r in rules[i..e] :: NoLater(rules[p], r))
    && Cover(rules[i0..i]) + Cover(rules[i..e]) == Cover(original)
    && e - i0 <= |Cover(original)|
  }

  lemma StartLoop(original: seq<Rule>, name: string, rules: seq<Rule>, i0: nat, e: nat)
    requires i0 <= e <= |rules| && original == rules[i0..e]
    requires Sorted(original) && SameName(original, name) && forall r | r in original :: RuleOk(r)
    ensures Looping(original, name, rules, i0, i0, e)
  {
    forall r | r in original ensures CutFrom(original, name, r) {
      assert Boundary(original, r.start) && Boundary(original, r.end + 1);
    }
    assert rules[i0..i0] == [];
    CoverBoundsSize(original);
  }

  lemma CoverConcat(a: seq<Rule>, b: seq<Rule>)
    ensures Cover(a + b) == Cover(a) + Cover(b)
  {
    GatherConcat(a, b, Covered);
  }

  lemma LoopSize(original: seq<Rule>, name: string, s: seq<Rule>, u: seq<Rule>)
    requires Settled(original, name, s) && Unsettled(original, name, u) && Cover(s) + Cover(u) == Cover(original)
    ensures |s| + |u| <= |Cover(original)|
  {
    hide Cover;
    CoverConcat(s, u);
    forall r | r in s + u ensures r.start <= r.end {
      assert r in s || r in u;
      if r in s { var p :| 0 <= p < |s| && s[p] == r; assert CutFrom(original, name, s[p]); }
      if r in u { assert CutFrom(original, name, r); }
    }
    CoverBoundsSize(s + u);
  }

  lemma LoopCut(
    original: seq<Rule>, name: string, before: seq<Rule>, rules: seq<Rule>, i0: nat, i: nat, e0: nat, e: nat, m: nat)
    requires Looping(original, name, before, i0, i, e0) && i < e0
    requires i <= e <= |rules| && rules[..i] == before[..i]
    requires Stepped(original, name, before[i..e0], rules[i..e], m)
    ensures i < e && Looping(original, name, rules, i0, i, e) && Compared(rules[i..e], m + 1)
  {
    hide Cover, Settled, Unsettled, Compared;
    assert rules[i0..i] == rules[..i][i0..] == before[i0..i];
    forall p, e1 | i0 <= p < i && e1 in rules[i..e] ensures NoLater(rules[p], e1) {
      assert rules[p] == rules[..i][p] == before[p];
      var r :| r in before[i..e0] && NoLater(r, e1);
      assert NoLater(before[p], r);
    }
    LoopSize(original, name, rules[i0..i], rules[i..e]);
  }

  lemma LoopFacts(original: seq<Rule>, name: string, rules: seq<Rule>, i0: nat, i: nat, e: nat)
    requires Looping(original, name, rules, i0, i, e)
    ensures e - i0 <= |Cover(original)| && Unsettled(original, name, rules[i..e])
    ensures i < e ==> Compared(rules[i..e], 1)
  {}

  lemma FirstIsCutFrom(original: seq<Rule>, name: string, u: seq<Rule>)
    requires Unsettled(original, name, u) && |u| >= 1
    ensures CutFrom(original, name, u[0])
  {
    assert u[0] in u;
  }

  lemma LoopSettle(original: seq<Rule>, name: string, rules: seq<Rule>, i0: nat, i: nat, e: nat)
    requires Looping(original, name, rules, i0, i, e) && i < e && Compared(rules[i..e], e - i)
    ensures Looping(original, name, rules, i0, i + 1, e)
  {
    hide Compared, Unsettled, Cover, Whole;
    var s, u, x := rules[i0..i], rules[i..e], rules[i];
    assert u[0] == x && x in u;
    FirstIsCutFrom(original, name, u);
    SettleFirst(original, name, u);
    assert u[1..] == rules[i + 1..e];
    assert rules[i0..i + 1] == s + [x];
    assert u == [x] + u[1..];
    CoverConcat(s, [x]);
    CoverConcat([x], u[1..]);
    forall p | 0 <= p < |s| ensures NoLater(s[p], x) {
      assert s[p] == rules[i0 + p];
    }
    forall p, r | i0 <= p < i + 1 && r in u[1..] ensures NoLater(rules[p], r) {
      assert r in u;
      if p == i {
        var q :| 0 <= q < |u| - 1 && u[1..][q] == r;
        assert u[q + 1] == r;
      }
    }
  }

  lemma CutFromIsOk(original: seq<Rule>, name: string, r: Rule)
    requires CutFrom(original, name, r)
    ensures RuleOk(r) && r.body.name == name
  {}

  lemma LoopDone(original: seq<Rule>, name: string, rules: seq<Rule>, i0: nat, i: nat, e: nat)
    requires Looping(original, name, rules, i0, i, e) && i + 1 >= e
    ensures NormalForm(rules[i0..e]) && Sorted(rules[i0..e]) && Cover(rules[i0..e]) == Cover(original)
    ensures forall r | r in rules[i0..e] :: RuleOk(r) && r.body.name == name
  {
    hide Unsettled, Whole, CutFrom, Compared, NormalForm, RuleOk;
    if i < e {
      LoopFacts(original, name, rules, i0, i, e);
      LoopSettle(original, name, rules, i0, i, e);
    }
    assert rules[e..e] == [];
    assert Settled(original, name, rules[i0..e]);
    WholeIsNormal(original, name, rules[i0..e]);
    SettledAreOk(original, name, rules[i0..e]);
  }

  lemma SettledAreOk(original: seq<Rule>, name: string, rules: seq<Rule>)
    requires Settled(original, name, rules)
    ensures forall r | r in rules :: RuleOk(r) && r.body.name == name
  {
    hide Whole, CutFrom, NormalForm, RuleOk;
    forall r | r in rules ensures RuleOk(r) && r.body.name == name {
      var p :| 0 <= p < |rules| && rules[p] == r;
      CutFromIsOk(original, name, r);
    }
  }

  /** The later rule takes the value y between two pieces, and the earlier one becomes its head. */
  lemma InsertTwo(s: seq<Rule>, i: nat, k: nat, head: Rule, a: Rule, y: Rule, b: Rule)
    requires i < k < |s|
    ensures var t := s[..k] + [a] + s[k..];
            var u := t[..k + 2] + [b] + t[k + 2..];
            u[k + 1 := y][i := head] == s[..i] + [head] + s[i + 1..k] + [a, y, b] + s[k + 1..]
  {}

  lemma InsertOne(s: seq<Rule>, i: nat, k: nat, head: Rule, a: Rule)
    requires i < k < |s|
    ensures var t := s[..k] + [a] + s[k..];
            t[i := head] == s[..i] + [head] + s[i + 1..k] + [a, s[k]] + s[k + 1..]
  {}

  lemma InsertAfter(s: seq<Rule>, i: nat, k: nat, head: Rule, y: Rule, b: Rule)
    requires i < k < |s|
    ensures var t := s[..k + 1] + [b] + s[k + 1..];
            t[k := y][i := head] == s[..i] + [head] + s[i + 1..k] + [y, b] + s[k + 1..]
  {}

  lemma ReplaceSlice(s: seq<Rule>, i: nat, e: nat, t: seq<Rule>)
    requires i <= e <= |s| && |t| == e - i
    ensures var r := s[..i] + t + s[e..]; r[..i] == s[..i] && r[i..e] == t && r[e..] == s[e..] && |r| == |s|
  {}

  class Table {
    var rules: seq<Rule>

    constructor (rules: seq<Rule>)
      ensures this.rules == rules
    {
      this.rules := rules;
    }

    method InsertAt(position: nat, r: Rule)
      requires position <= |rules|
      modifies this
      ensures rules == old(rules)[..position] + [r] + old(rules)[position..]
    {
      rules := rules[..position] + [r] + rules[position..];
    }

    /** `Rule::split` of the overlapping rules at i and k, inside a group that ends at e. */
    method Split(i: nat, k: nat, e0: nat) returns (e: nat)
      requires i < k < e0 <= |rules| && rules[i].start <= rules[k].start && Overlaps(rules[i], rules[k])
      modifies this
      ensures rules == CutAt(old(rules), i, k)
      ensures e == e0 + |rules| - |old(rules)|
    {
      if rules[i].start == rules[k].start {
        e := SplitTogether(i, k, e0);
      } else {
        e := SplitLater(i, k, e0);
      }
    }

    /** The cases of `split` in which both rules start in the same year. */
    method SplitTogether(i: nat, k: nat, e0: nat) returns (e: nat)
      requires i < k < e0 <= |rules| && rules[i].start == rules[k].start && Overlaps(rules[i], rules[k])
      modifies this
      ensures rules == CutAt(old(rules), i, k)
      ensures e == e0 + |rules| - |old(rules)|
    {
      e := e0 + 1;
      InsertAfter(rules, i, k, Head(rules[i], rules[k]), Mid(rules[i], rules[k])[0], Mid(rules[i], rules[k])[1]);
      if rules[k].end < rules[i].end {
        InsertAt(k + 1, Piece(rules[i], rules[k].end + 1, rules[i].end));
        rules := rules[i := rules[i].(end := rules[k].end)];
      } else {
        InsertAt(k + 1, Piece(rules[k], rules[i].end + 1, rules[k].end));
        rules := rules[k := rules[k].(end := rules[i].end)];
      }
    }

    /** The cases of `split` in which the later rule starts in a later year. */
    method SplitLater(i: nat, k: nat, e0: nat) returns (e: nat)
      requires i < k < e0 <= |rules| && rules[i].start < rules[k].start && Overlaps(rules[i], rules[k])
      modifies this
      ensures rules == CutAt(old(rules), i, k)
      ensures e == e0 + |rules| - |old(rules)|
    {
      if rules[k].end < rules[i].end {
        e := SplitWithin(i, k, e0);
      } else if rules[k].end > rules[i].end {
        e := SplitBeyond(i, k, e0);
      } else {
        InsertOne(rules, i, k, Head(rules[i], rules[k]), Piece(rules[i], rules[k].start, rules[i].end));
        InsertAt(k, Piece(rules[i], rules[k].start, rules[i].end));
        e := e0 + 1;
        rules := rules[i := rules[i].(end := rules[k + 1].start - 1)];
      }
    }

    /** The later rule ends before the earlier one. */
    method SplitWithin(i: nat, k0: nat, e0: nat) returns (e: nat)
      requires i < k0 < e0 <= |rules| && rules[i].start < rules[k0].start && rules[k0].end < rules[i].end
      modifies this
      ensures rules == CutAt(old(rules), i, k0)
      ensures e == e0 + |rules| - |old(rules)|
    {
      var k := k0;
      InsertTwo(rules, i, k, Head(rules[i], rules[k]),
                Mid(rules[i], rules[k])[0], rules[k], Mid(rules[i], rules[k])[2]);
      InsertAt(k, Piece(rules[i], rules[k].start, rules[k].end));
      k := k + 1;
      InsertAt(k + 1, Piece(rules[i], rules[k].end + 1, rules[i].end));
      rules := rules[i := rules[i].(end := rules[k].start - 1)];
      e := e0 + 2;
    }

    /** The later rule starts inside the earlier one and ends after it. */
    method SplitBeyond(i: nat, k0: nat, e0: nat) returns (e: nat)
      requires i < k0 < e0 <= |rules|
      requires rules[i].start < rules[k0].start <= rules[i].end < rules[k0].end
      modifies this
      ensures rules == CutAt(old(rules), i, k0)
      ensures e == e0 + |rules| - |old(rules)|
    {
      var k := k0;
      InsertTwo(rules, i, k, Head(rules[i], rules[k]),
                Mid(rules[i], rules[k])[0], Mid(rules[i], rules[k])[1], Mid(rules[i], rules[k])[2]);
      InsertAt(k, Piece(rules[i], rules[k].start, rules[i].end));
      k := k + 1;
      InsertAt(k + 1, Piece(rules[k], rules[i].end + 1, rules[k].end));
      e := e0 + 2;
      rules := rules[k := rules[k].(end := rules[i].end)];
      rules := rules[i := rules[i].(end := rules[k].start - 1)];
    }

    /** The comparison of the rules at i and k, with the cut and the sort that follow when they overlap. */
    method CutPair(i: nat, k: nat, e0: nat, ghost original: seq<Rule>, ghost name: string) returns (e: nat)
      requires i < k < e0 <= |rules|
      requires Unsettled(original, name, rules[i..e0]) && Compared(rules[i..e0], k - i)
      modifies this
      ensures e0 <= e <= |rules| && rules[..i] == old(rules)[..i] && rules[e..] == old(rules)[e0..]
      ensures Stepped(original, name, old(rules)[i..e0], rules[i..e], k - i)
    {
      hide Unsettled, Compared, Stepped, CutAt, Overlaps, Sorted, NoLater, Mid, Head;
      ghost var u := rules[i..e0];
      StartsSorted(original, name, u, 0, k - i);
      if Overlaps(rules[i], rules[k]) {
        CutSlice(rules, i, k, e0);
        CutSize(u, k - i);
        e := Split(i, k, e0);
        assert rules[i..e] == CutAt(u, 0, k - i);
        var sorted := Sort(rules[i..e]);
        CutIsStep(original, name, u, k - i, sorted);
        ReplaceSlice(rules, i, e, sorted);
        rules := rules[..i] + sorted + rules[e..];
      } else {
        SkipIsStep(original, name, u, k - i);
        e := e0;
      }
    }

    /** The loops of `split_overlaps` over the group of rules from i0 to e0: cuts until no two rules overlap. */
    method CutOverlaps(i0: nat, e0: nat, ghost name: string) returns (e: nat)
      requires i0 <= e0 <= |rules|
      requires Sorted(rules[i0..e0]) && SameName(rules[i0..e0], name) && forall r | r in rules[i0..e0] :: RuleOk(r)
      modifies this
      ensures i0 <= e <= |rules| && rules[..i0] == old(rules)[..i0] && rules[e..] == old(rules)[e0..]
      ensures NormalForm(rules[i0..e]) && Sorted(rules[i0..e])
      ensures Cover(rules[i0..e]) == Cover(old(rules)[i0..e0])
      ensures forall r | r in rules[i0..e] :: RuleOk(r) && r.body.name == name
    {
      hide Looping, Compared, Unsettled, Stepped, NormalForm, Cover, RuleOk, Sorted, SameName;
      ghost var original := rules[i0..e0];
      ghost var total := |Cover(original)|;
      StartLoop(original, name, rules, i0, e0);
      e := e0;
      var i := i0;
      while i + 1 < e
        invariant i0 <= i <= e <= |rules|
        invariant Looping(original, name, rules, i0, i, e)
        invariant rules[..i0] == old(rules)[..i0] && rules[e..] == old(rules)[e0..]
        decreases i0 + total - i
      {
        var k := i + 1;
        LoopFacts(original, name, rules, i0, i, e);
        while k < e
          invariant i + 1 <= k <= e <= |rules| && i0 <= i
          invariant Looping(original, name, rules, i0, i, e) && Compared(rules[i..e], k - i)
          invariant rules[..i0] == old(rules)[..i0] && rules[e..] == old(rules)[e0..]
          decreases i0 + total - k
        {
          ghost var before, e1 := rules, e;
          LoopFacts(original, name, rules, i0, i, e);
          e := CutPair(i, k, e, original, name);
          LoopCut(original, name, before, rules, i0, i, e1, e, k - i);
          LoopFacts(original, name, rules, i0, i, e);
          k := k + 1;
        }
        LoopSettle(original, name, rules, i0, i, e);
        LoopFacts(original, name, rules, i0, i, e);
        i := i + 1;
      }
      LoopDone(original, name, rules, i0, i, e);
    }

    /** `split_overlaps` on one group: cuts, then fixes the day of each rule of a single year. */
    method SplitOverlaps(i0: nat, e0: nat, ghost name: string) returns (e: nat, ghost cut: seq<Rule>)
      requires i0 <= e0 <= |rules|
      requires Sorted(rules[i0..e0]) && SameName(rules[i0..e0], name) && forall r | r in rules[i0..e0] :: RuleOk(r)
      modifies this
      ensures i0 <= e <= |rules| && rules[..i0] == old(rules)[..i0] && rules[e..] == old(rules)[e0..]
      ensures NormalForm(cut) && Sorted(cut) && Cover(cut) == Cover(old(rules)[i0..e0])
      ensures forall r | r in cut :: RuleOk(r) && r.body.name == name
      ensures |cut| == e - i0 && forall p | 0 <= p < |cut| :: rules[i0 + p] == Fixed(cut[p])
    {
      hide NormalForm, Cover, Sorted, SameName, Canonical, SpecOk;
      e := CutOverlaps(i0, e0, name);
      cut := rules[i0..e];
      ghost var suffix := rules[e..];
      for j := i0 to e
        invariant |rules| == e + |suffix| && rules[e..] == suffix
        invariant rules[..i0] == old(rules)[..i0]
        invariant forall p | i0 <= p < j :: rules[p] == Fixed(cut[p - i0])
        invariant forall p | j <= p < e :: rules[p] == cut[p - i0]
      {
        assert rules[j] == cut[j - i0] && cut[j - i0] in cut;
        if rules[j].start == rules[j].end {
          rules := rules[j := rules[j].(body := rules[j].body.(at := Canonical(rules[j].body.at, rules[j].start)))];
        }
      }
    }

    /** The end of the run of rules with the name of the one at i (`std::upper_bound` by name). */
    method EndOfName(i: nat) returns (e: nat)
      requires i < |rules| && Sorted(rules[i..])
      ensures i < e <= |rules| && SameName(rules[i..e], rules[i].body.name)
      ensures forall r | r in rules[e..] :: StringLess(rules[i].body.name, r.body.name)
    {
      var name := rules[i].body.name;
      e := i + 1;
      while e < |rules| && !StringLess(name, rules[e].body.name)
        invariant i < e <= |rules| && SameName(rules[i..e], name)
      {
        StringLessTotal(name, rules[e].body.name);
        assert rules[i..][e - i] == rules[e] && rules[i..][0] == rules[i];
        assert !RuleLess(rules[e], rules[i]);
        assert rules[i..e + 1] == rules[i..e] + [rules[e]];
        e := e + 1;
      }
      forall r | r in rules[e..] ensures StringLess(name, r.body.name) {
        var q :| 0 <= q < |rules| - e && rules[e..][q] == r;
        assert rules[e + q] == r;
        if q > 0 {
          assert !RuleLess(rules[i..][e + q - i], rules[i..][e - i]);
          LaterName(name, rules[e].body.name, r.body.name);
        }
      }
    }

    /** `Rule::split_overlaps` on the whole table, one name after the other. */
    method SplitAllOverlaps() returns (ghost cut: seq<Rule>)
      requires Sorted(rules) && forall r | r in rules :: RuleOk(r)
      modifies this
      ensures TableNormal(cut) && Sorted(cut) && Cover(cut) == Cover(old(rules))
      ensures forall r | r in cut :: RuleOk(r)
      ensures |cut| == |rules| && forall p | 0 <= p < |cut| :: rules[p] == Fixed(cut[p])
    {
      hide NormalForm, Cover, Sorted, SameName, RuleOk, Fixed, TableNormal, Progress;
      var i := 0;
      cut := [];
      ghost var rest := rules;
      StartProgress(rest);
      while i < |rules|
        invariant |cut| == i <= |rules| && rules[i..] == rest
        invariant Progress(cut, rest) && Cover(cut) + Cover(rest) == Cover(old(rules))
        invariant forall r | r in cut :: RuleOk(r)
        invariant forall p | 0 <= p < i :: rules[p] == Fixed(cut[p])
        decreases |rest|
      {
        ghost var before, done := rules, cut;
        ProgressFacts(cut, rest);
        var e0 := EndOfName(i);
        ghost var n := e0 - i;
        ghost var name := rest[0].body.name;
        assert rules[i..e0] == rest[..n] && rules[e0..] == rest[n..];
        GroupSorted(rest, n);
        ghost var more;
        i, more := SplitOverlaps(i, e0, name);
        ProgressStep(done, rest, n, name, more);
        cut := done + more;
        rest := rest[n..];
        forall p | 0 <= p < i ensures rules[p] == Fixed(cut[p]) {
          if p < |done| {
            assert rules[p] == rules[..|done|][p] == before[..|done|][p] == before[p];
          } else {
            assert rules[|done| + (p - |done|)] == Fixed(more[p - |done|]);
          }
        }
      }
      ProgressDone(cut, rest);
    }
  }

  /** Names in order, and within each name the normal form. */
  ghost predicate TableNormal(rules: seq<Rule>) {
    forall p, q | 0 <= p < q < |rules| ::
      || StringLess(rules[p].body.name, rules[q].body.name)
      || (rules[p].body.name == rules[q].body.name && NormalForm([rules[p], rules[q]]))
  }

  /** The groups done so far, and the rules of later names still to come. */
  ghost predicate Progress(done: seq<Rule>, rest: seq<Rule>) {
    && TableNormal(done) && Sorted(done) && Sorted(rest) && (forall r | r in rest :: RuleOk(r))
    && (forall p, r | 0 <= p < |done| && r in rest :: StringLess(done[p].body.name, r.body.name))
  }

  lemma StartProgress(rest: seq<Rule>)
    requires Sorted(rest) && forall r | r in rest :: RuleOk(r)
    ensures Progress([], rest) && Cover([]) + Cover(rest) == Cover(rest)
  {}

  lemma ProgressFacts(done: seq<Rule>, rest: seq<Rule>)
    requires Progress(done, rest)
    ensures Sorted(rest) && forall r | r in rest :: RuleOk(r)
  {}

  lemma ProgressDone(done: seq<Rule>, rest: seq<Rule>)
    requires Progress(done, rest)
    ensures TableNormal(done) && Sorted(done) && (rest == [] ==> Cover(done) + Cover(rest) == Cover(done))
  {}

  lemma LaterName(a: string, b: string, c: string)
    requires StringLess(a, b) && !StringLess(c, b)
    ensures StringLess(a, c)
  {
    StringLessTotal(a, b);
    StringLessTotal(b, c);
    StringLessTotal(a, c);
    StringLessTrans(a, b, c);
  }

  lemma GroupSorted(rest: seq<Rule>, n: nat)
    requires Sorted(rest) && n <= |rest|
    ensures Sorted(rest[..n]) && Sorted(rest[n..])
  {}

  lemma NamesInOrder(done: seq<Rule>, more: seq<Rule>, name: string)
    requires Sorted(done) && Sorted(more)
    requires (forall x | x in done :: StringLess(x.body.name, name)) && forall r | r in more :: r.body.name == name
    ensures Sorted(done + more)
  {
    var all := done + more;
    forall p, q | 0 <= p < q < |all| ensures !RuleLess(all[q], all[p]) {
      if p < |done| <= q {
        assert all[p] in done && all[q] == more[q - |done|] && all[q] in more;
        StringLessTotal(all[p].body.name, name);
        StringLessIrreflexive(name);
      }
    }
  }

  lemma PairOfNormal(rules: seq<Rule>, p: nat, q: nat)
    requires NormalForm(rules) && p < q < |rules|
    ensures NormalForm([rules[p], rules[q]])
  {}

  lemma ProgressStep(done: seq<Rule>, rest: seq<Rule>, n: nat, name: string, more: seq<Rule>)
    requires Progress(done, rest) && 1 <= n <= |rest| && rest[0].body.name == name
    requires forall r | r in rest[n..] :: StringLess(name, r.body.name)
    requires NormalForm(more) && Sorted(more) && Cover(more) == Cover(rest[..n])
    requires forall r | r in more :: r.body.name == name
    ensures Progress(done + more, rest[n..])
    ensures Cover(done + more) + Cover(rest[n..]) == Cover(done) + Cover(rest)
  {
    hide Cover, NormalForm;
    assert rest == rest[..n] + rest[n..];
    CoverConcat(done, more);
    CoverConcat(rest[..n], rest[n..]);
    GroupSorted(rest, n);
    forall x | x in done ensures StringLess(x.body.name, name) {
      assert rest[0] in rest;
    }
    NamesInOrder(done, more, name);
    var all := done + more;
    forall p, q | 0 <= p < q < |all|
      ensures || StringLess(all[p].body.name, all[q].body.name)
              || (all[p].body.name == all[q].body.name && NormalForm([all[p], all[q]]))
    {
      if p >= |done| {
        PairOfNormal(more, p - |done|, q - |done|);
        assert more[p - |done|] in more && more[q - |done|] in more;
      } else if q >= |done| {
        assert more[q - |done|] in more && rest[0] in rest;
      }
    }
    forall p, r | 0 <= p < |all| && r in rest[n..] ensures StringLess(all[p].body.name, r.body.name) {
      if p >= |done| { assert all[p] in more; } else { assert r in rest; }
    }
  }

  /** Fixing a rule keeps its years, and its day in each of them unless it is a single-year one whose day leaves it. */
  lemma FixedKeepsDays(r: Rule, y: int)
    requires RuleOk(r) && r.start <= y <= r.end
    ensures Fixed(r) == r.(body := r.body.(at := Fixed(r).body.at))
    ensures if r.start < r.end then Fixed(r) == r else Fixed(r).body.at.MonthDay?
    ensures ToSysDays(Fixed(r).body.at, y) == ToSysDays(r.body.at, y)
            <==> (r.start < r.end || !LeavesYear(r.body.at, y))
  {
    hide ToSysDays, Canonical, LeavesYear;
    CanonicalKeepsDay(r.body.at, y);
    CanonicalNamesTheDay(r.body.at, r.start);
  }
}
