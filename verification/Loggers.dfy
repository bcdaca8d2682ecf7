/** Dotted logger names, and how a configured logger inherits what it lacks from its ancestors and the default. */
module Loggers {
  import opened Wrappers
  import opened Ascii

  // ---- Names ----

  /** `std::tolower` in the C locale */
  function Lower(c: char): char {
    if 'A' <= c <= 'Z' then ((c as int - 'A' as int + 'a' as int) as char) else c
  }

  /** Comparing what `tolower` gives is comparing without regard to case. */
  lemma LowerIgnoresCase()
    ensures forall c, d :: Lower(c) == Lower(d) <==> SameLetter(c, d)
  {}

  /** `string_utils::iequals` */
  predicate IEquals(s: string, t: string): (r: bool)
    ensures r <==> SameLetters(s, t)
  {
    LowerIgnoresCase();
    |s| == |t| && forall i | 0 <= i < |s| :: Lower(s[i]) == Lower(t[i])
  }

  /** `find_last_of('.')`, with `npos` as None */
  function LastDot(s: string): (r: Option<nat>)
    ensures r.Some? ==> r.value < |s| && s[r.value] == '.' && '.' !in s[r.value + 1..]
    ensures r.None? ==> '.' !in s
  {
    if s == "" then None
    else if s[|s| - 1] == '.' then Some(|s| - 1)
    else LastDot(s[..|s| - 1])
  }

  /** `s.rfind('.', pos)`: the last dot at or before pos. */
  function RFind(s: string, pos: Option<nat>): (r: Option<nat>)
    ensures r.Some? ==> r.value < |s|
  {
    if pos.Some? && pos.value + 1 < |s| then LastDot(s[..pos.value + 1]) else LastDot(s)
  }

  /** The longest proper dotted prefix, unless it is empty. */
  function ParentName(name: string): (r: Option<string>)
    ensures r.Some? ==> |r.value| < |name|
  {
    var dot := LastDot(name);
    if dot.Some? && dot.value > 0 then Some(name[..dot.value]) else None
  }

  /** The name and its non-empty dotted prefixes, longest first. */
  function Fragments(name: string): seq<string>
    decreases |name|
  {
    if name == "" then []
    else if ParentName(name).None? then [name]
    else [name] + Fragments(ParentName(name).value)
  }

  predicate DottedPrefix(fragment: string, name: string) {
    fragment != "" && (fragment == name || fragment + "." <= name)
  }

  lemma {:induction false} DotIsNotPastLast(name: string, n: nat)
    requires n < |name| && name[n] == '.'
    ensures LastDot(name).Some? && n <= LastDot(name).value
  {
    if name[|name| - 1] != '.' {
      DotIsNotPastLast(name[..|name| - 1], n);
    }
  }

  lemma PrefixOfParent(fragment: string, name: string)
    requires fragment != name && fragment != ""
    ensures DottedPrefix(fragment, name) <==>
            ParentName(name).Some? && DottedPrefix(fragment, ParentName(name).value)
  {
    var n := |fragment|;
    var dot := LastDot(name);
    if fragment + "." <= name {
      assert name[n] == '.' && name[..n] == fragment;
      DotIsNotPastLast(name, n);
    }
    if ParentName(name).Some? && DottedPrefix(fragment, ParentName(name).value) {
      assert name[..dot.value] + "." == name[..dot.value + 1];
      assert fragment + "." <= name[..dot.value + 1];
    }
  }

  /** Exactly the non-empty dotted prefixes, each once, strictly shrinking. */
  lemma {:induction false} FragmentsAreDottedPrefixes(name: string)
    ensures forall f :: f in Fragments(name) <==> DottedPrefix(f, name)
    ensures forall i, j | 0 <= i < j < |Fragments(name)| :: |Fragments(name)[j]| < |Fragments(name)[i]|
    decreases |name|
  {
    hide LastDot;
    var parent := ParentName(name);
    if name == "" {
    } else {
      if parent.Some? {
        FragmentsAreDottedPrefixes(parent.value);
        assert forall f :: f in Fragments(parent.value) ==> |f| <= |parent.value|;
      }
      forall f ensures f in Fragments(name) <==> DottedPrefix(f, name) {
        if f != name && f != "" {
          PrefixOfParent(f, name);
        }
      }
    }
  }

  // ---- Reverse iteration ----

  /** `ReverseStrategy::next`; the position wraps to `npos` when the dot is the first character. */
  function Next(key: string, pos: Option<nat>): (string, Option<nat>) {
    var separator := RFind(key, pos);
    if separator.None? then ("", None)
    else (key[..separator.value], if separator.value == 0 then None else Some(separator.value - 1))
  }

  class ReverseIterator {
    const key: string
    var fragment: string
    var pos: Option<nat>

    predicate Valid()
      reads this
    {
      && fragment <= key
      && (pos == if fragment == "" || fragment == key then None else Some(|fragment| - 1))
    }

    /** What is still to come, starting with the current fragment. */
    ghost function Remaining(): seq<string>
      reads this
    {
      Fragments(fragment)
    }

    /** `rbegin` */
    constructor (key: string)
      ensures Valid() && this.key == key && fragment == key
      ensures Remaining() == Fragments(key)
    {
      this.key, fragment, pos := key, key, None;
    }

    /** Comparison with `rend` */
    method AtEnd() returns (end: bool)
      requires Valid()
      ensures end == (Remaining() == []) == (fragment == "")
    {
      end := fragment == "" && pos == None;
    }

    method Increment()
      requires Valid() && fragment != ""
      modifies this
      ensures Valid() && Remaining() == old(Remaining())[1..]
      ensures fragment == var parent := ParentName(old(fragment)); if parent.Some? then parent.value else ""
    {
      hide LastDot;
      assert key == fragment ==> key[..|key|] == fragment;
      assert fragment != key ==> key[..|fragment| - 1 + 1] == fragment;
      assert RFind(key, pos) == LastDot(fragment);
      var next := Next(key, pos);
      ghost var parent := ParentName(fragment);
      assert Remaining() == [fragment] + Fragments(if parent.Some? then parent.value else "");
      assert next.0 == if parent.Some? then parent.value else "";
      fragment, pos := next.0, next.1;
    }
  }

  // ---- Loggers ----

  datatype Logger = Logger(name: string, level: Option<nat>, sinks: seq<string>, isDefault: bool, region: nat)
  {
    predicate HasMissing() {
      level.None? || sinks == []
    }
  }

  /** `std::find_if` by name */
  function FirstNamed(loggers: seq<Logger>, name: string): (r: Option<nat>)
    ensures r.Some? ==> r.value < |loggers| && IEquals(loggers[r.value].name, name)
    ensures r.Some? ==> forall k | 0 <= k < r.value :: !IEquals(loggers[k].name, name)
    ensures r.None? ==> forall k | 0 <= k < |loggers| :: !IEquals(loggers[k].name, name)
  {
    FirstNamedFrom(loggers, name, 0)
  }

  function FirstNamedFrom(loggers: seq<Logger>, name: string, from: nat): (r: Option<nat>)
    requires from <= |loggers|
    ensures r.Some? ==> from <= r.value < |loggers| && IEquals(loggers[r.value].name, name)
    ensures r.Some? ==> forall k | from <= k < r.value :: !IEquals(loggers[k].name, name)
    ensures r.None? ==> forall k | from <= k < |loggers| :: !IEquals(loggers[k].name, name)
    decreases |loggers| - from
  {
    if from == |loggers| then None
    else if IEquals(loggers[from].name, name) then Some(from)
    else FirstNamedFrom(loggers, name, from + 1)
  }

  /** `std::find_if` by `isDefault` */
  function FirstDefault(loggers: seq<Logger>, from: nat): (r: Option<nat>)
    requires from <= |loggers|
    ensures r.Some? ==> from <= r.value < |loggers| && loggers[r.value].isDefault
    ensures r.Some? ==> forall k | from <= k < r.value :: !loggers[k].isDefault
    ensures r.None? ==> forall k | from <= k < |loggers| :: !loggers[k].isDefault
    decreases |loggers| - from
  {
    if from == |loggers| then None
    else if loggers[from].isDefault then Some(from)
    else FirstDefault(loggers, from + 1)
  }

  /** The logger of the nearest dotted ancestor that is configured, else the default. */
  function ParentOf(loggers: seq<Logger>, name: string): (r: Option<nat>)
    ensures r.Some? ==> r.value < |loggers|
    decreases |name|
  {
    var parent := ParentName(name);
    if parent.None? then FirstDefault(loggers, 0)
    else
      var found := FirstNamed(loggers, parent.value);
      if found.Some? then found else ParentOf(loggers, parent.value)
  }

  /** The logger configured under a name, if any. */
  function Named(loggers: seq<Logger>, name: string): seq<Logger> {
    var found := FirstNamed(loggers, name);
    if found.Some? then [loggers[found.value]] else []
  }

  function DefaultOnly(loggers: seq<Logger>): seq<Logger> {
    var found := FirstDefault(loggers, 0);
    if found.Some? then [loggers[found.value]] else []
  }

  /** The configured ancestors of a name, nearest first, then the default. */
  function Line(loggers: seq<Logger>, name: string): seq<Logger>
    decreases |name|
  {
    var parent := ParentName(name);
    if parent.None? then DefaultOnly(loggers)
    else Named(loggers, parent.value) + Line(loggers, parent.value)
  }

  function Configured(loggers: seq<Logger>, names: seq<string>): seq<Logger> {
    if names == [] then []
    else Named(loggers, names[0]) + Configured(loggers, names[1..])
  }

  lemma LineUnfolds(loggers: seq<Logger>, name: string)
    requires ParentName(name).Some?
    ensures Line(loggers, name) ==
            Named(loggers, ParentName(name).value) + Line(loggers, ParentName(name).value)
  {
    hide LastDot, Lower, IEquals, FirstNamed, FirstDefault, ParentName;
  }

  lemma FragmentsUnfold(name: string)
    requires ParentName(name).Some?
    ensures var parent := ParentName(name).value;
            && parent != "" && Fragments(name)[1..] == Fragments(parent)
            && Fragments(parent) != [] && Fragments(parent)[0] == parent
  {
    hide LastDot;
  }

  lemma TopFollowsFragments(loggers: seq<Logger>, name: string)
    requires name != "" && ParentName(name).None?
    ensures Line(loggers, name) == Configured(loggers, Fragments(name)[1..]) + DefaultOnly(loggers)
  {
    hide LastDot, FirstDefault, FirstNamed, ParentName;
  }

  lemma ConfiguredUnfolds(loggers: seq<Logger>, names: seq<string>)
    requires names != []
    ensures Configured(loggers, names) == Named(loggers, names[0]) + Configured(loggers, names[1..])
  {}

  /** The line is what is configured for the proper dotted prefixes, longest first, followed by the default. */
  lemma {:induction false} LineFollowsFragments(loggers: seq<Logger>, name: string)
    requires name != ""
    ensures Line(loggers, name) == Configured(loggers, Fragments(name)[1..]) + DefaultOnly(loggers)
    decreases |name|
  {
    hide LastDot, ParentName, Named, Line, Configured, Fragments, DefaultOnly;
    if ParentName(name).None? {
      TopFollowsFragments(loggers, name);
    } else {
      FragmentsUnfold(name);
      LineUnfolds(loggers, name);
      LineFollowsFragments(loggers, ParentName(name).value);
      ConfiguredUnfolds(loggers, Fragments(ParentName(name).value));
    }
  }

  /** `logger` with what it lacks taken from `parent`. */
  function Merge(logger: Logger, parent: Logger): Logger {
    logger.(sinks := if logger.sinks == [] then parent.sinks else logger.sinks,
            level := if logger.level.None? then parent.level else logger.level)
  }

  function Fill(logger: Logger, line: seq<Logger>): Logger
    decreases |line|
  {
    if line == [] then logger else Fill(Merge(logger, line[0]), line[1..])
  }

  /** The line of the default logger itself, which may inherit too. */
  function DefaultLine(loggers: seq<Logger>): seq<Logger> {
    var found := FirstDefault(loggers, 0);
    if found.Some? then Line(loggers, loggers[found.value].name) else []
  }

  /** A logger resolved against the list as it was configured: by its own line, then by that of the default. */
  function Resolved(loggers: seq<Logger>, logger: Logger): Logger {
    Fill(logger, Line(loggers, logger.name) + DefaultLine(loggers))
  }

  // ---- What resolving means ----

  /** The first logger of the line that has a level. */
  function FirstLevel(line: seq<Logger>): (r: Option<nat>)
    ensures r.Some? ==> exists k | 0 <= k < |line| ::
              line[k].level == r && forall j | 0 <= j < k :: line[j].level.None?
    ensures r.None? ==> forall k | 0 <= k < |line| :: line[k].level.None?
  {
    if line == [] then None
    else if line[0].level.Some? then line[0].level
    else
      var r := FirstLevel(line[1..]);
      assert forall k | 1 <= k < |line| :: line[k] == line[1..][k - 1];
      r
  }

  function FirstSinks(line: seq<Logger>): (r: seq<string>)
    ensures r != [] ==> exists k | 0 <= k < |line| ::
              line[k].sinks == r && forall j | 0 <= j < k :: line[j].sinks == []
    ensures r == [] ==> forall k | 0 <= k < |line| :: line[k].sinks == []
  {
    if line == [] then []
    else if line[0].sinks != [] then line[0].sinks
    else
      var r := FirstSinks(line[1..]);
      assert forall k | 1 <= k < |line| :: line[k] == line[1..][k - 1];
      r
  }

  /** Each missing part comes from the nearest in line that has it; nothing else changes. */
  lemma {:induction false} FillTakesTheNearest(logger: Logger, line: seq<Logger>)
    ensures Fill(logger, line) ==
            logger.(level := if logger.level.Some? then logger.level else FirstLevel(line),
                    sinks := if logger.sinks != [] then logger.sinks else FirstSinks(line))
    decreases |line|
  {
    if line == [] {
    } else {
      FillTakesTheNearest(Merge(logger, line[0]), line[1..]);
    }
  }

  lemma {:induction false} FirstOfBoth(line: seq<Logger>, more: seq<Logger>)
    ensures FirstLevel(line + more) == if FirstLevel(line).Some? then FirstLevel(line) else FirstLevel(more)
    ensures FirstSinks(line + more) == if FirstSinks(line) != [] then FirstSinks(line) else FirstSinks(more)
  {
    if line == [] {
      assert line + more == more;
    } else {
      assert (line + more)[1..] == line[1..] + more;
      FirstOfBoth(line[1..], more);
    }
  }

  lemma FillBoth(logger: Logger, line: seq<Logger>, more: seq<Logger>)
    ensures Fill(logger, line + more) == Fill(Fill(logger, line), more)
  {
    FillTakesTheNearest(logger, line + more);
    FillTakesTheNearest(logger, line);
    FillTakesTheNearest(Fill(logger, line), more);
    FirstOfBoth(line, more);
  }

  lemma FillTwice(logger: Logger, line: seq<Logger>)
    ensures Fill(Fill(logger, line), line) == Fill(logger, line)
    ensures !logger.HasMissing() ==> Fill(logger, line) == logger
  {
    FillTakesTheNearest(logger, line);
    FillTakesTheNearest(Fill(logger, line), line);
  }

  /**
   * Taking from a parent that has itself been filled already makes no difference, even when it was filled from more
   * than the line ahead, as long as that adds nothing in the end.
   */
  lemma FillAbsorbs(logger: Logger, parent: Logger, line: seq<Logger>, more: seq<Logger>)
    requires var filled := Fill(Merge(logger, parent), line); Fill(filled, more) == filled
    ensures Fill(Merge(logger, Fill(parent, line + more)), line) == Fill(Merge(logger, parent), line)
  {
    var filled := Fill(Merge(logger, parent), line);
    FirstOfBoth(line, more);
    FillTakesTheNearest(parent, line + more);
    FillTakesTheNearest(filled, more);
    FillTakesTheNearest(Merge(logger, Fill(parent, line + more)), line);
    FillTakesTheNearest(Merge(logger, parent), line);
  }

  // ---- Case does not matter ----

  lemma {:induction false} SameDots(s: string, t: string)
    requires IEquals(s, t)
    ensures LastDot(s) == LastDot(t)
  {
    if s == "" {
    } else {
      var n := |s| - 1;
      assert Lower(s[n]) == Lower(t[n]);
      SameDots(s[..n], t[..n]);
    }
  }

  lemma SameFirstNamed(loggers: seq<Logger>, s: string, t: string)
    requires IEquals(s, t)
    ensures FirstNamed(loggers, s) == FirstNamed(loggers, t)
  {
    hide FirstNamed;
    forall k | 0 <= k < |loggers| ensures IEquals(loggers[k].name, s) == IEquals(loggers[k].name, t) {
    }
  }

  lemma {:induction false} SameLine(loggers: seq<Logger>, s: string, t: string)
    requires IEquals(s, t)
    ensures Line(loggers, s) == Line(loggers, t)
    decreases |s|
  {
    hide LastDot, Lower, FirstNamed;
    SameDots(s, t);
    if ParentName(s).None? {
    } else {
      var p, q := ParentName(s).value, ParentName(t).value;
      assert IEquals(p, q);
      SameFirstNamed(loggers, p, q);
      SameLine(loggers, p, q);
    }
  }

  /** An instance: "app.net" inherits from "App", not from the default. */
  lemma AncestorInAnotherCase()
    ensures var all := [Logger("App", Some(3), ["file"], false, 1), Logger("app.net", None, [], false, 2),
                        Logger("root", Some(1), ["console"], true, 3)];
            Resolved(all, all[1]) == all[1].(level := Some(3), sinks := ["file"])
  {
    var all := [Logger("App", Some(3), ["file"], false, 1), Logger("app.net", None, [], false, 2),
                Logger("root", Some(1), ["console"], true, 3)];
    NameOfParent();
    assert SameLetters("App", "app");
    assert FirstNamed(all, "app") == Some(0);
    var line := Line(all, "app.net");
    assert line[0] == all[0];
    FillTakesTheNearest(all[1], line + DefaultLine(all));
    assert (line + DefaultLine(all))[0] == all[0];
  }

  lemma NameOfParent()
    ensures ParentName("app.net") == Some("app")
  {
    var name := "app.net";
    assert name[3] == '.' && name[..3] == "app";
    DotIsNotPastLast(name, 3);
    assert forall i | 4 <= i < |name| :: name[i] != '.';
  }

  // ---- The list while it is being resolved ----

  /** The two lists differ in levels and sinks only. */
  ghost predicate SameOutline(loggers: seq<Logger>, others: seq<Logger>) {
    && |loggers| == |others|
    && forall k | 0 <= k < |loggers| ::
         others[k].name == loggers[k].name && others[k].isDefault == loggers[k].isDefault
  }

  lemma SameFirstDefault(loggers: seq<Logger>, others: seq<Logger>)
    requires SameOutline(loggers, others)
    ensures FirstDefault(loggers, 0) == FirstDefault(others, 0)
  {
    hide FirstDefault;
  }

  lemma {:induction false} SameParent(loggers: seq<Logger>, others: seq<Logger>, name: string)
    requires SameOutline(loggers, others)
    ensures ParentOf(loggers, name) == ParentOf(others, name)
    decreases |name|
  {
    hide FirstDefault, FirstNamed, LastDot, IEquals;
    SameFirstDefault(loggers, others);
    if ParentName(name).None? {
    } else {
      assert FirstNamed(loggers, ParentName(name).value) == FirstNamed(others, ParentName(name).value);
      SameParent(loggers, others, ParentName(name).value);
    }
  }

  /** There is a default, yet neither logger i's own line nor that of the default supplies all that it lacks. */
  predicate Unresolvable(loggers: seq<Logger>, i: nat) {
    i < |loggers| && FirstDefault(loggers, 0).Some? && Resolved(loggers, loggers[i]).HasMissing()
  }

  /** The parent heads the line, and the rest of the line is its own, unless it is the default. */
  lemma {:induction false} ParentHeadsLine(loggers: seq<Logger>, name: string)
    ensures ParentOf(loggers, name).None? <==> Line(loggers, name) == []
    ensures ParentOf(loggers, name).Some? ==>
              var j := ParentOf(loggers, name).value;
              || (|loggers[j].name| < |name| && Line(loggers, name) == [loggers[j]] + Line(loggers, loggers[j].name))
              || (Some(j) == FirstDefault(loggers, 0) && Line(loggers, name) == [loggers[j]])
    decreases |name|
  {
    hide LastDot, Lower, FirstDefault, FirstNamed;
    var parent := ParentName(name);
    if parent.None? {
    } else {
      var found := FirstNamed(loggers, parent.value);
      if found.Some? {
        SameLine(loggers, loggers[found.value].name, parent.value);
      } else {
        ParentHeadsLine(loggers, parent.value);
        assert Line(loggers, name) == [] + Line(loggers, parent.value);
      }
    }
  }

  /** With a complete default, every logger can be resolved, and by its own line alone. */
  lemma DefaultCompletesAll(loggers: seq<Logger>, logger: Logger)
    requires FirstDefault(loggers, 0).Some? && !loggers[FirstDefault(loggers, 0).value].HasMissing()
    ensures !Resolved(loggers, logger).HasMissing()
    ensures Resolved(loggers, logger) == Fill(logger, Line(loggers, logger.name))
  {
    LineEndsWithDefault(loggers, logger.name);
    var line := Line(loggers, logger.name);
    FillTakesTheNearest(logger, line);
    assert !line[|line| - 1].HasMissing();
    FillBoth(logger, line, DefaultLine(loggers));
    FillTwice(Fill(logger, line), DefaultLine(loggers));
  }

  lemma {:induction false} LineEndsWithDefault(loggers: seq<Logger>, name: string)
    requires FirstDefault(loggers, 0).Some?
    ensures |Line(loggers, name)| > 0
    ensures Line(loggers, name)[|Line(loggers, name)| - 1] == loggers[FirstDefault(loggers, 0).value]
    decreases |name|
  {
    hide LastDot, Lower, IEquals, FirstNamed, FirstDefault, ParentName;
    if ParentName(name).None? {
    } else {
      LineEndsWithDefault(loggers, ParentName(name).value);
      LineUnfolds(loggers, name);
    }
  }

  // ---- The configurator ----

  method FindParent(source: Logger, loggers: array<Logger>) returns (parent: Option<Logger>)
    ensures var j := ParentOf(loggers[..], source.name);
            parent == if j.Some? then Some(loggers[j.value]) else None
  {
    hide LastDot, FirstDefault, FirstNamed, Lower, Fragments;
    var all := loggers[..];
    var it := new ReverseIterator(source.name);
    var end := it.AtEnd();
    while !end
      invariant it.Valid() && end == (it.fragment == "") && |it.fragment| <= |source.name|
      invariant it.fragment == source.name || |it.fragment| < |source.name|
      invariant ParentOf(all, source.name) ==
                if it.fragment == source.name then ParentOf(all, source.name)
                else if it.fragment == "" then FirstDefault(all, 0)
                else if FirstNamed(all, it.fragment).Some? then FirstNamed(all, it.fragment)
                else ParentOf(all, it.fragment)
      decreases |it.fragment|
    {
      if !IEquals(it.fragment, source.name) {
        var found := FirstNamed(all, it.fragment);
        if found.Some? {
          return Some(all[found.value]);
        }
      }
      it.Increment();
      end := it.AtEnd();
    }
    var found := FirstDefault(all, 0);
    return if found.Some? then Some(all[found.value]) else None;
  }

  ghost predicate Filled(all: seq<Logger>, now: seq<Logger>, done: nat) {
    && |now| == |all| && done <= |all|
    && (forall k | 0 <= k < done :: now[k] == Resolved(all, all[k]) && !now[k].HasMissing())
    && (forall k | done <= k < |all| :: now[k] == all[k])
  }

  /** `prepareLoggers`: in place and in order, yet each logger ends as if resolved against the list as configured. */
  method PrepareLoggers(loggers: array<Logger>) returns (error: Option<nat>)
    requires forall i: nat :: !Unresolvable(loggers[..], i)
    modifies loggers
    ensures FirstDefault(old(loggers[..]), 0).Some? ==> error.None?
    ensures error.None? ==> Filled(old(loggers[..]), loggers[..], loggers.Length)
    ensures error.Some? ==> exists i | 0 <= i < loggers.Length ::
              && error == Some(old(loggers[i]).region)
              && Filled(old(loggers[..]), loggers[..][i := old(loggers[i])], i)
              && loggers[i] == Resolved(old(loggers[..]), old(loggers[i])) && loggers[i].HasMissing()
  {
    hide Resolved, ParentOf, Line, Fill, FirstDefault;
    ghost var all := loggers[..];
    for i := 0 to loggers.Length
      invariant Filled(all, loggers[..], i)
    {
      ghost var start := loggers[..];
      var current := loggers[i];
      ghost var jumped := false;
      StartsUnfilled(all, i);
      while loggers[i].HasMissing()
        invariant loggers[..] == start[i := loggers[i]]
        invariant Pending(all, i, loggers[i], current, jumped)
        decreases if !loggers[i].HasMissing() then 0 else if jumped then 1 else 2, |current.name|
      {
        ghost var now := loggers[..];
        var parent := FindParent(current, loggers);
        jumped := ParentStep(all, now, i, current, jumped);
        if parent.None? {
          return Some(loggers[i].region);
        }
        if loggers[i].sinks == [] {
          loggers[i] := loggers[i].(sinks := parent.value.sinks);
        }
        if loggers[i].level.None? && parent.value.level.Some? {
          loggers[i] := loggers[i].(level := parent.value.level);
        }
        assert loggers[i] == Merge(now[i], parent.value);
        current := parent.value;
      }
      CompleteIsResolved(all, i, loggers[i], current, jumped);
    }
    return None;
  }

  /** What is still ahead of `current`: its line, followed by the default's until the search has jumped there. */
  function Ahead(all: seq<Logger>, current: Logger, jumped: bool): seq<Logger> {
    Line(all, current.name) + if jumped then [] else DefaultLine(all)
  }

  /** While logger i is being filled: what is still ahead of `current` completes it as intended. */
  ghost predicate Pending(all: seq<Logger>, i: nat, logger: Logger, current: Logger, jumped: bool) {
    && i < |all|
    && Fill(logger, Ahead(all, current, jumped)) == Resolved(all, all[i])
    && logger == all[i].(level := logger.level, sinks := logger.sinks)
    && Merge(logger, all[i]) == logger
  }

  lemma StartsUnfilled(all: seq<Logger>, i: nat)
    requires i < |all|
    ensures Pending(all, i, all[i], all[i], false)
  {
  }

  lemma CompleteIsResolved(all: seq<Logger>, i: nat, logger: Logger, current: Logger, jumped: bool)
    requires Pending(all, i, logger, current, jumped)
    ensures !logger.HasMissing() ==> logger == Resolved(all, all[i])
    ensures Resolved(all, all[i]).HasMissing() ==> logger.HasMissing()
  {
    FillTwice(logger, Ahead(all, current, jumped));
  }

  /** The round gets closer to its end: to the default's line, along a line, or to a complete logger. */
  ghost predicate Closer(logger: Logger, current: Logger, jumped: bool, parent: Logger, jumpedNow: bool) {
    logger.HasMissing() ==> (jumped ==> jumpedNow) && (jumped == jumpedNow ==> |parent.name| < |current.name|)
  }

  /** One round of the inner loop, whether the parent has been filled already or not. */
  lemma ParentStep(all: seq<Logger>, now: seq<Logger>, i: nat, current: Logger, jumped: bool)
    returns (jumpedNow: bool)
    requires i < |all| == |now| && Filled(all, now[i := all[i]], i)
    requires Pending(all, i, now[i], current, jumped) && now[i].HasMissing()
    ensures ParentOf(now, current.name).None? ==> FirstDefault(all, 0).None? && now[i] == Resolved(all, all[i])
    ensures ParentOf(now, current.name).Some? ==>
              var parent := now[ParentOf(now, current.name).value];
              && Pending(all, i, Merge(now[i], parent), parent, jumpedNow)
              && (Unresolvable(all, i) || Closer(Merge(now[i], parent), current, jumped, parent, jumpedNow))
  {
    hide ParentOf, Line, FirstDefault, FirstNamed, Filled;
    OutlineKept(all, now, i);
    SameParent(all, now, current.name);
    ParentHeadsLine(all, current.name);
    var parent := ParentOf(all, current.name);
    jumpedNow := jumped;
    if parent.Some? {
      jumpedNow := PendingStep(all, now, i, current, jumped, parent.value);
    } else {
      DefaultIsLast(all, current.name);
    }
  }

  lemma DefaultIsLast(all: seq<Logger>, name: string)
    ensures Line(all, name) == [] ==> FirstDefault(all, 0).None? && DefaultLine(all) == []
  {
    if FirstDefault(all, 0).Some? {
      LineEndsWithDefault(all, name);
    }
  }

  lemma OutlineKept(all: seq<Logger>, now: seq<Logger>, i: nat)
    requires i < |all| == |now| && Filled(all, now[i := all[i]], i)
    requires now[i].name == all[i].name && now[i].isDefault == all[i].isDefault
    ensures SameOutline(all, now)
  {
    forall k | 0 <= k < |all| ensures now[k].name == all[k].name && now[k].isDefault == all[k].isDefault {
      FillTakesTheNearest(all[k], Line(all, all[k].name) + DefaultLine(all));
      assert k != i ==> now[k] == now[i := all[i]][k];
    }
  }

  /** What a parent holds when it is looked up. */
  lemma ParentNow(all: seq<Logger>, now: seq<Logger>, i: nat, j: nat)
    requires i < |all| == |now| && Filled(all, now[i := all[i]], i) && j < |all|
    ensures j != i ==> now[j] == all[j] || now[j] == Resolved(all, all[j])
    ensures j != i ==> now[j].name == all[j].name
  {
    FillTakesTheNearest(all[j], Line(all, all[j].name) + DefaultLine(all));
    assert j != i ==> now[j] == now[i := all[i]][j];
  }

  /** The rest of the way does not depend on whether the parent is taken as configured or as it is now. */
  lemma MergeNow(all: seq<Logger>, now: seq<Logger>, i: nat, j: nat, ahead: seq<Logger>, more: seq<Logger>)
    requires i < |all| == |now| && Filled(all, now[i := all[i]], i) && j < |all|
    requires Merge(now[i], all[i]) == now[i] && now[i].name == all[i].name
    requires ahead + more == Line(all, all[j].name) + DefaultLine(all)
    requires var filled := Fill(Merge(now[i], all[j]), ahead); Fill(filled, more) == filled
    ensures Fill(Merge(now[i], now[j]), ahead) == Fill(Merge(now[i], all[j]), ahead)
    ensures now[j].name == all[j].name
  {
    hide Fill, Line, DefaultLine, Filled;
    ParentNow(all, now, i, j);
    FillAbsorbs(now[i], all[j], ahead, more);
  }

  /** Filling a resolved logger from the default's line once more adds nothing. */
  lemma ResolvedIsFull(all: seq<Logger>, logger: Logger)
    ensures Fill(Resolved(all, logger), DefaultLine(all)) == Resolved(all, logger)
  {
    hide Fill, Line, DefaultLine;
    var line := Line(all, logger.name);
    FillBoth(logger, line, DefaultLine(all));
    FillTwice(Fill(logger, line), DefaultLine(all));
  }

  lemma FillHead(logger: Logger, parent: Logger, line: seq<Logger>)
    ensures Fill(logger, [parent] + line) == Fill(Merge(logger, parent), line)
    ensures Fill(logger, []) == logger
  {}

  lemma PendingStep(all: seq<Logger>, now: seq<Logger>, i: nat, current: Logger, jumped: bool, j: nat)
    returns (jumpedNow: bool)
    requires i < |all| == |now| && Filled(all, now[i := all[i]], i)
    requires Pending(all, i, now[i], current, jumped)
    requires ParentOf(all, current.name) == Some(j) && j < |all|
    ensures Pending(all, i, Merge(now[i], now[j]), now[j], jumpedNow)
    ensures Unresolvable(all, i) || Closer(Merge(now[i], now[j]), current, jumped, now[j], jumpedNow)
  {
    hide ParentOf, Line, FirstDefault, FirstNamed, Fill, Filled, Resolved, DefaultLine;
    ParentHeadsLine(all, current.name);
    var line, last := Line(all, all[j].name), DefaultLine(all);
    ResolvedIsFull(all, all[i]);
    if |all[j].name| < |current.name| && Line(all, current.name) == [all[j]] + line {
      jumpedNow := jumped;
      var ahead := line + if jumped then [] else last;
      assert Ahead(all, current, jumped) == [all[j]] + ahead;
      FillHead(now[i], all[j], ahead);
      FillNothing(Fill(Merge(now[i], all[j]), ahead));
      MergeNow(all, now, i, j, ahead, if jumped then last else []);
    } else {
      jumpedNow := true;
      JumpStep(all, now, i, current, jumped, j);
    }
  }

  lemma FillNothing(logger: Logger)
    ensures Fill(logger, []) == logger
  {}

  /** The search falls back on the default logger. */
  lemma JumpStep(all: seq<Logger>, now: seq<Logger>, i: nat, current: Logger, jumped: bool, j: nat)
    requires i < |all| == |now| && Filled(all, now[i := all[i]], i) && j < |all|
    requires Pending(all, i, now[i], current, jumped)
    requires Some(j) == FirstDefault(all, 0) && Line(all, current.name) == [all[j]]
    ensures Pending(all, i, Merge(now[i], now[j]), now[j], true)
    ensures jumped && !Resolved(all, all[i]).HasMissing() ==> !Merge(now[i], now[j]).HasMissing()
  {
    var last := Line(all, all[j].name);
    assert DefaultLine(all) == last;
    hide Line, FirstDefault, FirstNamed, Fill, Filled, Resolved, DefaultLine;
    ResolvedIsFull(all, all[i]);
    var resolved := Resolved(all, all[i]);
    FillHead(now[i], all[j], if jumped then [] else last);
    assert Ahead(all, current, jumped) == [all[j]] + if jumped then [] else last;
    if jumped {
      assert Merge(now[i], all[j]) == resolved by { FillNothing(Merge(now[i], all[j])); }
      assert [] + (last + last) == last + last;
      FillBoth(resolved, last, last);
      FillNothing(Merge(now[i], all[j]));
      FillNothing(Merge(now[i], now[j]));
      MergeNow(all, now, i, j, [], last + last);
    } else {
      MergeNow(all, now, i, j, last, last);
    }
    assert Ahead(all, now[j], true) == last;
  }

  // ---- When the loop does not end ----

  /** Logger i after n rounds of the inner loop, as long as parents are found. */
  function Rounds(now: seq<Logger>, i: nat, current: Logger, n: nat): Logger
    requires i < |now|
    decreases n
  {
    if n == 0 then now[i]
    else
      var parent := ParentOf(now, current.name);
      if parent.None? then now[i]
      else Rounds(now[i := Merge(now[i], now[parent.value])], i, now[parent.value], n - 1)
  }

  lemma {:induction false} StillPending(
    all: seq<Logger>, now: seq<Logger>, i: nat, current: Logger, jumped: bool, n: nat)
    requires i < |all| == |now| && Filled(all, now[i := all[i]], i)
    requires Pending(all, i, now[i], current, jumped)
    requires Unresolvable(all, i)
    ensures ParentOf(now, current.name).Some? && Rounds(now, i, current, n).HasMissing()
    decreases n
  {
    hide ParentOf, Line, FirstDefault, FirstNamed, Fill, Filled, Resolved, DefaultLine, Ahead;
    CompleteIsResolved(all, i, now[i], current, jumped);
    var jumpedNow := ParentStep(all, now, i, current, jumped);
    if n == 0 {
    } else {
      var parent := now[ParentOf(now, current.name).value];
      var next := now[i := Merge(now[i], parent)];
      assert next[i := all[i]] == now[i := all[i]];
      StillPending(all, next, i, parent, jumpedNow, n - 1);
    }
  }

  /**
   * The precondition is exact: when there is a default and logger i cannot be resolved, the loop over its parents
   * finds one in every round and never completes it.
   */
  lemma UnresolvableNeverEnds(all: seq<Logger>, now: seq<Logger>, i: nat, n: nat)
    requires Filled(all, now, i) && Unresolvable(all, i)
    ensures Rounds(now, i, now[i], n).HasMissing()
  {
    StartsUnfilled(all, i);
    assert now[i := all[i]] == now;
    StillPending(all, now, i, all[i], false, n);
  }

  /** The smallest such list: a default logger without a level, and nothing else. */
  lemma DefaultWithoutLevel(sinks: seq<string>, n: nat)
    ensures var all := [Logger("app", None, sinks, true, 1)];
            Unresolvable(all, 0) && Rounds(all, 0, all[0], n).HasMissing()
  {
    var all := [Logger("app", None, sinks, true, 1)];
    assert LastDot("app") == None by {
      assert '.' !in "app";
    }
    assert FirstDefault(all, 0) == Some(0);
    assert Line(all, "app") == [all[0]];
    FillTakesTheNearest(all[0], [all[0]] + [all[0]]);
    assert Filled(all, all, 0);
    UnresolvableNeverEnds(all, all, 0, n);
  }
}
