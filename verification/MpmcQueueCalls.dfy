/**
 * What a call has done when it returns, over arbitrary runs. The statements speak of starting a call, of a thread
 * being idle again, and of the histories and the slots' turns; where a thread stands in between is left to the proofs.
 */
module MpmcQueueCalls {
  import opened MpmcQueue
  import opened MpmcQueueTheorems

  // ---- What a thread did between two states ----

  /** What the histories of a later state of the same run satisfy. */
  ghost predicate Later<T>(s: State<T>, later: State<T>) {
    s.claims <= later.claims && s.takers <= later.takers && s.delivered <= later.delivered
  }

  /** Thread th claimed no push ticket in between. */
  ghost predicate NoClaim<T>(s: State<T>, later: State<T>, th: ThreadId) {
    forall t | |s.claims| <= t < |later.claims| :: later.claims[t].thread != th
  }

  /** Thread th claimed no pop ticket in between. */
  ghost predicate NoTake<T>(s: State<T>, later: State<T>, th: ThreadId) {
    forall t | |s.takers| <= t < |later.takers| :: later.takers[t] != th
  }

  /** Thread th returned no popped value in between. */
  ghost predicate NoDelivery<T>(s: State<T>, later: State<T>, th: ThreadId) {
    forall k | |s.delivered| <= k < |later.delivered| :: later.delivered[k].thread != th
  }

  ghost predicate DidNothing<T>(s: State<T>, later: State<T>, th: ThreadId) {
    NoClaim(s, later, th) && NoTake(s, later, th) && NoDelivery(s, later, th)
  }

  /** Thread th claimed exactly the push ticket t in between, with value v, and popped nothing. */
  ghost predicate OneClaim<T>(s: State<T>, later: State<T>, th: ThreadId, t: nat, v: T) {
    && |s.claims| <= t < |later.claims| && later.claims[t] == Claim(th, v)
    && (forall u | |s.claims| <= u < |later.claims| && u != t :: later.claims[u].thread != th)
    && NoTake(s, later, th) && NoDelivery(s, later, th)
  }

  /** Thread th claimed exactly the pop ticket t in between, and pushed nothing. */
  ghost predicate OneTake<T>(s: State<T>, later: State<T>, th: ThreadId, t: nat) {
    && |s.takers| <= t < |later.takers| && later.takers[t] == th
    && (forall u | |s.takers| <= u < |later.takers| && u != t :: later.takers[u] != th)
    && NoClaim(s, later, th)
  }

  /** Thread th returned exactly one popped value in between, that of ticket t. */
  ghost predicate OneDelivery<T>(s: State<T>, later: State<T>, th: ThreadId, t: nat) {
    exists k ::
      && |s.delivered| <= k < |later.delivered|
      && later.delivered[k].thread == th && later.delivered[k].ticket == t
      && forall j | |s.delivered| <= j < |later.delivered| && j != k :: later.delivered[j].thread != th
  }

  ghost predicate Pushed<T>(s: State<T>, later: State<T>, th: ThreadId, v: T)
    requires later.Shape()
  {
    exists t: nat :: OneClaim(s, later, th, t, v) && later.Published(t)
  }

  ghost predicate Popped<T>(s: State<T>, later: State<T>, th: ThreadId)
    requires later.Shape()
  {
    exists t: nat :: OneTake(s, later, th, t) && OneDelivery(s, later, th, t) && later.Released(t)
  }

  // ---- Where a call stands ----

  /** In between, the program counter of a call and what its thread has done so far belong together. */
  ghost predicate Midway<T>(s: State<T>, now: State<T>, th: ThreadId, call: Call<T>)
    requires th < |now.pcs|
  {
    var pc := now.pcs[th];
    && Later(s, now)
    && match call
       case Emplace(v) =>
         || (pc == EmplaceFetch(v) && DidNothing(s, now, th))
         || ((pc.EmplaceSpin? || pc.PushConstruct? || pc.PushPublish?) && pc.value == v
             && OneClaim(s, now, th, pc.ticket, v))
       case TryEmplace(v) =>
         || ((pc.TryEmplaceLoad? || pc.TryEmplaceTest? || pc.TryEmplaceCas? || pc.TryEmplaceReload?) && pc.value == v
             && DidNothing(s, now, th))
         || ((pc.PushConstruct? || pc.PushPublish?) && pc.value == v && OneClaim(s, now, th, pc.ticket, v))
       case Pop =>
         || (pc.PopFetch? && DidNothing(s, now, th))
         || ((pc.PopSpin? || pc.PopMove? || pc.PopDestroy? || pc.PopRelease?)
             && OneTake(s, now, th, pc.ticket) && NoDelivery(s, now, th))
       case TryPop =>
         || ((pc.TryPopLoad? || pc.TryPopTest? || pc.TryPopCas? || pc.TryPopReload?) && DidNothing(s, now, th))
         || ((pc.PopMove? || pc.PopDestroy? || pc.PopRelease?)
             && OneTake(s, now, th, pc.ticket) && NoDelivery(s, now, th))
  }

  lemma StartsMidway<T>(s: State<T>, th: ThreadId, call: Call<T>)
    requires s.Shape() && th < |s.pcs| && s.pcs[th].Idle?
    ensures Midway(s, Next(s, Start(th, call)), th, call)
  {}

  /** Steps of other threads add nothing in this thread's name and leave it where it is. */
  lemma OthersStep<T>(s: State<T>, e: Event<T>, th: ThreadId)
    requires s.Shape() && th < |s.pcs| && e.thread != th
    ensures var later := Next(s, e);
            && later.pcs[th] == s.pcs[th] && Later(s, later) && DidNothing(s, later, th)
  {}

  /** A thread inside a call does not start another one. */
  lemma NoNestedStart<T>(s: State<T>, th: ThreadId, call: Call<T>)
    requires s.Shape() && th < |s.pcs| && !s.pcs[th].Idle?
    ensures Next(s, Start(th, call)) == s
  {}

  lemma Extends<T>(s: State<T>, now: State<T>, later: State<T>, th: ThreadId, call: Call<T>)
    requires th < |now.pcs| == |later.pcs| && later.pcs[th] == now.pcs[th]
    requires Later(now, later) && DidNothing(now, later, th) && Midway(s, now, th, call)
    ensures Midway(s, later, th, call)
  {
    assert forall t | 0 <= t < |now.claims| :: later.claims[t] == now.claims[t];
    assert forall t | 0 <= t < |now.takers| :: later.takers[t] == now.takers[t];
    assert forall k | 0 <= k < |now.delivered| :: later.delivered[k] == now.delivered[k];
  }

  lemma PushMidway<T>(s: State<T>, now: State<T>, th: ThreadId, call: Call<T>)
    requires now.Shape() && th < |now.pcs| && ThreadOk(now, th) && Midway(s, now, th, call)
    requires (call.Emplace? || call.TryEmplace?) && |s.claims| <= now.head
    ensures var next := PushStep(now, th);
            if !next.pcs[th].Idle? then Midway(s, next, th, call)
            else
              || Pushed(s, next, th, call.value)
              || (call.TryEmplace? && now.pcs[th] == TryEmplaceReload(call.value, now.head) && DidNothing(s, next, th))
  {
    var next := PushStep(now, th);
    if now.pcs[th].PushPublish? {
      var t := now.pcs[th].ticket;
      assert OneClaim(s, next, th, t, call.value) && next.Published(t);
    }
  }

  lemma PopMidway<T>(s: State<T>, now: State<T>, th: ThreadId, call: Call<T>)
    requires now.Shape() && th < |now.pcs| && ThreadOk(now, th) && Midway(s, now, th, call)
    requires (call.Pop? || call.TryPop?) && |s.takers| <= now.tail
    ensures var next := PopStep(now, th);
            if !next.pcs[th].Idle? then Midway(s, next, th, call)
            else
              || Popped(s, next, th)
              || (call.TryPop? && now.pcs[th] == TryPopReload(now.tail) && DidNothing(s, next, th))
  {
    var next := PopStep(now, th);
    if now.pcs[th].PopRelease? {
      var t, k := now.pcs[th].ticket, |now.delivered|;
      assert next.delivered[k].thread == th && next.delivered[k].ticket == t;
      assert OneTake(s, next, th, t) && OneDelivery(s, next, th, t) && next.Released(t);
    }
  }

  // ---- Calls over runs ----

  /** The call that thread th starts at position b is still under way, or ends at the end of the schedule. */
  ghost predicate IsCall<T>(
    capacity: nat, threads: nat, schedule: seq<Event<T>>, b: nat, th: ThreadId, call: Call<T>)
    requires capacity >= 1
  {
    && th < threads && b < |schedule| && schedule[b] == Start(th, call)
    && Run(capacity, threads, schedule[..b]).pcs[th].Idle?
    && (forall j | b < j < |schedule| :: !Run(capacity, threads, schedule[..j]).pcs[th].Idle?)
  }

  lemma RunStep<T>(capacity: nat, threads: nat, schedule: seq<Event<T>>, n: nat)
    requires capacity >= 1 && n < |schedule|
    ensures Run(capacity, threads, schedule[..n + 1]) == Next(Run(capacity, threads, schedule[..n]), schedule[n])
  {
    ExecPrefix(Initial<T>(capacity, threads), schedule, n);
  }

  lemma MidwayStep<T>(s: State<T>, now: State<T>, e: Event<T>, th: ThreadId, call: Call<T>)
    requires Inv(now) && th < |now.pcs| && Midway(s, now, th, call)
    ensures var next := Next(now, e);
            if !next.pcs[th].Idle? then Midway(s, next, th, call)
            else
              e == Step(th) &&
              match call
              case Emplace(v) => Pushed(s, next, th, v)
              case TryEmplace(v) =>
                Pushed(s, next, th, v) || (now.pcs[th] == TryEmplaceReload(v, now.head) && DidNothing(s, next, th))
              case Pop => Popped(s, next, th)
              case TryPop =>
                Popped(s, next, th) || (now.pcs[th] == TryPopReload(now.tail) && DidNothing(s, next, th))
  {
    hide Inv, DidNothing, OneClaim, OneTake, NoDelivery, PushStep, PopStep, Pushed, Popped;
    ThreadIsOk(now, th);
    if e.thread != th {
      OthersStep(now, e, th);
      Extends(s, now, Next(now, e), th, call);
    } else if e.Start? {
      NoNestedStart(now, th, e.call);
    } else if call.Emplace? || call.TryEmplace? {
      PushMidway(s, now, th, call);
    } else {
      PopMidway(s, now, th, call);
    }
  }

  lemma ThreadIsOk<T>(s: State<T>, th: ThreadId)
    requires Inv(s) && th < |s.pcs|
    ensures s.Shape() && ThreadOk(s, th)
  {}

  lemma {:induction false} MidwayRun<T>(
    capacity: nat, threads: nat, schedule: seq<Event<T>>, b: nat, th: ThreadId, call: Call<T>, n: nat)
    requires capacity >= 1 && IsCall(capacity, threads, schedule, b, th, call)
    requires b < n < |schedule| || n == b + 1
    ensures Midway(Run(capacity, threads, schedule[..b]), Run(capacity, threads, schedule[..n]), th, call)
    decreases n
  {
    hide Run, Inv, Next, Midway;
    RunStep(capacity, threads, schedule, n - 1);
    if n == b + 1 {
      StartsMidway(Run(capacity, threads, schedule[..b]), th, call);
    } else {
      MidwayRun(capacity, threads, schedule, b, th, call, n - 1);
      RunInv(capacity, threads, schedule[..n - 1]);
      MidwayStep(Run(capacity, threads, schedule[..b]), Run(capacity, threads, schedule[..n - 1]),
                 schedule[n - 1], th, call);
    }
  }

  /** Inside the call there was a state in which the push of the tail's ticket had not been published. */
  ghost predicate SawNoEntry<T>(capacity: nat, threads: nat, schedule: seq<Event<T>>, b: nat)
    requires capacity >= 1
  {
    exists i :: b < i < |schedule| && var s := Run(capacity, threads, schedule[..i]); !s.Published(s.tail)
  }

  /** Inside the call there was a state in which the pop of one lap earlier had not released the head's slot. */
  ghost predicate SawNoRoom<T>(capacity: nat, threads: nat, schedule: seq<Event<T>>, b: nat)
    requires capacity >= 1
  {
    exists i :: b < i < |schedule| &&
      var s := Run(capacity, threads, schedule[..i]); s.head >= capacity && !s.Released(s.head - capacity)
  }

  lemma NoEntrySeen<T>(capacity: nat, threads: nat, schedule: seq<Event<T>>, b: nat, th: ThreadId, call: Call<T>)
    requires capacity >= 1 && IsCall(capacity, threads, schedule, b, th, call) && |schedule| > b + 1
    requires var s := Run(capacity, threads, schedule[..|schedule| - 1]); s.pcs[th] == TryPopReload(s.tail)
    ensures SawNoEntry(capacity, threads, schedule, b)
  {
    hide Run;
    var front := schedule[..|schedule| - 1];
    FailedTryPop(capacity, threads, front, th);
    var t := Run(capacity, threads, front).tail;
    var i :| && 0 <= i < |front| && front[i] == Event.Step(th)
             && (var s := Run(capacity, threads, front[..i]);
                 && s.pcs[th] == TryPopTest(t) && s.tail == t && !s.Published(t)
                 && (forall j | i < j <= |front| :: Run(capacity, threads, front[..j]).pcs[th] == TryPopReload(t)));
    assert forall j | 0 <= j <= |front| :: front[..j] == schedule[..j];
    assert Run(capacity, threads, front[..b]).pcs[th].Idle?;
    assert b < i;
  }

  lemma NoRoomSeen<T>(
    capacity: nat, threads: nat, schedule: seq<Event<T>>, b: nat, th: ThreadId, call: Call<T>, v: T)
    requires capacity >= 1 && IsCall(capacity, threads, schedule, b, th, call) && |schedule| > b + 1
    requires var s := Run(capacity, threads, schedule[..|schedule| - 1]); s.pcs[th] == TryEmplaceReload(v, s.head)
    ensures SawNoRoom(capacity, threads, schedule, b)
  {
    hide Run;
    var front := schedule[..|schedule| - 1];
    FailedTryEmplace(capacity, threads, front, th, v);
    var h := Run(capacity, threads, front).head;
    var i :| && 0 <= i < |front| && front[i] == Event.Step(th)
             && (var s := Run(capacity, threads, front[..i]);
                 && s.pcs[th] == TryEmplaceTest(v, h) && s.head == h && h >= capacity && !s.Released(h - capacity)
                 && (forall j | i < j <= |front| ::
                       Run(capacity, threads, front[..j]).pcs[th] == TryEmplaceReload(v, h)));
    assert forall j | 0 <= j <= |front| :: front[..j] == schedule[..j];
    assert Run(capacity, threads, front[..b]).pcs[th].Idle?;
    assert b < i;
  }

  /**
   * What a call has done when its thread is idle again, in every interleaving. `emplace` claimed exactly one ticket,
   * for its value, and has published it; `pop` took exactly one ticket, released its slot and returned one value.
   * `try_emplace` and `try_pop` did the same, or else they did nothing, and then there was no room, or no entry, at
   * some point of this very call.
   */
  lemma FinishedCall<T>(capacity: nat, threads: nat, schedule: seq<Event<T>>, b: nat, th: ThreadId, call: Call<T>)
    requires capacity >= 1 && IsCall(capacity, threads, schedule, b, th, call)
    requires Run(capacity, threads, schedule).pcs[th].Idle?
    ensures var s, now := Run(capacity, threads, schedule[..b]), Run(capacity, threads, schedule);
            match call
            case Emplace(v) => Pushed(s, now, th, v)
            case TryEmplace(v) =>
              Pushed(s, now, th, v) || (DidNothing(s, now, th) && SawNoRoom(capacity, threads, schedule, b))
            case Pop => Popped(s, now, th)
            case TryPop =>
              Popped(s, now, th) || (DidNothing(s, now, th) && SawNoEntry(capacity, threads, schedule, b))
  {
    hide Run, Inv, Next, DidNothing, Pushed, Popped, SawNoRoom, SawNoEntry;
    var n := |schedule|;
    assert schedule[..n] == schedule;
    MidwayRun(capacity, threads, schedule, b, th, call, b + 1);
    MidwayRun(capacity, threads, schedule, b, th, call, n - 1);
    RunInv(capacity, threads, schedule[..n - 1]);
    RunStep(capacity, threads, schedule, n - 1);
    var s, last := Run(capacity, threads, schedule[..b]), Run(capacity, threads, schedule[..n - 1]);
    MidwayStep(s, last, schedule[n - 1], th, call);
    if last.pcs[th] == TryPopReload(last.tail) {
      NoEntrySeen(capacity, threads, schedule, b, th, call);
    } else if last.pcs[th].TryEmplaceReload? && last.pcs[th] == TryEmplaceReload(last.pcs[th].value, last.head) {
      NoRoomSeen(capacity, threads, schedule, b, th, call, last.pcs[th].value);
    }
  }

  // ---- Nobody can be held up for ever inside a try ----

  /** How many more steps a thread inside `try_emplace` or `try_pop` needs at most if no other thread moves. */
  function StepsLeft<T>(s: State<T>, th: ThreadId): nat
    requires th < |s.pcs|
  {
    match s.pcs[th]
    case TryEmplaceLoad(_) => 6
    case TryEmplaceTest(_, h) => if h == s.head then 5 else 8
    case TryEmplaceCas(_, h) => if h == s.head then 4 else 6
    case TryEmplaceReload(_, h) => if h == s.head then 1 else 6
    case PushConstruct(_, _) => 2
    case PushPublish(_, _) => 1
    case TryPopLoad => 6
    case TryPopTest(t) => if t == s.tail then 5 else 8
    case TryPopCas(t) => if t == s.tail then 4 else 6
    case TryPopReload(t) => if t == s.tail then 1 else 6
    case PopMove(_) => 3
    case PopDestroy(_, _) => 2
    case PopRelease(_, _) => 1
    case _ => 0
  }

  /** Inside `try_emplace` or `try_pop`, or past the turn test of any operation. */
  predicate Trying<T>(pc: Pc<T>) {
    !pc.Idle? && !pc.EmplaceFetch? && !pc.EmplaceSpin? && !pc.PopFetch? && !pc.PopSpin?
  }

  lemma TryingPushStep<T>(s: State<T>, th: ThreadId)
    requires s.Shape() && th < |s.pcs| && Trying(s.pcs[th]) && InPush(s.pcs[th]) && ThreadOk(s, th)
    ensures var next := PushStep(s, th);
            next.pcs[th].Idle? || (Trying(next.pcs[th]) && StepsLeft(next, th) < StepsLeft(s, th))
  {}

  lemma TryingPopStep<T>(s: State<T>, th: ThreadId)
    requires s.Shape() && th < |s.pcs| && Trying(s.pcs[th]) && !InPush(s.pcs[th])
    requires ThreadOk(s, th) && TicketOk(s, TicketOf(s.pcs[th])) && StorageOk(s, TicketOf(s.pcs[th]))
    ensures var next := PopStep(s, th);
            next.pcs[th].Idle? || (Trying(next.pcs[th]) && StepsLeft(next, th) < StepsLeft(s, th))
  {}

  lemma TryingStep<T>(s: State<T>, th: ThreadId)
    requires Inv(s) && th < |s.pcs| && Trying(s.pcs[th])
    ensures var next := Next(s, Event.Step(th));
            next.pcs[th].Idle? || (Trying(next.pcs[th]) && StepsLeft(next, th) < StepsLeft(s, th))
    ensures 1 <= StepsLeft(s, th) <= 8
  {
    hide PushStep, PopStep, TicketOf;
    var t := TicketOf(s.pcs[th]);
    assert ThreadOk(s, th) && TicketOk(s, t) && StorageOk(s, t);
    if InPush(s.pcs[th]) {
      TryingPushStep(s, th);
    } else {
      TryingPopStep(s, th);
    }
  }

  /** The state after n steps of thread th alone. */
  function Solo<T>(s: State<T>, th: ThreadId, n: nat): (later: State<T>)
    requires s.Shape()
    ensures later.Shape() && |later.pcs| == |s.pcs|
    decreases n
  {
    if n == 0 then s else Solo(Next(s, Event.Step(th)), th, n - 1)
  }

  lemma SoloOne<T>(s: State<T>, th: ThreadId)
    requires s.Shape()
    ensures Solo(s, th, 1) == Next(s, Event.Step(th))
  {}

  /** From wherever the others stand still, a thread inside `try_emplace` or `try_pop` returns within eight steps. */
  lemma {:induction false} TryEndsAlone<T>(s: State<T>, th: ThreadId) returns (n: nat)
    requires Inv(s) && th < |s.pcs| && Trying(s.pcs[th])
    ensures 1 <= n <= StepsLeft(s, th) <= 8 && Solo(s, th, n).pcs[th].Idle?
    decreases StepsLeft(s, th)
  {
    hide Inv, Next, Trying, StepsLeft;
    ThreadIsOk(s, th);
    TryingStep(s, th);
    var next := Next(s, Event.Step(th));
    if next.pcs[th].Idle? {
      n := 1;
      SoloOne(s, th);
    } else {
      NextInv(s, Event.Step(th));
      n := TryEndsAlone(next, th);
      n := n + 1;
    }
  }

  /** Wherever a `try_emplace` or `try_pop` stands in a run, it returns within eight steps without help or harm. */
  lemma TryNeverWaits<T>(capacity: nat, threads: nat, schedule: seq<Event<T>>, b: nat, th: ThreadId, call: Call<T>)
    returns (n: nat)
    requires capacity >= 1 && IsCall(capacity, threads, schedule, b, th, call)
    requires call.TryEmplace? || call.TryPop?
    ensures n <= 8 && Solo(Run(capacity, threads, schedule), th, n).pcs[th].Idle?
  {
    hide Run, Inv, Next, Midway, Trying, StepsLeft;
    var s, now := Run(capacity, threads, schedule[..b]), Run(capacity, threads, schedule);
    RunInv(capacity, threads, schedule);
    if now.pcs[th].Idle? {
      n := 0;
    } else {
      var last := |schedule| - 1;
      assert schedule[..last + 1] == schedule;
      if last == b {
        MidwayRun(capacity, threads, schedule, b, th, call, b + 1);
      } else {
        MidwayRun(capacity, threads, schedule, b, th, call, last);
        RunInv(capacity, threads, schedule[..last]);
        RunStep(capacity, threads, schedule, last);
        MidwayStep(s, Run(capacity, threads, schedule[..last]), schedule[last], th, call);
      }
      MidwayIsTrying(s, now, th, call);
      n := TryEndsAlone(now, th);
    }
  }

  lemma MidwayIsTrying<T>(s: State<T>, now: State<T>, th: ThreadId, call: Call<T>)
    requires th < |now.pcs| && Midway(s, now, th, call) && (call.TryEmplace? || call.TryPop?)
    ensures Trying(now.pcs[th])
  {}
}
