/** What the queue promises, for every interleaving of every number of threads and every capacity. */
module MpmcQueueTheorems {
  import opened MpmcQueue

  function Run<T>(capacity: nat, threads: nat, schedule: seq<Event<T>>): (s: State<T>)
    requires capacity >= 1
    ensures s.Shape() && |s.pcs| == threads && s.capacity == capacity
  {
    Exec(Initial<T>(capacity, threads), schedule)
  }

  lemma RunInv<T>(capacity: nat, threads: nat, schedule: seq<Event<T>>)
    requires capacity >= 1
    ensures Inv(Run(capacity, threads, schedule))
  {
    InitialInv<T>(capacity, threads);
    ExecInv(Initial<T>(capacity, threads), schedule);
  }

  /**
   * The pop that owns ticket t returns exactly the value stored by the push that owns ticket t; no ticket is
   * returned twice, none that was released is missing, and each thread returns its tickets in order.
   */
  lemma DeliveredExactlyOnce<T>(capacity: nat, threads: nat, schedule: seq<Event<T>>)
    requires capacity >= 1
    ensures
      var s := Run(capacity, threads, schedule);
      && (forall k {:trigger s.delivered[k]} | 0 <= k < |s.delivered| ::
           var d := s.delivered[k];
           && d.ticket < s.head && d.ticket < s.tail
           && s.takers[d.ticket] == d.thread && d.value == s.claims[d.ticket].value)
      && (forall j, k | 0 <= j < k < |s.delivered| :: s.delivered[j].ticket != s.delivered[k].ticket)
      && (forall j, k | 0 <= j < k < |s.delivered| ::
           s.delivered[j].thread == s.delivered[k].thread ==> s.delivered[j].ticket < s.delivered[k].ticket)
      && (forall t: nat {:trigger s.Released(t)} ::
           s.Released(t) <==> exists k :: 0 <= k < |s.delivered| && s.delivered[k].ticket == t)
  {
    RunInv(capacity, threads, schedule);
    var s := Run(capacity, threads, schedule);
    forall k | 0 <= k < |s.delivered|
      ensures var d := s.delivered[k];
              && d.ticket < s.head && d.ticket < s.tail && s.Released(d.ticket)
              && s.takers[d.ticket] == d.thread && d.value == s.claims[d.ticket].value
    {
      assert DeliveryOk(s, k);
    }
    forall j, k | 0 <= j < k < |s.delivered|
      ensures s.delivered[j].ticket != s.delivered[k].ticket
      ensures s.delivered[j].thread == s.delivered[k].thread ==> s.delivered[j].ticket < s.delivered[k].ticket
    {
      assert DeliveryOk(s, k);
    }
    forall t: nat ensures s.Released(t) <==> exists k :: 0 <= k < |s.delivered| && s.delivered[k].ticket == t {
      assert s.Released(t) ==> Recorded(s, t);
    }
  }

  /** The operation is between passing the turn test of its ticket and storing the new turn. */
  predicate InSlot<T>(pc: Pc<T>) {
    pc.PushConstruct? || pc.PushPublish? || pc.PopMove? || pc.PopDestroy? || pc.PopRelease?
  }

  /** Mutual exclusion: at most one operation is inside a slot. */
  lemma SlotExclusion<T>(capacity: nat, threads: nat, schedule: seq<Event<T>>, th: ThreadId, other: ThreadId)
    requires capacity >= 1 && th < threads && other < threads && th != other
    requires var s := Run(capacity, threads, schedule); InSlot(s.pcs[th]) && InSlot(s.pcs[other])
    ensures var s := Run(capacity, threads, schedule);
            Idx(capacity, s.pcs[th].ticket) != Idx(capacity, s.pcs[other].ticket)
  {
    RunInv(capacity, threads, schedule);
    var s := Run(capacity, threads, schedule);
    assert ThreadOk(s, th) && ThreadOk(s, other);
    TicketIsUnique(s, s.pcs[th].ticket, s.pcs[other].ticket);
  }

  /** Objects are constructed on empty storage only, and moved from and destroyed only while alive. */
  lemma StorageIsUsedSafely<T>(capacity: nat, threads: nat, schedule: seq<Event<T>>, th: ThreadId)
    requires capacity >= 1 && th < threads
    ensures
      var s := Run(capacity, threads, schedule);
      match s.pcs[th]
      case PushConstruct(v, t) => s.SlotOf(t).storage == Empty
      case PushPublish(v, t) => s.SlotOf(t).storage == Live(v)
      case PopMove(t) => t < s.head && s.SlotOf(t).storage == Live(s.claims[t].value)
      case PopDestroy(t, v) => s.SlotOf(t).storage == MovedFrom
      case PopRelease(t, v) => s.SlotOf(t).storage == Empty
      case _ => true
  {
    RunInv(capacity, threads, schedule);
    var s := Run(capacity, threads, schedule);
    assert ThreadOk(s, th);
    var t := TicketOf(s.pcs[th]);
    assert TicketOk(s, t) && StorageOk(s, t);
  }

  /** One step raises at most one slot's turn, by exactly one, and never lowers any. */
  lemma TurnsGrowByOne<T>(capacity: nat, threads: nat, schedule: seq<Event<T>>, e: Event<T>)
    requires capacity >= 1
    ensures
      var s, s' := Run(capacity, threads, schedule), Run(capacity, threads, schedule + [e]);
      && (forall i | 0 <= i < capacity :: s.slots[i].turn <= s'.slots[i].turn <= s.slots[i].turn + 1)
      && (forall i, j | 0 <= i < j < capacity ::
           s'.slots[i].turn == s.slots[i].turn || s'.slots[j].turn == s.slots[j].turn)
  {
    RunInv(capacity, threads, schedule);
    var s := Run(capacity, threads, schedule);
    assert (schedule + [e])[..|schedule|] == schedule;
    if e.Step? && e.thread < threads {
      assert ThreadOk(s, e.thread);
      PushStepEvolves(s, e.thread);
      PopStepEvolves(s, e.thread);
    }
  }

  lemma CurrentTicket(capacity: nat, i: nat, lap: nat) returns (t: nat)
    requires i < capacity
    ensures Idx(capacity, t) == i && Turn(capacity, t) == lap
  {
    t := lap * capacity + i;
    var q, r := t / capacity, t % capacity;
    assert t == q * capacity + r && 0 <= r < capacity;
    assert (lap - q) * capacity == r - i;
    MultipleBound(lap - q, capacity);
  }

  lemma MultipleBound(k: int, c: nat)
    ensures k >= 1 ==> k * c >= c
    ensures k <= -1 ==> k * c <= -(c as int)
  {}

  /** Once no operation is inside a slot, its turn is odd exactly when it holds a live object. */
  lemma OddTurnMeansLive<T>(capacity: nat, threads: nat, schedule: seq<Event<T>>, i: nat)
    requires i < capacity
    requires
      var s := Run(capacity, threads, schedule);
      forall th | 0 <= th < threads :: InSlot(s.pcs[th]) ==> Idx(capacity, s.pcs[th].ticket) != i
    ensures
      var slot := Run(capacity, threads, schedule).slots[i];
      if slot.turn % 2 == 1 then slot.storage.Live? else slot.storage.Empty?
  {
    RunInv(capacity, threads, schedule);
    var s := Run(capacity, threads, schedule);
    var t := CurrentTicket(capacity, i, s.slots[i].turn / 2);
    assert s.SlotOf(t) == s.slots[i];
    assert TicketOk(s, t) && StorageOk(s, t);
  }

  // ---- The capacity bound ----

  /** The tickets whose push has completed. */
  ghost function PublishedTickets<T>(s: State<T>): set<nat>
    requires s.Shape()
  {
    set t | 0 <= t < s.head && s.Published(t)
  }

  /** The tickets whose pop has completed. */
  ghost function ReleasedTickets<T>(s: State<T>): set<nat>
    requires s.Shape()
  {
    set t | 0 <= t < s.tail && s.Released(t)
  }

  lemma {:induction false} DistinctSlots(capacity: nat, bound: nat, tickets: set<nat>)
    requires bound <= capacity && capacity >= 1
    requires forall t | t in tickets :: Idx(capacity, t) < bound
    requires forall t, u | t in tickets && u in tickets :: Idx(capacity, t) == Idx(capacity, u) ==> t == u
    ensures |tickets| <= bound
    decreases bound
  {
    if bound == 0 {
      assert tickets == {};
    } else if t :| t in tickets && Idx(capacity, t) == bound - 1 {
      DistinctSlots(capacity, bound - 1, tickets - {t});
    } else {
      DistinctSlots(capacity, bound - 1, tickets);
    }
  }

  /** Completed pushes minus completed pops never exceeds the capacity, and no pop completes before its push. */
  lemma CapacityBound<T>(capacity: nat, threads: nat, schedule: seq<Event<T>>)
    requires capacity >= 1
    ensures
      var s := Run(capacity, threads, schedule);
      && ReleasedTickets(s) <= PublishedTickets(s)
      && |PublishedTickets(s)| - |ReleasedTickets(s)| <= capacity
  {
    RunInv(capacity, threads, schedule);
    var s := Run(capacity, threads, schedule);
    var published, released := PublishedTickets(s), ReleasedTickets(s);
    forall t | t in released ensures t in published {
      assert TicketOk(s, t);
    }
    var inside := published - released;
    forall t | t in inside ensures s.SlotOf(t).turn == 2 * Turn(capacity, t) + 1 {
      assert TicketOk(s, t);
    }
    forall t, u | t in inside && u in inside && Idx(capacity, t) == Idx(capacity, u) ensures t == u {
      TicketIsUnique(s, t, u);
    }
    DistinctSlots(capacity, capacity, inside);
    assert published == inside + released;
  }

  // ---- Why the non-blocking operations fail ----

  lemma ExecPrefix<T>(s: State<T>, schedule: seq<Event<T>>, n: nat)
    requires s.Shape() && n < |schedule|
    ensures Exec(s, schedule[..n + 1]) == Next(Exec(s, schedule[..n]), schedule[n])
  {
    assert schedule[..n + 1][..n] == schedule[..n];
  }

  /** The counters never go back. */
  lemma NextCounters<T>(s: State<T>, e: Event<T>)
    requires s.Shape()
    ensures s.tail <= Next(s, e).tail && s.head <= Next(s, e).head
  {}

  lemma {:induction false} CountersGrow<T>(capacity: nat, threads: nat, schedule: seq<Event<T>>, i: nat, j: nat)
    requires capacity >= 1 && i <= j <= |schedule|
    ensures Run(capacity, threads, schedule[..i]).tail <= Run(capacity, threads, schedule[..j]).tail
    ensures Run(capacity, threads, schedule[..i]).head <= Run(capacity, threads, schedule[..j]).head
    decreases j
  {
    hide Next;
    if i == j {
    } else {
      CountersGrow(capacity, threads, schedule, i, j - 1);
      ExecPrefix(Initial<T>(capacity, threads), schedule, j - 1);
      NextCounters(Run(capacity, threads, schedule[..j - 1]), schedule[j - 1]);
    }
  }

  /** The only way into the reload of `try_pop` is a failed turn test. */
  lemma EntersPopReload<T>(s: State<T>, e: Event<T>, th: ThreadId, t: nat)
    requires Inv(s) && th < |s.pcs| && s.pcs[th] != TryPopReload(t) && Next(s, e).pcs[th] == TryPopReload(t)
    ensures e == Event.Step(th) && s.pcs[th] == TryPopTest(t)
    ensures t <= s.tail && (t == s.tail ==> !s.Published(t))
  {
    assert ThreadOk(s, th) && TicketOk(s, t);
  }

  /** A thread about to reload the tail came there, in this very call, from a failed turn test while t was the tail. */
  lemma {:induction false} PopReloadOrigin<T>(
    capacity: nat, threads: nat, schedule: seq<Event<T>>, n: nat, m: nat, th: ThreadId, t: nat)
    requires capacity >= 1 && th < threads && m <= n <= |schedule|
    requires Run(capacity, threads, schedule[..n]).tail == t
    requires forall j | m <= j <= n :: Run(capacity, threads, schedule[..j]).pcs[th] == TryPopReload(t)
    ensures exists i ::
      && 0 <= i < m && schedule[i] == Event.Step(th)
      && (var s := Run(capacity, threads, schedule[..i]);
          s.pcs[th] == TryPopTest(t) && s.tail == t && !s.Published(t))
      && (forall j | i < j <= n :: Run(capacity, threads, schedule[..j]).pcs[th] == TryPopReload(t))
    decreases m
  {
    assert schedule[..0] == [];
    assert m > 0;
    var i := m - 1;
    var s := Run(capacity, threads, schedule[..i]);
    ExecPrefix(Initial<T>(capacity, threads), schedule, i);
    assert schedule[..i + 1] == schedule[..m];
    if s.pcs[th] == TryPopReload(t) {
      PopReloadOrigin(capacity, threads, schedule, n, i, th, t);
    } else {
      RunInv(capacity, threads, schedule[..i]);
      CountersGrow(capacity, threads, schedule, i, n);
      EntersPopReload(s, schedule[i], th, t);
    }
  }

  /** The only way into the reload of `try_emplace` is a failed turn test. */
  lemma EntersEmplaceReload<T>(s: State<T>, e: Event<T>, th: ThreadId, v: T, h: nat)
    requires Inv(s) && th < |s.pcs|
    requires s.pcs[th] != TryEmplaceReload(v, h) && Next(s, e).pcs[th] == TryEmplaceReload(v, h)
    ensures e == Event.Step(th) && s.pcs[th] == TryEmplaceTest(v, h)
    ensures h <= s.head && (h == s.head ==> h >= s.capacity && !s.Released(h - s.capacity))
  {
    assert ThreadOk(s, th) && TicketOk(s, h);
    if h == s.head { OneLapEarlier(s, h); }
  }

  /** The same for a thread waiting to reload the head. */
  lemma {:induction false} EmplaceReloadOrigin<T>(
    capacity: nat, threads: nat, schedule: seq<Event<T>>, n: nat, m: nat, th: ThreadId, v: T, h: nat)
    requires capacity >= 1 && th < threads && m <= n <= |schedule|
    requires Run(capacity, threads, schedule[..n]).head == h
    requires forall j | m <= j <= n :: Run(capacity, threads, schedule[..j]).pcs[th] == TryEmplaceReload(v, h)
    ensures exists i ::
      && 0 <= i < m && schedule[i] == Event.Step(th)
      && (var s := Run(capacity, threads, schedule[..i]);
          s.pcs[th] == TryEmplaceTest(v, h) && s.head == h && h >= capacity && !s.Released(h - capacity))
      && (forall j | i < j <= n :: Run(capacity, threads, schedule[..j]).pcs[th] == TryEmplaceReload(v, h))
    decreases m
  {
    assert schedule[..0] == [];
    assert m > 0;
    var i := m - 1;
    var s := Run(capacity, threads, schedule[..i]);
    ExecPrefix(Initial<T>(capacity, threads), schedule, i);
    assert schedule[..i + 1] == schedule[..m];
    if s.pcs[th] == TryEmplaceReload(v, h) {
      EmplaceReloadOrigin(capacity, threads, schedule, n, i, th, v, h);
    } else {
      RunInv(capacity, threads, schedule[..i]);
      CountersGrow(capacity, threads, schedule, i, n);
      EntersEmplaceReload(s, schedule[i], th, v, h);
    }
  }

  /**
   * A `try_pop` returns false when it reloads the tail and finds it unchanged. It then read the turn of that ticket's
   * slot, in this very call, in a state where the ticket was already the tail and its push had not been published.
   */
  lemma FailedTryPop<T>(capacity: nat, threads: nat, schedule: seq<Event<T>>, th: ThreadId)
    requires capacity >= 1 && th < threads
    requires var s := Run(capacity, threads, schedule); s.pcs[th] == TryPopReload(s.tail)
    ensures exists i ::
      && 0 <= i < |schedule| && schedule[i] == Event.Step(th)
      && (var t := Run(capacity, threads, schedule).tail;
          var s := Run(capacity, threads, schedule[..i]);
          && s.pcs[th] == TryPopTest(t) && s.tail == t && !s.Published(t)
          && (forall j | i < j <= |schedule| :: Run(capacity, threads, schedule[..j]).pcs[th] == TryPopReload(t)))
  {
    var n := |schedule|;
    assert schedule[..n] == schedule;
    PopReloadOrigin(capacity, threads, schedule, n, n, th, Run(capacity, threads, schedule).tail);
  }

  /**
   * A `try_emplace` returns false when it reloads the head and finds it unchanged. It then read the turn of that
   * ticket's slot, in this very call, in a state where the ticket was already the head and the pop of one lap earlier
   * had not released the slot.
   */
  lemma FailedTryEmplace<T>(capacity: nat, threads: nat, schedule: seq<Event<T>>, th: ThreadId, v: T)
    requires capacity >= 1 && th < threads
    requires var s := Run(capacity, threads, schedule); s.pcs[th] == TryEmplaceReload(v, s.head)
    ensures exists i ::
      && 0 <= i < |schedule| && schedule[i] == Event.Step(th)
      && (var h := Run(capacity, threads, schedule).head;
          var s := Run(capacity, threads, schedule[..i]);
          && s.pcs[th] == TryEmplaceTest(v, h) && s.head == h && h >= capacity && !s.Released(h - capacity)
          && (forall j | i < j <= |schedule| ::
                Run(capacity, threads, schedule[..j]).pcs[th] == TryEmplaceReload(v, h)))
  {
    var n := |schedule|;
    assert schedule[..n] == schedule;
    EmplaceReloadOrigin(capacity, threads, schedule, n, n, th, v, Run(capacity, threads, schedule).head);
  }

  lemma OneLapEarlier<T>(s: State<T>, h: nat)
    requires s.Shape() && s.SlotOf(h).turn < 2 * Turn(s.capacity, h)
    ensures h >= s.capacity && !s.Released(h - s.capacity)
  {
    var c := s.capacity;
    assert h == c * (h / c) + h % c && h / c >= 1;
    assert h >= c by { assert c * (h / c) >= c; }
    var t := CurrentTicket(c, h % c, h / c - 1);
    assert h - c == c * (h / c - 1) + h % c;
    assert t == c * (t / c) + t % c;
    assert t == h - c;
  }

  // ---- One consumer ----

  /**
   * When a single thread does all the popping, the values it returns are the pushed values in ticket order, none
   * skipped: this is what the thread that polls the queue hands to its handler.
   */
  lemma {:induction false} SingleConsumerOrder<T>(
    capacity: nat, threads: nat, schedule: seq<Event<T>>, consumer: ThreadId, k: nat)
    requires capacity >= 1
    requires var s := Run(capacity, threads, schedule);
             k < |s.delivered| && forall t | 0 <= t < s.tail :: s.takers[t] == consumer
    ensures var s := Run(capacity, threads, schedule);
            k < s.head && s.delivered[k] == Delivery(consumer, k, s.claims[k].value)
    decreases k
  {
    RunInv(capacity, threads, schedule);
    var s := Run(capacity, threads, schedule);
    forall j | 0 <= j < k ensures s.delivered[j].ticket == j {
      SingleConsumerOrder(capacity, threads, schedule, consumer, j);
    }
    assert DeliveryOk(s, k);
    var d := s.delivered[k];
    if k > 0 { assert s.delivered[k - 1].ticket == k - 1 && DeliveryOk(s, k - 1); }
    assert d.ticket >= k;
    assert TicketOk(s, k) && k < s.tail && s.takers[k] == consumer;
    assert s.Released(k) && Recorded(s, k);
    var m :| 0 <= m < |s.delivered| && s.delivered[m].ticket == k;
    assert DeliveryOk(s, m) && m >= k;
  }

  // ---- At rest ----

  ghost predicate Quiescent<T>(s: State<T>) {
    Inv(s) && forall th | 0 <= th < |s.pcs| :: s.pcs[th].Idle?
  }

  /** The values a queue at rest holds, oldest first. */
  ghost function Held<T>(s: State<T>): (held: seq<T>)
    requires Quiescent(s)
    ensures |held| <= s.capacity && |held| == s.head - s.tail
  {
    AtRest(s);
    seq(s.head - s.tail, i requires 0 <= i < s.head - s.tail => s.claims[s.tail + i].value)
  }

  /** With no operation under way the queue holds the pushed values from the tail on; every earlier one was returned. */
  lemma AtRest<T>(s: State<T>)
    requires Quiescent(s)
    ensures s.tail <= s.head <= s.tail + s.capacity
    ensures forall t | s.tail <= t < s.head ::
              s.SlotOf(t).turn == 2 * Turn(s.capacity, t) + 1 && s.SlotOf(t).storage == Live(s.claims[t].value)
    ensures forall t | 0 <= t < s.tail :: Recorded(s, t)
  {
    assert TicketOk(s, s.head) && !s.Published(s.head);
    forall t | 0 <= t < s.tail ensures s.Published(t) && Recorded(s, t) {
      assert TicketOk(s, t) && s.Released(t);
    }
    assert s.tail <= s.head;
    forall t | s.tail <= t < s.head
      ensures s.SlotOf(t).turn == 2 * Turn(s.capacity, t) + 1 && s.SlotOf(t).storage == Live(s.claims[t].value)
    {
      assert TicketOk(s, t) && StorageOk(s, t);
    }
    var inside := Range(s.tail, s.head);
    forall t, u | t in inside && u in inside && Idx(s.capacity, t) == Idx(s.capacity, u) ensures t == u {
      TicketIsUnique(s, t, u);
    }
    DistinctSlots(s.capacity, s.capacity, inside);
  }

  function Range(lo: nat, hi: nat): (range: set<nat>)
    requires lo <= hi
    ensures |range| == hi - lo
    ensures forall t: nat :: t in range <==> lo <= t < hi
  {
    if lo == hi then {} else Range(lo, hi - 1) + {hi - 1}
  }

  // ---- No deadlock ----

  /** No thread can move: a step of any of them changes nothing. */
  ghost predicate AtStandstill<T>(s: State<T>)
    requires s.Shape()
  {
    forall th | 0 <= th < |s.pcs| :: Next(s, Event.Step(th)) == s
  }

  /** A step that changes nothing is one of an idle thread, or a turn test that fails in a spin loop. */
  lemma StandingThread<T>(s: State<T>, th: ThreadId)
    requires Inv(s) && th < |s.pcs| && Next(s, Event.Step(th)) == s
    ensures match s.pcs[th]
            case Idle => true
            case EmplaceSpin(_, t) => s.SlotOf(t).turn != 2 * Turn(s.capacity, t)
            case PopSpin(t) => s.SlotOf(t).turn != 2 * Turn(s.capacity, t) + 1
            case _ => false
  {
    assert ThreadOk(s, th);
    var t := TicketOf(s.pcs[th]);
    assert TicketOk(s, t) && StorageOk(s, t);
    var pc := Next(s, Event.Step(th)).pcs[th];
  }

  /** At a standstill every push that has room has been published, and every pop that has a push released. */
  lemma {:induction false} StandstillTickets<T>(s: State<T>, t: nat)
    requires Inv(s) && AtStandstill(s)
    ensures t < s.head && t < s.tail + s.capacity ==> s.Published(t)
    ensures t < s.head && t < s.tail ==> s.Released(t)
    decreases t
  {
    assert TicketOk(s, t);
    if t < s.head && t < s.tail + s.capacity && !s.Published(t) {
      var th := s.claims[t].thread;
      StandingThread(s, th);
      OneLapEarlier(s, t);
      StandstillTickets(s, t - s.capacity);
    }
    if t < s.head && t < s.tail && !s.Released(t) {
      StandingThread(s, s.takers[t]);
    }
  }

  /**
   * No deadlock: when no thread can move, every thread inside an operation is a push that waits for room or a pop
   * that waits for a push, and there are not both kinds.
   */
  lemma NoDeadlock<T>(capacity: nat, threads: nat, schedule: seq<Event<T>>)
    requires capacity >= 1
    requires AtStandstill(Run<T>(capacity, threads, schedule))
    ensures
      var s := Run(capacity, threads, schedule);
      && (forall th | 0 <= th < threads ::
            match s.pcs[th]
            case Idle => true
            case EmplaceSpin(_, t) => t >= s.tail + capacity
            case PopSpin(t) => t >= s.head
            case _ => false)
      && (forall th, other | 0 <= th < threads && 0 <= other < threads ::
            !(s.pcs[th].EmplaceSpin? && s.pcs[other].PopSpin?))
  {
    RunInv(capacity, threads, schedule);
    var s := Run(capacity, threads, schedule);
    forall th | 0 <= th < threads
      ensures match s.pcs[th]
              case Idle => true
              case EmplaceSpin(_, t) => t < s.head && t >= s.tail + capacity
              case PopSpin(t) => t < s.tail && t >= s.head
              case _ => false
    {
      StandingThread(s, th);
      assert ThreadOk(s, th);
      StandstillTickets(s, TicketOf(s.pcs[th]));
    }
  }
}
