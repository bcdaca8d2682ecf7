/**
 * The bounded multi-producer multi-consumer queue, as a transition system.
 *
 * Every atomic access of the source (a load, a store, a compare-exchange or a fetch-add) is one step of one
 * thread, and so is every access to a slot's storage. `Exec` runs an arbitrary schedule of such steps,
 * so a statement about `Exec(.., schedule)` for all schedules is a statement about every interleaving.
 */
module MpmcQueue {

  type ThreadId = nat

  /** What a slot's aligned storage holds; a moved-from object is still alive until it is destroyed. */
  datatype Storage<T> = Empty | Live(value: T) | MovedFrom

  datatype Slot<T> = Slot(turn: nat, storage: Storage<T>)

  /** Where a thread stands: the next atomic access it will make, with its locals. */
  datatype Pc<T> =
    | Idle
    // emplace
    | EmplaceFetch(value: T)
    | EmplaceSpin(value: T, ticket: nat)
    // try_emplace
    | TryEmplaceLoad(value: T)
    | TryEmplaceTest(value: T, head: nat)
    | TryEmplaceCas(value: T, head: nat)
    | TryEmplaceReload(value: T, head: nat)
    // common end of emplace and try_emplace
    | PushConstruct(value: T, ticket: nat)
    | PushPublish(value: T, ticket: nat)
    // pop
    | PopFetch
    | PopSpin(ticket: nat)
    // try_pop
    | TryPopLoad
    | TryPopTest(tail: nat)
    | TryPopCas(tail: nat)
    | TryPopReload(tail: nat)
    // common end of pop and try_pop
    | PopMove(ticket: nat)
    | PopDestroy(ticket: nat, value: T)
    | PopRelease(ticket: nat, value: T)

  datatype Claim<T> = Claim(thread: ThreadId, value: T)

  datatype Delivery<T> = Delivery(thread: ThreadId, ticket: nat, value: T)

  function Idx(capacity: nat, ticket: nat): (i: nat)
    requires capacity >= 1
    ensures i < capacity
  {
    ticket % capacity
  }

  function Turn(capacity: nat, ticket: nat): nat
    requires capacity >= 1
  {
    ticket / capacity
  }

  /**
   * The shared memory of one queue and the threads using it, followed by three histories that no step
   * reads: which thread claimed each push ticket and with which value, which thread claimed each pop
   * ticket, and the pops that returned, in the order they did.
   */
  datatype State<T> = State(
    capacity: nat,
    slots: seq<Slot<T>>,
    head: nat,
    tail: nat,
    pcs: seq<Pc<T>>,
    claims: seq<Claim<T>>,
    takers: seq<ThreadId>,
    delivered: seq<Delivery<T>>)
  {
    ghost predicate Shape() {
      && capacity >= 1
      && |slots| == capacity
      && |claims| == head
      && |takers| == tail
    }

    function SlotOf(ticket: nat): Slot<T>
      requires Shape()
    {
      slots[Idx(capacity, ticket)]
    }

    /** The push of this ticket has stored its new turn. */
    predicate Published(ticket: nat)
      requires Shape()
    {
      SlotOf(ticket).turn > 2 * Turn(capacity, ticket)
    }

    /** The pop of this ticket has stored its new turn. */
    predicate Released(ticket: nat)
      requires Shape()
    {
      SlotOf(ticket).turn > 2 * Turn(capacity, ticket) + 1
    }

    function At(thread: ThreadId, pc: Pc<T>): State<T>
      requires thread < |pcs|
    {
      this.(pcs := pcs[thread := pc])
    }

    function WithSlot(ticket: nat, slot: Slot<T>): State<T>
      requires Shape()
    {
      this.(slots := slots[Idx(capacity, ticket) := slot])
    }
  }

  function Initial<T>(capacity: nat, threads: nat): State<T>
    requires capacity >= 1
  {
    State(capacity, seq(capacity, _ => Slot(0, Empty)), 0, 0, seq(threads, _ => Idle), [], [], [])
  }

  /** The operations a caller may start. */
  datatype Call<T> = Emplace(value: T) | TryEmplace(value: T) | Pop | TryPop

  function Entry<T>(call: Call<T>): Pc<T> {
    match call
    case Emplace(v) => EmplaceFetch(v)
    case TryEmplace(v) => TryEmplaceLoad(v)
    case Pop => PopFetch
    case TryPop => TryPopLoad
  }

  /** One step of a thread inside `emplace` or `try_emplace`. */
  function PushStep<T>(s: State<T>, th: ThreadId): (s': State<T>)
    requires s.Shape() && th < |s.pcs|
    ensures s'.Shape() && |s'.pcs| == |s.pcs| && s'.capacity == s.capacity
  {
    match s.pcs[th]
    case EmplaceFetch(v) =>
      s.(head := s.head + 1, claims := s.claims + [Claim(th, v)]).At(th, EmplaceSpin(v, s.head))
    case EmplaceSpin(v, t) =>
      if Turn(s.capacity, t) * 2 == s.SlotOf(t).turn then s.At(th, PushConstruct(v, t)) else s
    case TryEmplaceLoad(v) => s.At(th, TryEmplaceTest(v, s.head))
    case TryEmplaceTest(v, h) =>
      s.At(th, if Turn(s.capacity, h) * 2 == s.SlotOf(h).turn then TryEmplaceCas(v, h) else TryEmplaceReload(v, h))
    case TryEmplaceCas(v, h) =>
      if s.head == h then
        s.(head := h + 1, claims := s.claims + [Claim(th, v)]).At(th, PushConstruct(v, h))
      else
        s.At(th, TryEmplaceTest(v, s.head))
    case TryEmplaceReload(v, h) =>
      s.At(th, if s.head == h then Idle else TryEmplaceTest(v, s.head))
    case PushConstruct(v, t) =>
      s.WithSlot(t, s.SlotOf(t).(storage := Live(v))).At(th, PushPublish(v, t))
    case PushPublish(v, t) =>
      s.WithSlot(t, s.SlotOf(t).(turn := Turn(s.capacity, t) * 2 + 1)).At(th, Idle)
    case _ => s
  }

  /** One step of a thread inside `pop` or `try_pop`. */
  function PopStep<T>(s: State<T>, th: ThreadId): (s': State<T>)
    requires s.Shape() && th < |s.pcs|
    ensures s'.Shape() && |s'.pcs| == |s.pcs| && s'.capacity == s.capacity
  {
    match s.pcs[th]
    case PopFetch =>
      s.(tail := s.tail + 1, takers := s.takers + [th]).At(th, PopSpin(s.tail))
    case PopSpin(t) =>
      if Turn(s.capacity, t) * 2 + 1 == s.SlotOf(t).turn then s.At(th, PopMove(t)) else s
    case TryPopLoad => s.At(th, TryPopTest(s.tail))
    case TryPopTest(t) =>
      s.At(th, if Turn(s.capacity, t) * 2 + 1 == s.SlotOf(t).turn then TryPopCas(t) else TryPopReload(t))
    case TryPopCas(t) =>
      if s.tail == t then
        s.(tail := t + 1, takers := s.takers + [th]).At(th, PopMove(t))
      else
        s.At(th, TryPopTest(s.tail))
    case TryPopReload(t) =>
      s.At(th, if s.tail == t then Idle else TryPopTest(s.tail))
    case PopMove(t) =>
      if s.SlotOf(t).storage.Live? then
        s.WithSlot(t, s.SlotOf(t).(storage := MovedFrom)).At(th, PopDestroy(t, s.SlotOf(t).storage.value))
      else
        s // reading storage that holds no value; `StorageIsUsedSafely` shows this is never reached
    case PopDestroy(t, v) =>
      s.WithSlot(t, s.SlotOf(t).(storage := Empty)).At(th, PopRelease(t, v))
    case PopRelease(t, v) =>
      s.(delivered := s.delivered + [Delivery(th, t, v)])
      .WithSlot(t, s.SlotOf(t).(turn := Turn(s.capacity, t) * 2 + 2)).At(th, Idle)
    case _ => s
  }

  predicate InPush<T>(pc: Pc<T>) {
    || pc.EmplaceFetch? || pc.EmplaceSpin?
    || pc.TryEmplaceLoad? || pc.TryEmplaceTest? || pc.TryEmplaceCas? || pc.TryEmplaceReload?
    || pc.PushConstruct? || pc.PushPublish?
  }

  /** A scheduler decision: an idle thread starts an operation, or a thread inside one makes a step. */
  datatype Event<T> = Start(thread: ThreadId, call: Call<T>) | Step(thread: ThreadId)

  function Next<T>(s: State<T>, e: Event<T>): (s': State<T>)
    requires s.Shape()
    ensures s'.Shape() && |s'.pcs| == |s.pcs| && s'.capacity == s.capacity
  {
    if e.thread >= |s.pcs| then s
    else match e
      case Start(th, call) => if s.pcs[th].Idle? then s.At(th, Entry(call)) else s
      case Step(th) => if InPush(s.pcs[th]) then PushStep(s, th) else PopStep(s, th)
  }

  function Exec<T>(s: State<T>, schedule: seq<Event<T>>): (s': State<T>)
    requires s.Shape()
    ensures s'.Shape() && |s'.pcs| == |s.pcs| && s'.capacity == s.capacity
    decreases |schedule|
  {
    if schedule == [] then s
    else Next(Exec(s, schedule[..|schedule| - 1]), schedule[|schedule| - 1])
  }

  // ---- The inductive invariant ----

  predicate HoldsPush<T>(pc: Pc<T>, ticket: nat) {
    match pc
    case EmplaceSpin(_, t) => t == ticket
    case PushConstruct(_, t) => t == ticket
    case PushPublish(_, t) => t == ticket
    case _ => false
  }

  predicate HoldsPop<T>(pc: Pc<T>, ticket: nat) {
    match pc
    case PopSpin(t) => t == ticket
    case PopMove(t) => t == ticket
    case PopDestroy(t, _) => t == ticket
    case PopRelease(t, _) => t == ticket
    case _ => false
  }

  /** The claim a thread's program counter makes about the shared state. */
  ghost predicate ThreadOk<T>(s: State<T>, th: ThreadId)
    requires s.Shape() && th < |s.pcs|
  {
    match s.pcs[th]
    case EmplaceSpin(v, t) => t < s.head && s.claims[t] == Claim(th, v) && !s.Published(t)
    case TryEmplaceTest(_, h) => h <= s.head
    case TryEmplaceReload(_, h) => h <= s.head
    case TryEmplaceCas(_, h) => h <= s.head && (h == s.head ==> s.SlotOf(h).turn == 2 * Turn(s.capacity, h))
    case PushConstruct(v, t) =>
      t < s.head && s.claims[t] == Claim(th, v) && s.SlotOf(t).turn == 2 * Turn(s.capacity, t)
    case PushPublish(v, t) =>
      t < s.head && s.claims[t] == Claim(th, v) && s.SlotOf(t).turn == 2 * Turn(s.capacity, t)
    case PopSpin(t) => t < s.tail && s.takers[t] == th && !s.Released(t)
    case TryPopTest(t) => t <= s.tail
    case TryPopReload(t) => t <= s.tail
    case TryPopCas(t) => t <= s.tail && (t == s.tail ==> s.SlotOf(t).turn == 2 * Turn(s.capacity, t) + 1)
    case PopMove(t) => t < s.tail && s.takers[t] == th && s.SlotOf(t).turn == 2 * Turn(s.capacity, t) + 1
    case PopDestroy(t, v) =>
      && t < s.tail && s.takers[t] == th && s.SlotOf(t).turn == 2 * Turn(s.capacity, t) + 1
      && t < s.head && v == s.claims[t].value
    case PopRelease(t, v) =>
      && t < s.tail && s.takers[t] == th && s.SlotOf(t).turn == 2 * Turn(s.capacity, t) + 1
      && t < s.head && v == s.claims[t].value
    case _ => true
  }

  /** What the storage of a ticket's slot holds while the slot is on that ticket's turn. */
  ghost function ExpectedStorage<T>(s: State<T>, t: nat): Storage<T>
    requires s.Shape()
  {
    if s.SlotOf(t).turn == 2 * Turn(s.capacity, t) then
      if t < s.head && s.claims[t].thread < |s.pcs| && s.pcs[s.claims[t].thread] == PushPublish(s.claims[t].value, t)
      then Live(s.claims[t].value) else Empty
    else if t >= s.head then Empty
    else if t < s.tail && s.takers[t] < |s.pcs| && s.pcs[s.takers[t]] == PopDestroy(t, s.claims[t].value) then MovedFrom
    else if t < s.tail && s.takers[t] < |s.pcs| && s.pcs[s.takers[t]] == PopRelease(t, s.claims[t].value) then Empty
    else Live(s.claims[t].value)
  }

  /** What holds of every ticket, claimed or not. */
  ghost predicate TicketOk<T>(s: State<T>, t: nat)
    requires s.Shape()
  {
    && (s.Published(t) ==> t < s.head)
    && (s.Released(t) ==> t < s.tail)
    && (t < s.head && !s.Published(t) ==> s.claims[t].thread < |s.pcs| && HoldsPush(s.pcs[s.claims[t].thread], t))
    && (t < s.tail && !s.Released(t) ==> s.takers[t] < |s.pcs| && HoldsPop(s.pcs[s.takers[t]], t))
  }

  ghost predicate StorageOk<T>(s: State<T>, t: nat)
    requires s.Shape()
  {
    2 * Turn(s.capacity, t) <= s.SlotOf(t).turn <= 2 * Turn(s.capacity, t) + 1 ==>
      s.SlotOf(t).storage == ExpectedStorage(s, t)
  }

  /** The returned pops: each is of a released ticket, by the thread that claimed it, with the value pushed under it. */
  ghost predicate DeliveryOk<T>(s: State<T>, k: nat)
    requires s.Shape() && k < |s.delivered|
  {
    var d := s.delivered[k];
    && d.ticket < s.tail && d.ticket < s.head && s.Released(d.ticket)
    && s.takers[d.ticket] == d.thread
    && d.value == s.claims[d.ticket].value
    && (forall j | 0 <= j < k :: s.delivered[j].ticket != d.ticket)
    && (forall j | 0 <= j < k :: s.delivered[j].thread == d.thread ==> s.delivered[j].ticket < d.ticket)
    && (forall t | 0 <= t < s.tail :: d.thread < |s.pcs| && HoldsPop(s.pcs[d.thread], t) ==> d.ticket < t)
  }

  ghost predicate Recorded<T>(s: State<T>, t: nat) {
    exists k :: 0 <= k < |s.delivered| && s.delivered[k].ticket == t
  }

  ghost predicate Inv<T>(s: State<T>) {
    && s.Shape()
    && (forall th | 0 <= th < |s.pcs| :: ThreadOk(s, th))
    && (forall t: nat :: TicketOk(s, t))
    && (forall t: nat :: StorageOk(s, t))
    && (forall k | 0 <= k < |s.delivered| :: DeliveryOk(s, k))
    && (forall t: nat :: s.Released(t) ==> Recorded(s, t))
  }

  // ---- Preservation ----

  /** A ticket is determined by its slot and its turn. */
  lemma TicketIsUnique<T>(s: State<T>, t: nat, u: nat)
    requires s.Shape()
    ensures Idx(s.capacity, t) == Idx(s.capacity, u) && Turn(s.capacity, t) == Turn(s.capacity, u) ==> t == u
  {
    assert t == s.capacity * Turn(s.capacity, t) + Idx(s.capacity, t);
    assert u == s.capacity * Turn(s.capacity, u) + Idx(s.capacity, u);
  }

  lemma InitialInv<T>(capacity: nat, threads: nat)
    requires capacity >= 1
    ensures Inv(Initial<T>(capacity, threads))
  {
    var s := Initial<T>(capacity, threads);
    forall t: nat ensures TicketOk(s, t) && StorageOk(s, t) {
      assert s.SlotOf(t) == Slot(0, Empty);
      assert Turn(s.capacity, t) >= 0;
    }
  }

  /** The ticket a program counter works on, if any. */
  function TicketOf<T>(pc: Pc<T>): nat {
    match pc
    case EmplaceSpin(_, t) => t
    case TryEmplaceTest(_, t) => t
    case TryEmplaceCas(_, t) => t
    case TryEmplaceReload(_, t) => t
    case PushConstruct(_, t) => t
    case PushPublish(_, t) => t
    case PopSpin(t) => t
    case TryPopTest(t) => t
    case TryPopCas(t) => t
    case TryPopReload(t) => t
    case PopMove(t) => t
    case PopDestroy(t, _) => t
    case PopRelease(t, _) => t
    case _ => 0
  }

  lemma PushStepOwnThread<T>(s: State<T>, th: ThreadId)
    requires s.Shape() && th < |s.pcs| && ThreadOk(s, th) && TicketOk(s, s.head)
    ensures ThreadOk(PushStep(s, th), th)
  {}

  lemma PopMoveOwnThread<T>(s: State<T>, th: ThreadId)
    requires s.Shape() && th < |s.pcs| && ThreadOk(s, th) && s.pcs[th].PopMove?
    requires TicketOk(s, TicketOf(s.pcs[th])) && StorageOk(s, TicketOf(s.pcs[th]))
    ensures ThreadOk(PopStep(s, th), th)
  {}

  lemma PopStepOwnThread<T>(s: State<T>, th: ThreadId)
    requires s.Shape() && th < |s.pcs| && ThreadOk(s, th) && TicketOk(s, s.tail) && !s.pcs[th].PopMove?
    ensures ThreadOk(PopStep(s, th), th)
  {}

  /** Thread th owns the turn of ticket u's slot: it holds the push, or the pop, that the slot waits for. */
  ghost predicate OwnsTurn<T>(s: State<T>, th: ThreadId, u: nat)
    requires s.Shape()
  {
    || (s.SlotOf(u).turn == 2 * Turn(s.capacity, u) && u < s.head && s.claims[u].thread == th)
    || (s.SlotOf(u).turn == 2 * Turn(s.capacity, u) + 1 && u < s.tail && s.takers[u] == th)
  }

  /**
   * What one step of thread th can do to everybody else: claim the next push or pop ticket, and raise by one
   * the turn of the slot whose turn it owns. Nothing else that other threads rely on changes.
   */
  ghost predicate Evolves<T>(s: State<T>, s': State<T>, th: ThreadId) {
    && s.Shape() && s'.Shape() && s'.capacity == s.capacity && th < |s.pcs| == |s'.pcs|
    && (forall o | 0 <= o < |s.pcs| && o != th :: s'.pcs[o] == s.pcs[o])
    && s.claims <= s'.claims && s'.head <= s.head + 1
    && s.takers <= s'.takers && s'.tail <= s.tail + 1
    && s.delivered <= s'.delivered
    && (forall i | 0 <= i < s.capacity ::
         || s'.slots[i].turn == s.slots[i].turn
         || (&& i == Idx(s.capacity, TicketOf(s.pcs[th])) && OwnsTurn(s, th, TicketOf(s.pcs[th]))
             && s'.slots[i].turn == s.slots[i].turn + 1))
  }

  lemma PushStepEvolves<T>(s: State<T>, th: ThreadId)
    requires s.Shape() && th < |s.pcs| && ThreadOk(s, th)
    ensures Evolves(s, PushStep(s, th), th)
  {}

  lemma PopStepEvolves<T>(s: State<T>, th: ThreadId)
    requires s.Shape() && th < |s.pcs| && ThreadOk(s, th)
    ensures Evolves(s, PopStep(s, th), th)
  {}

  /** Interference freedom: no step of another thread breaks what a thread relies on. */
  lemma EvolvesOtherThread<T>(s: State<T>, s': State<T>, th: ThreadId, other: ThreadId)
    requires Evolves(s, s', th) && other < |s.pcs| && other != th && ThreadOk(s, other)
    ensures ThreadOk(s', other)
  {
    TicketIsUnique(s, TicketOf(s.pcs[th]), TicketOf(s.pcs[other]));
  }

  lemma PushStepTicket<T>(s: State<T>, th: ThreadId, t: nat)
    requires s.Shape() && th < |s.pcs| && ThreadOk(s, th) && TicketOk(s, t)
    ensures TicketOk(PushStep(s, th), t)
  {
    TicketIsUnique(s, TicketOf(s.pcs[th]), t);
  }

  lemma PopStepTicket<T>(s: State<T>, th: ThreadId, t: nat)
    requires s.Shape() && th < |s.pcs| && ThreadOk(s, th) && TicketOk(s, t)
    ensures TicketOk(PopStep(s, th), t)
  {
    TicketIsUnique(s, TicketOf(s.pcs[th]), t);
  }

  lemma PushStepStorage<T>(s: State<T>, th: ThreadId, t: nat)
    requires s.Shape() && th < |s.pcs| && ThreadOk(s, th) && TicketOk(s, t) && StorageOk(s, t)
    requires t < s.tail && s.takers[t] < |s.pcs| ==> ThreadOk(s, s.takers[t])
    ensures StorageOk(PushStep(s, th), t)
  {
    TicketIsUnique(s, TicketOf(s.pcs[th]), t);
  }

  lemma PopReleaseStorage<T>(s: State<T>, th: ThreadId, t: nat)
    requires s.Shape() && th < |s.pcs| && ThreadOk(s, th) && TicketOk(s, t) && StorageOk(s, t)
    requires t < s.head && s.claims[t].thread < |s.pcs| ==> ThreadOk(s, s.claims[t].thread)
    requires s.pcs[th].PopRelease? && StorageOk(s, TicketOf(s.pcs[th]))
    ensures StorageOk(PopStep(s, th), t)
  {
    TicketIsUnique(s, TicketOf(s.pcs[th]), t);
  }

  lemma PopStepStorage<T>(s: State<T>, th: ThreadId, t: nat)
    requires s.Shape() && th < |s.pcs| && ThreadOk(s, th) && TicketOk(s, t) && StorageOk(s, t)
    requires StorageOk(s, TicketOf(s.pcs[th]))
    requires t < s.head && s.claims[t].thread < |s.pcs| ==> ThreadOk(s, s.claims[t].thread)
    ensures StorageOk(PopStep(s, th), t)
  {
    if s.pcs[th].PopRelease? {
      PopReleaseStorage(s, th, t);
    } else {
      TicketIsUnique(s, TicketOf(s.pcs[th]), t);
    }
  }

  lemma OldDelivery<T>(s: State<T>, th: ThreadId, k: nat, push: bool)
    requires s.Shape() && th < |s.pcs| && k < |s.delivered|
    requires ThreadOk(s, th) && DeliveryOk(s, k)
    ensures DeliveryOk(if push then PushStep(s, th) else PopStep(s, th), k)
  {
    var s' := if push then PushStep(s, th) else PopStep(s, th);
    assert Evolves(s, s', th) by {
      if push { PushStepEvolves(s, th); } else { PopStepEvolves(s, th); }
    }
    var d := s.delivered[k];
    forall t | 0 <= t < s'.tail && d.thread < |s'.pcs| && HoldsPop(s'.pcs[d.thread], t)
      ensures d.ticket < t
    {
      assert t == s.tail || HoldsPop(s.pcs[d.thread], t);
    }
  }

  lemma NewDelivery<T>(s: State<T>, th: ThreadId)
    requires s.Shape() && th < |s.pcs| && s.pcs[th].PopRelease? && ThreadOk(s, th)
    requires forall k | 0 <= k < |s.delivered| :: DeliveryOk(s, k)
    ensures DeliveryOk(PopStep(s, th), |s.delivered|)
  {
    var t := s.pcs[th].ticket;
    forall j | 0 <= j < |s.delivered| ensures s.delivered[j].ticket != t
    {
      assert DeliveryOk(s, j);
    }
    forall j | 0 <= j < |s.delivered| && s.delivered[j].thread == th ensures s.delivered[j].ticket < t
    {
      assert DeliveryOk(s, j);
      assert HoldsPop(s.pcs[th], t);
    }
  }

  lemma StepRecorded<T>(s: State<T>, th: ThreadId, t: nat, push: bool)
    requires s.Shape() && th < |s.pcs| && ThreadOk(s, th)
    requires s.Released(t) ==> Recorded(s, t)
    ensures var s' := if push then PushStep(s, th) else PopStep(s, th);
            s'.Released(t) ==> Recorded(s', t)
  {
    var s' := if push then PushStep(s, th) else PopStep(s, th);
    if s'.Released(t) {
      if s.Released(t) {
        var k :| 0 <= k < |s.delivered| && s.delivered[k].ticket == t;
        assert s'.delivered[k].ticket == t;
      } else {
        TicketIsUnique(s, TicketOf(s.pcs[th]), t);
        assert s'.delivered[|s.delivered|].ticket == t;
      }
    }
  }

  lemma StepThreadOk<T>(s: State<T>, th: ThreadId, o: ThreadId, push: bool)
    requires s.Shape() && th < |s.pcs| && o < |s.pcs| && ThreadOk(s, th) && ThreadOk(s, o)
    requires TicketOk(s, s.head) && TicketOk(s, s.tail)
    requires TicketOk(s, TicketOf(s.pcs[th])) && StorageOk(s, TicketOf(s.pcs[th]))
    ensures ThreadOk(if push then PushStep(s, th) else PopStep(s, th), o)
  {
    if o == th {
      if push {
        PushStepOwnThread(s, th);
      } else if s.pcs[th].PopMove? {
        PopMoveOwnThread(s, th);
      } else {
        PopStepOwnThread(s, th);
      }
    } else if push {
      PushStepEvolves(s, th);
      EvolvesOtherThread(s, PushStep(s, th), th, o);
    } else {
      PopStepEvolves(s, th);
      EvolvesOtherThread(s, PopStep(s, th), th, o);
    }
  }

  lemma StepTicketOk<T>(s: State<T>, th: ThreadId, t: nat, push: bool)
    requires Inv(s) && th < |s.pcs|
    ensures var s' := if push then PushStep(s, th) else PopStep(s, th); TicketOk(s', t) && StorageOk(s', t)
  {
    assert ThreadOk(s, th) && TicketOk(s, t) && StorageOk(s, t) && StorageOk(s, TicketOf(s.pcs[th]));
    assert t < s.tail && s.takers[t] < |s.pcs| ==> ThreadOk(s, s.takers[t]);
    assert t < s.head && s.claims[t].thread < |s.pcs| ==> ThreadOk(s, s.claims[t].thread);
    if push {
      PushStepTicket(s, th, t);
      PushStepStorage(s, th, t);
    } else {
      PopStepTicket(s, th, t);
      PopStepStorage(s, th, t);
    }
  }

  lemma StepInv<T>(s: State<T>, th: ThreadId, push: bool)
    requires Inv(s) && th < |s.pcs|
    ensures Inv(if push then PushStep(s, th) else PopStep(s, th))
  {
    var s' := if push then PushStep(s, th) else PopStep(s, th);
    forall o | 0 <= o < |s'.pcs| ensures ThreadOk(s', o) {
      assert TicketOk(s, TicketOf(s.pcs[th])) && StorageOk(s, TicketOf(s.pcs[th]));
      StepThreadOk(s, th, o, push);
    }
    forall t: nat ensures TicketOk(s', t) && StorageOk(s', t) {
      StepTicketOk(s, th, t, push);
    }
    forall k | 0 <= k < |s'.delivered| ensures DeliveryOk(s', k) {
      if k < |s.delivered| { OldDelivery(s, th, k, push); } else { NewDelivery(s, th); }
    }
    forall t: nat | s'.Released(t) ensures Recorded(s', t) {
      StepRecorded(s, th, t, push);
    }
  }

  lemma StartInv<T>(s: State<T>, th: ThreadId, call: Call<T>)
    requires Inv(s) && th < |s.pcs| && s.pcs[th].Idle?
    ensures Inv(s.At(th, Entry(call)))
  {
    var s' := s.At(th, Entry(call));
    forall o | 0 <= o < |s'.pcs| ensures ThreadOk(s', o) {
      assert ThreadOk(s, o);
    }
    forall t: nat ensures TicketOk(s', t) && StorageOk(s', t) {
      assert TicketOk(s, t) && StorageOk(s, t);
    }
    forall k | 0 <= k < |s'.delivered| ensures DeliveryOk(s', k) {
      assert DeliveryOk(s, k);
    }
    forall t: nat | s'.Released(t) ensures Recorded(s', t) {
      assert s.Released(t);
      var k :| 0 <= k < |s.delivered| && s.delivered[k].ticket == t;
      assert s'.delivered[k].ticket == t;
    }
  }

  lemma NextInv<T>(s: State<T>, e: Event<T>)
    requires Inv(s)
    ensures Inv(Next(s, e))
  {
    if e.thread < |s.pcs| {
      match e
      case Start(th, call) => if s.pcs[th].Idle? { StartInv(s, th, call); }
      case Step(th) => StepInv(s, th, InPush(s.pcs[th]));
    }
  }

  /** The invariant holds at every point of every interleaving. */
  lemma {:induction false} ExecInv<T>(s: State<T>, schedule: seq<Event<T>>)
    requires Inv(s)
    ensures Inv(Exec(s, schedule))
    decreases |schedule|
  {
    if schedule == [] {
    } else {
      ExecInv(s, schedule[..|schedule| - 1]);
      NextInv(Exec(s, schedule[..|schedule| - 1]), schedule[|schedule| - 1]);
    }
  }
}
