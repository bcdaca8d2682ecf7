/**
 * The typed queue behind `AsyncSink`, used by one thread while no other operation is under way: what `push`,
 * `pollOne` and `poll` then do to the values it holds. Interleaved use is the subject of `MpmcQueueTheorems`.
 */
module BoundedQueue {
  import opened Wrappers
  import opened BitRounding
  import opened MpmcQueue
  import opened MpmcQueueTheorems

  /** All threads but one are outside the queue. */
  ghost predicate Alone<T>(s: State<T>, th: ThreadId) {
    Inv(s) && th < |s.pcs| && forall o | 0 <= o < |s.pcs| && o != th :: s.pcs[o].Idle?
  }

  /** How far a lone `try_pop` that found the tail at t has come. */
  ghost predicate PopStage<T>(s: State<T>, th: ThreadId, t: nat)
    requires Alone(s, th)
  {
    match s.pcs[th]
    case TryPopLoad => s.tail == t
    case TryPopTest(tail) => s.tail == t == tail
    case TryPopCas(tail) => s.tail == t == tail && t < s.head
    case TryPopReload(tail) => s.tail == t == tail && t >= s.head
    case PopMove(ticket) => s.tail == t + 1 && ticket == t < s.head
    case PopDestroy(ticket, _) => s.tail == t + 1 && ticket == t < s.head
    case PopRelease(ticket, _) => s.tail == t + 1 && ticket == t < s.head
    case Idle => if t < s.head then s.tail == t + 1 else s.tail == t
    case _ => false
  }

  function PopRank<T>(pc: Pc<T>): nat {
    match pc
    case TryPopLoad => 6
    case TryPopTest(_) => 5
    case TryPopCas(_) => 4
    case PopMove(_) => 3
    case PopDestroy(_, _) => 2
    case PopRelease(_, _) => 1
    case TryPopReload(_) => 1
    case _ => 0
  }

  lemma LonePopStep<T>(s: State<T>, th: ThreadId, t: nat)
    requires Alone(s, th) && PopStage(s, th, t) && !s.pcs[th].Idle?
    ensures var s' := PopStep(s, th);
            && Alone(s', th) && PopStage(s', th, t) && s'.claims == s.claims && |s'.pcs| == |s.pcs|
            && PopRank(s'.pcs[th]) < PopRank(s.pcs[th])
  {
    StepInv(s, th, false);
    assert ThreadOk(s, th) && TicketOk(s, t) && StorageOk(s, t);
    if s.pcs[th].TryPopTest? && t < s.head {
      LonePushesArePublished(s, th, t);
    }
  }

  lemma LonePushesArePublished<T>(s: State<T>, th: ThreadId, t: nat)
    requires Alone(s, th) && s.pcs[th] == TryPopTest(t) && s.tail == t < s.head
    ensures s.SlotOf(t).turn == 2 * Turn(s.capacity, t) + 1
  {
    assert TicketOk(s, t);
  }

  /** How far a lone `emplace` that takes ticket t has come. */
  ghost predicate PushStage<T>(s: State<T>, th: ThreadId, v: T, t: nat)
    requires Alone(s, th)
  {
    match s.pcs[th]
    case EmplaceFetch(w) => w == v && s.head == t
    case EmplaceSpin(w, ticket) =>
      w == v && ticket == t && s.head == t + 1 && s.SlotOf(t).turn == 2 * Turn(s.capacity, t)
    case PushConstruct(w, ticket) => w == v && ticket == t && s.head == t + 1
    case PushPublish(w, ticket) => w == v && ticket == t && s.head == t + 1
    case Idle => s.head == t + 1
    case _ => false
  }

  function PushRank<T>(pc: Pc<T>): nat {
    match pc
    case EmplaceFetch(_) => 4
    case EmplaceSpin(_, _) => 3
    case PushConstruct(_, _) => 2
    case PushPublish(_, _) => 1
    case _ => 0
  }

  lemma LonePushStep<T>(s: State<T>, th: ThreadId, v: T, t: nat)
    requires Alone(s, th) && PushStage(s, th, v, t) && !s.pcs[th].Idle?
    requires s.pcs[th].EmplaceFetch? ==> s.SlotOf(t).turn == 2 * Turn(s.capacity, t)
    ensures var s' := PushStep(s, th);
            && Alone(s', th) && PushStage(s', th, v, t) && s'.tail == s.tail && |s'.pcs| == |s.pcs|
            && s'.capacity == s.capacity
            && s'.claims == (if s.pcs[th].EmplaceFetch? then s.claims + [Claim(th, v)] else s.claims)
            && PushRank(s'.pcs[th]) < PushRank(s.pcs[th])
  {
    StepInv(s, th, true);
    assert ThreadOk(s, th);
  }

  /** At rest the head's slot is free unless the queue is full. */
  lemma RoomAtRest<T>(s: State<T>)
    requires Quiescent(s) && s.head < s.tail + s.capacity
    ensures s.SlotOf(s.head).turn == 2 * Turn(s.capacity, s.head)
  {
    var h, c := s.head, s.capacity;
    assert TicketOk(s, h);
    assert h >= c ==> TicketOk(s, h - c) && s.Released(h - c);
    if s.SlotOf(h).turn < 2 * Turn(c, h) {
      OneLapEarlier(s, h);
    }
  }

  lemma NextLap(c: nat, t: nat)
    requires c >= 1
    ensures Idx(c, t + c) == Idx(c, t) && Turn(c, t + c) == Turn(c, t) + 1
  {
    var u := CurrentTicket(c, Idx(c, t), Turn(c, t) + 1);
    assert t == c * Turn(c, t) + Idx(c, t);
    assert u == c * Turn(c, u) + Idx(c, u);
    assert c * (Turn(c, t) + 1) == c * Turn(c, t) + c;
  }

  /** On a full queue at rest, `emplace` takes a ticket for its value and then makes no headway by itself. */
  lemma PushOnFullQueueWaits<T>(s: State<T>, th: ThreadId, v: T)
    requires Quiescent(s) && th < |s.pcs| && s.head == s.tail + s.capacity
    ensures var started := Next(s, Start(th, Emplace(v)));
            var claimed := Next(started, Event.Step(th));
            && claimed.claims == s.claims + [Claim(th, v)] && !claimed.pcs[th].Idle?
            && Next(claimed, Event.Step(th)) == claimed
  {
    AtRest(s);
    NextLap(s.capacity, s.tail);
  }

  lemma FitsWord(size: nat)
    requires size <= Pow2(WORD_BITS - 1)
    ensures size < Pow2(WORD_BITS)
  {}

  lemma ZeroMeansWrapped(size: nat, capacity: nat)
    requires size <= Pow2(WORD_BITS - 1) ==> IsLeastPower(capacity, if size == 0 then 1 else size)
    requires capacity == 0
    ensures size > Pow2(WORD_BITS - 1)
  {}

  lemma StartsEmpty<T>(capacity: nat, threads: nat)
    requires capacity >= 1
    ensures var s := Initial<T>(capacity, threads); Quiescent(s) && Held(s) == []
  {
    InitialInv<T>(capacity, threads);
  }

  class BoundedTypedConcurrentAsyncQueue<T> {
    var m_queue: State<T>
    /** The entries given to the handler so far. */
    var handled: seq<T>
    const thread: ThreadId

    ghost predicate Valid()
      reads this
    {
      Quiescent(m_queue) && thread < |m_queue.pcs|
    }

    ghost function Contents(): seq<T>
      requires Valid()
      reads this
    {
      Held(m_queue)
    }

    /** The queue's capacity is the requested size rounded up. */
    constructor (size: nat, threads: nat, thread: ThreadId)
      requires size <= Pow2(WORD_BITS - 1) && thread < threads
      ensures Valid() && Contents() == [] && handled == []
      ensures IsLeastPower(m_queue.capacity, if size == 0 then 1 else size)
    {
      hide Quiescent, Held, Pow2;
      FitsWord(size);
      var capacity := RoundNextPowerOfTwo(size);
      InitialInv<T>(capacity, threads);
      m_queue := Initial(capacity, threads);
      handled := [];
      this.thread := thread;
      new;
      StartsEmpty<T>(capacity, threads);
    }

    /** The same for any size a caller may pass: beyond 2^63 the capacity wraps to 0, which the queue refuses. */
    static method Create(size: nat, threads: nat, thread: ThreadId)
      returns (queue: Option<BoundedTypedConcurrentAsyncQueue<T>>)
      requires size < Pow2(WORD_BITS) && thread < threads
      ensures queue.None? <==> size > Pow2(WORD_BITS - 1)
      ensures queue.Some? ==>
                && fresh(queue.value) && queue.value.Valid()
                && queue.value.Contents() == [] && queue.value.handled == []
                && IsLeastPower(queue.value.m_queue.capacity, if size == 0 then 1 else size)
    {
      hide Pow2, IsLeastPower;
      var capacity := RoundNextPowerOfTwo(size);
      if capacity < 1 {
        ZeroMeansWrapped(size, capacity);
        return None;
      }
      var q := new BoundedTypedConcurrentAsyncQueue<T>(size, threads, thread);
      return Some(q);
    }

    /** Needs room: on a full queue `emplace` spins until another thread pops. */
    method Push(entry: T)
      requires Valid() && |Contents()| < m_queue.capacity
      modifies this`m_queue
      ensures Valid() && Contents() == old(Contents()) + [entry] && m_queue.capacity == old(m_queue.capacity)
    {
      ghost var before := m_queue;
      AtRest(m_queue);
      RoomAtRest(m_queue);
      NextInv(m_queue, Start(thread, Emplace(entry)));
      m_queue := Next(m_queue, Start(thread, Emplace(entry)));
      while !m_queue.pcs[thread].Idle?
        invariant |m_queue.pcs| == |before.pcs|
        invariant Alone(m_queue, thread) && PushStage(m_queue, thread, entry, before.head)
        invariant m_queue.pcs[thread].EmplaceFetch? ==>
                    m_queue.SlotOf(before.head).turn == 2 * Turn(m_queue.capacity, before.head)
        invariant m_queue.tail == before.tail && m_queue.capacity == before.capacity
        invariant m_queue.claims == if m_queue.pcs[thread].EmplaceFetch? then before.claims
                                    else before.claims + [Claim(thread, entry)]
        decreases PushRank(m_queue.pcs[thread])
      {
        LonePushStep(m_queue, thread, entry, before.head);
        m_queue := PushStep(m_queue, thread);
      }
    }

    method TryPop() returns (entry: Option<T>)
      requires Valid()
      modifies this`m_queue
      ensures Valid() && m_queue.capacity == old(m_queue.capacity)
      ensures if old(Contents()) == [] then entry.None? && Contents() == []
              else entry == Some(old(Contents())[0]) && Contents() == old(Contents())[1..]
    {
      ghost var before := m_queue;
      AtRest(m_queue);
      NextInv(m_queue, Start(thread, Call<T>.TryPop));
      m_queue := Next(m_queue, Start(thread, Call<T>.TryPop));
      entry := None;
      while !m_queue.pcs[thread].Idle?
        invariant |m_queue.pcs| == |before.pcs|
        invariant Alone(m_queue, thread) && PopStage(m_queue, thread, before.tail)
        invariant m_queue.claims == before.claims && m_queue.capacity == before.capacity
        invariant m_queue.pcs[thread].Idle? && before.tail < m_queue.head ==>
                    entry == Some(before.claims[before.tail].value)
        invariant !m_queue.pcs[thread].Idle? || before.tail >= m_queue.head ==> entry.None?
        decreases PopRank(m_queue.pcs[thread])
      {
        LonePopStep(m_queue, thread, before.tail);
        if m_queue.pcs[thread].PopRelease? {
          assert ThreadOk(m_queue, thread);
          entry := Some(m_queue.pcs[thread].value);
        }
        m_queue := PopStep(m_queue, thread);
      }
    }

    method PollOne() returns (count: nat)
      requires Valid()
      modifies this
      ensures Valid() && m_queue.capacity == old(m_queue.capacity)
      ensures if old(Contents()) == [] then count == 0 && Contents() == [] && handled == old(handled)
              else count == 1 && Contents() == old(Contents())[1..] && handled == old(handled) + [old(Contents())[0]]
    {
      var entry := TryPop();
      if entry.Some? {
        handled := handled + [entry.value];
        return 1;
      }
      return 0;
    }

    /** Hands every entry to the handler, oldest first, and counts them. */
    method Poll() returns (totalCount: nat)
      requires Valid()
      modifies this
      ensures Valid() && m_queue.capacity == old(m_queue.capacity)
      ensures Contents() == [] && handled == old(handled) + old(Contents()) && totalCount == |old(Contents())|
    {
      totalCount := 0;
      while true
        invariant Valid() && m_queue.capacity == old(m_queue.capacity)
        invariant handled + Contents() == old(handled) + old(Contents())
        invariant totalCount + |Contents()| == |old(Contents())|
        decreases |Contents()|
      {
        var entry := TryPop();
        if entry.None? {
          break;
        }
        handled := handled + [entry.value];
        totalCount := totalCount + 1;
      }
    }
  }
}
