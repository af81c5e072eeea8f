/**
  The request/response consumer: batches of requests, a listener that signals a
  condition variable for every response that arrives, and the steps of both threads
  interleaved in any order.

  The middleware is taken to call the listener once per arriving sample and to answer
  only ids that were requested.
 */
module ReqResp {

  const MAX_PARALLEL := 100

  /** A sample in the reader: a response, or a sample without valid data. */
  datatype Sample = Response(id: nat) | NoData

  /** Where the consumer is.  `Waiting` is before pthread_cond_wait, `Blocked` inside it,
      `Woken` after the wake-up and before the mutex is held again. */
  datatype Consumer =
    | Sending(j: nat)
    | Waiting
    | Blocked
    | Woken
    | Taking
    | Finished

  /** Where the listener call that holds the mutex is, if there is one. */
  datatype Listener = Idle | Locked | Signalled

  /** `pending` counts the listener calls that have not yet locked the mutex.  `answered` are the
      ids of the responses taken, `arrived` those of the responses that came: they record the
      run and steer nothing. */
  datatype State = State(
    parallelism: nat,
    batchesLeft: nat,
    consumer: Consumer,
    lastId: nat,
    oreq: seq<nat>,
    noreq: int,
    queue: multiset<Sample>,
    pending: nat,
    listener: Listener,
    answered: set<nat>,
    arrived: set<nat>)

  datatype Step =
    | Send
    | Block
    | Arrive(sample: Sample, again: bool)
    | Lock
    | Signal
    | Unlock
    | WakeUp
    | Reacquire
    | Take(taken: Sample)
    | TakeNothing

  predicate ConsumerHolds(c: Consumer) {
    c.Sending? || c.Waiting? || c.Taking?
  }

  predicate MutexFree(s: State) {
    !ConsumerHolds(s.consumer) && s.listener.Idle?
  }

  /** The slots equal to `id`. */
  function Matches(slots: seq<nat>, id: nat): nat {
    if slots == [] then 0 else (if slots[0] == id then 1 else 0) + Matches(slots[1..], id)
  }

  function Cleared(slots: seq<nat>, id: nat): (r: seq<nat>)
    ensures |r| == |slots|
    ensures forall k :: 0 <= k < |slots| ==> r[k] == if slots[k] == id then 0 else slots[k]
  {
    seq(|slots|, k requires 0 <= k < |slots| => if slots[k] == id then 0 else slots[k])
  }

  /** The loop that strikes out the requests a response answers. */
  method ClearSlots(oreq: array<nat>, parallelism: nat, before: int, id: nat) returns (noreq: int)
    requires parallelism <= oreq.Length
    modifies oreq
    ensures oreq[..parallelism] == Cleared(old(oreq[..parallelism]), id)
    ensures oreq[parallelism..] == old(oreq[parallelism..])
    ensures noreq == before - Matches(old(oreq[..parallelism]), id)
  {
    noreq := before;
    var k := 0;
    while k < parallelism
      invariant 0 <= k <= parallelism
      invariant forall j :: 0 <= j < k ==> oreq[j] == old(if oreq[j] == id then 0 else oreq[j])
      invariant forall j :: k <= j < oreq.Length ==> oreq[j] == old(oreq[j])
      invariant noreq == before - Matches(old(oreq[..k]), id)
    {
      MatchesOne(old(oreq[..]), k, id);
      assert old(oreq[..])[..k] == old(oreq[..k]) && old(oreq[..])[..k + 1] == old(oreq[..k + 1]);
      if id == oreq[k] {
        oreq[k] := 0;
        noreq := noreq - 1;
      }
      k := k + 1;
    }
  }

  lemma {:induction false} MatchesOne(slots: seq<nat>, k: nat, id: nat)
    requires k < |slots|
    ensures Matches(slots[..k + 1], id) == Matches(slots[..k], id) + if slots[k] == id then 1 else 0
    decreases k
  {
    if k > 0 {
      MatchesOne(slots[1..], k - 1, id);
      assert slots[1..][..k] == slots[..k + 1][1..] && slots[1..][..k - 1] == slots[..k][1..];
    }
  }

  /** The start of the next batch, or the end. */
  function NextBatch(s: State): State {
    if s.batchesLeft == 0 then s.(consumer := Finished)
    else s.(consumer := Sending(0), batchesLeft := s.batchesLeft - 1)
  }

  predicate Enabled(s: State, step: Step) {
    match step
    case Send => s.consumer.Sending? && 0 <= s.noreq < |s.oreq|
    case Block => s.consumer.Waiting?
    case Arrive(sample, again) =>
      && (sample.Response? ==> 1 <= sample.id <= s.lastId)
      && (again ==> sample in s.queue)
    case Lock => s.pending > 0 && MutexFree(s)
    case Signal => s.listener.Locked?
    case Unlock => s.listener.Signalled?
    case WakeUp => s.consumer.Blocked?
    case Reacquire => s.consumer.Woken? && s.listener.Idle?
    case Take(taken) => s.consumer.Taking? && taken in s.queue
    case TakeNothing => s.consumer.Taking? && s.queue == multiset{}
  }

  function Next(s: State, step: Step): State
    requires Enabled(s, step) && s.parallelism <= |s.oreq|
  {
    match step
    case Send =>
      var id := s.lastId + 1;
      s.(lastId := id, oreq := s.oreq[s.noreq := id], noreq := s.noreq + 1,
         consumer := if s.consumer.j + 1 < s.parallelism then Sending(s.consumer.j + 1) else Waiting)
    case Block => s.(consumer := Blocked)
    case Arrive(sample, again) =>
      s.(queue := if again then s.queue else s.queue + multiset{sample}, pending := s.pending + 1,
         arrived := if sample.Response? then s.arrived + {sample.id} else s.arrived)
    case Lock => s.(pending := s.pending - 1, listener := Locked)
    case Signal => s.(listener := Signalled, consumer := if s.consumer.Blocked? then Woken else s.consumer)
    case Unlock => s.(listener := Idle)
    case WakeUp => s.(consumer := Woken)
    case Reacquire => s.(consumer := Taking)
    case TakeNothing => s.(consumer := Waiting)
    case Take(taken) =>
      var s1 := s.(queue := s.queue - multiset{taken});
      var s2 := if taken.NoData? then s1
                else s1.(noreq := s.noreq - Matches(s.oreq[..s.parallelism], taken.id),
                         oreq := Cleared(s.oreq[..s.parallelism], taken.id) + s.oreq[s.parallelism..],
                         answered := s.answered + {taken.id});
      if s2.noreq > 0 then s2 else NextBatch(s2)
  }

  /** The start: the slots hold whatever was on the stack. */
  function Init(parallelism: nat, batches: nat, slots: seq<nat>): State {
    NextBatch(State(parallelism, batches, Waiting, 0, slots, 0, multiset{}, 0, Idle, {}, {}))
  }

  // ----- the invariant

  /** The first id of the current batch that has been sent. */
  function BatchStart(s: State): int {
    if s.consumer.Sending? then s.lastId - s.consumer.j + 1 else s.lastId - s.parallelism + 1
  }

  /** A response to the current batch is in the reader. */
  ghost predicate AnswerQueued(s: State) {
    exists id: nat :: BatchStart(s) <= id <= s.lastId && Response(id) in s.queue
  }

  ghost predicate Shape(s: State) {
    && 1 <= s.parallelism <= MAX_PARALLEL && |s.oreq| == MAX_PARALLEL
    && (s.listener != Idle ==> !ConsumerHolds(s.consumer))
    && (s.consumer.Sending? ==> s.consumer.j < s.parallelism && s.noreq == s.consumer.j)
    && (!s.consumer.Finished? ==> 1 <= BatchStart(s))
  }

  /** While sending, the slots used hold the ids sent; later, each slot holds the id of its request
      until that is answered, and 0 after. */
  ghost predicate Slots(s: State)
    requires Shape(s)
  {
    if s.consumer.Sending? then
      forall k :: 0 <= k < s.consumer.j ==> s.oreq[k] == BatchStart(s) + k
    else if s.consumer.Finished? then true
    else
      forall k :: 0 <= k < s.parallelism ==>
        s.oreq[k] == if BatchStart(s) + k in s.answered then 0 else BatchStart(s) + k
  }

  /** Nonzero slots. */
  function Outstanding(slots: seq<nat>): nat {
    if slots == [] then 0 else (if slots[0] != 0 then 1 else 0) + Outstanding(slots[1..])
  }

  ghost predicate Counted(s: State)
    requires Shape(s)
  {
    !s.consumer.Sending? && !s.consumer.Finished? ==>
      s.noreq == Outstanding(s.oreq[..s.parallelism]) && s.noreq > 0
  }

  /** Every id before the current batch is answered; no id of a batch is answered while it is sent. */
  ghost predicate Barrier(s: State) {
    && (forall id: nat :: 1 <= id < BatchStart(s) ==> id in s.answered)
    && (forall id: nat :: id in s.answered ==> 1 <= id <= s.lastId)
    && (s.consumer.Sending? ==> forall id: nat :: id in s.answered ==> id < BatchStart(s))
    && (s.consumer.Finished? ==> forall id: nat :: 1 <= id <= s.lastId ==> id in s.answered)
  }

  /** Whenever the consumer is about to wait or waits and an answer is there, some listener call has
      still to signal. */
  ghost predicate WakeUpDue(s: State) {
    && (s.consumer.Sending? || s.consumer.Waiting? ==> AnswerQueued(s) ==> s.pending > 0)
    && (s.consumer.Blocked? ==> AnswerQueued(s) ==> s.pending > 0 || s.listener.Locked?)
  }

  /** No response is lost between arriving and being taken. */
  ghost predicate NothingLost(s: State) {
    && (forall id: nat :: id in s.arrived ==> id in s.answered || Response(id) in s.queue)
    && (forall id: nat :: Response(id) in s.queue ==> 1 <= id <= s.lastId)
  }

  ghost predicate Inv(s: State) {
    Shape(s) && Slots(s) && Counted(s) && Barrier(s) && WakeUpDue(s) && NothingLost(s)
  }

  // ----- counting slots

  lemma {:induction false} OutstandingAll(slots: seq<nat>)
    requires forall k :: 0 <= k < |slots| ==> slots[k] != 0
    ensures Outstanding(slots) == |slots|
    decreases slots
  {
    if slots != [] { OutstandingAll(slots[1..]); }
  }

  lemma {:induction false} OutstandingNone(slots: seq<nat>)
    requires Outstanding(slots) == 0
    ensures forall k :: 0 <= k < |slots| ==> slots[k] == 0
    decreases slots
  {
    if slots != [] {
      OutstandingNone(slots[1..]);
      assert forall k :: 1 <= k < |slots| ==> slots[k] == slots[1..][k - 1];
    }
  }

  lemma {:induction false} OutstandingCleared(slots: seq<nat>, id: nat)
    requires id != 0
    ensures Outstanding(Cleared(slots, id)) == Outstanding(slots) - Matches(slots, id)
    decreases slots
  {
    if slots != [] {
      OutstandingCleared(slots[1..], id);
      assert Cleared(slots, id)[1..] == Cleared(slots[1..], id);
    }
  }

  lemma {:induction false} NoMatches(slots: seq<nat>, id: nat)
    requires forall k :: 0 <= k < |slots| ==> slots[k] != id
    ensures Matches(slots, id) == 0
    decreases slots
  {
    if slots != [] { NoMatches(slots[1..], id); }
  }

  // ----- every step keeps the invariant

  lemma InitInv(parallelism: nat, batches: nat, slots: seq<nat>)
    requires 1 <= parallelism <= MAX_PARALLEL == |slots|
    ensures Inv(Init(parallelism, batches, slots))
  {
  }

  lemma SendInv(s: State)
    requires Inv(s) && Enabled(s, Send)
    ensures Inv(Next(s, Send))
  {
    var s' := Next(s, Send);
    assert BatchStart(s') == BatchStart(s);
    if s'.consumer.Waiting? {
      OutstandingAll(s'.oreq[..s'.parallelism]);
    }
    assert AnswerQueued(s') ==> AnswerQueued(s);
  }

  lemma ListenerInv(s: State, step: Step)
    requires Inv(s) && Enabled(s, step)
    requires step.Block? || step.Lock? || step.Signal? || step.Unlock? || step.WakeUp? || step.Reacquire? || step.TakeNothing?
    ensures Inv(Next(s, step))
  {
    hide Outstanding;
    var s' := Next(s, step);
    assert BatchStart(s') == BatchStart(s);
    assert AnswerQueued(s') ==> AnswerQueued(s);
  }

  lemma ArriveInv(s: State, step: Step)
    requires Inv(s) && step.Arrive? && Enabled(s, step)
    ensures Inv(Next(s, step))
  {
    hide Outstanding;
    assert BatchStart(Next(s, step)) == BatchStart(s);
  }

  /** The state after a sample was taken, before the test for the end of the batch. */
  function Processed(s: State, taken: Sample): State
    requires s.parallelism <= |s.oreq|
  {
    var s1 := s.(queue := s.queue - multiset{taken});
    if taken.NoData? then s1
    else s1.(noreq := s.noreq - Matches(s.oreq[..s.parallelism], taken.id),
             oreq := Cleared(s.oreq[..s.parallelism], taken.id) + s.oreq[s.parallelism..],
             answered := s.answered + {taken.id})
  }

  lemma ProcessedCount(s: State, taken: Sample)
    requires Inv(s) && Enabled(s, Take(taken))
    ensures Processed(s, taken).noreq == Outstanding(Processed(s, taken).oreq[..s.parallelism])
  {
    if taken.Response? {
      var slots := s.oreq[..s.parallelism];
      OutstandingCleared(slots, taken.id);
      assert Processed(s, taken).oreq[..s.parallelism] == Cleared(slots, taken.id);
    }
  }

  lemma ProcessedInv(s: State, taken: Sample)
    requires Inv(s) && Enabled(s, Take(taken))
    ensures var s' := Processed(s, taken);
            Shape(s') && Slots(s') && Barrier(s') && WakeUpDue(s') && NothingLost(s')
  {
    hide Outstanding, Matches, Counted;
    var s' := Processed(s, taken);
    assert BatchStart(s') == BatchStart(s);
    forall id: nat | id in s'.arrived ensures id in s'.answered || Response(id) in s'.queue {
      if Response(id) in s.queue && taken != Response(id) {
        assert s'.queue[Response(id)] == s.queue[Response(id)];
      }
    }
    assert forall x :: x in s'.queue ==> x in s.queue;
  }

  /** A batch is over when all its slots are cleared. */
  lemma BatchDone(s: State)
    requires Shape(s) && Slots(s) && s.consumer.Taking? && Outstanding(s.oreq[..s.parallelism]) == 0
    ensures forall id: nat :: BatchStart(s) <= id <= s.lastId ==> id in s.answered
  {
    OutstandingNone(s.oreq[..s.parallelism]);
    forall id: nat | BatchStart(s) <= id <= s.lastId ensures id in s.answered {
      var k := id - BatchStart(s);
      assert s.oreq[..s.parallelism][k] == 0;
      assert s.oreq[k] == 0 && BatchStart(s) + k == id;
    }
  }

  lemma TakeInv(s: State, taken: Sample)
    requires Inv(s) && Enabled(s, Take(taken))
    ensures Inv(Next(s, Take(taken)))
  {
    hide Outstanding, Matches;
    var p, s' := Processed(s, taken), Next(s, Take(taken));
    ProcessedInv(s, taken);
    ProcessedCount(s, taken);
    if p.noreq > 0 {
      assert s' == p;
    } else {
      BatchDone(p);
      NextBatchInv(p);
    }
  }

  lemma NextBatchInv(p: State)
    requires Shape(p) && Barrier(p) && NothingLost(p) && p.consumer.Taking? && p.noreq == 0
    requires forall id: nat :: BatchStart(p) <= id <= p.lastId ==> id in p.answered
    ensures Inv(NextBatch(p))
  {
    hide Outstanding, Matches;
    var s' := NextBatch(p);
    forall id: nat | 1 <= id <= p.lastId ensures id in p.answered {
      if id < BatchStart(p) { } else { }
    }
    assert s'.consumer.Sending? ==> !AnswerQueued(s');
  }

  /** Every step of every thread keeps the invariant. */
  lemma StepInv(s: State, step: Step)
    requires Inv(s) && Enabled(s, step)
    ensures Inv(Next(s, step))
  {
    hide Inv, Next;
    match step
    case Send => SendInv(s);
    case Arrive(_, _) => ArriveInv(s, step);
    case Take(taken) => TakeInv(s, taken);
    case _ => ListenerInv(s, step);
  }

  // ----- runs

  /** Steps that can be taken one after the other. */
  ghost predicate IsRun(s: State, steps: seq<Step>)
    decreases steps
  {
    steps == [] || (s.parallelism <= |s.oreq| && Enabled(s, steps[0]) && IsRun(Next(s, steps[0]), steps[1..]))
  }

  ghost function After(s: State, steps: seq<Step>): State
    requires IsRun(s, steps)
    decreases steps
  {
    if steps == [] then s else After(Next(s, steps[0]), steps[1..])
  }

  lemma {:induction false} RunInv(s: State, steps: seq<Step>)
    requires Inv(s) && IsRun(s, steps)
    ensures Inv(After(s, steps))
    decreases steps
  {
    hide Inv;
    if steps != [] {
      StepInv(s, steps[0]);
      RunInv(Next(s, steps[0]), steps[1..]);
    }
  }

  ghost predicate Reachable(s: State) {
    exists parallelism: nat, batches: nat, slots: seq<nat>, steps: seq<Step> ::
      Reaches(parallelism, batches, slots, steps, s)
  }

  ghost predicate Reaches(parallelism: nat, batches: nat, slots: seq<nat>, steps: seq<Step>, s: State) {
    && 1 <= parallelism <= MAX_PARALLEL == |slots|
    && IsRun(Init(parallelism, batches, slots), steps) && s == After(Init(parallelism, batches, slots), steps)
  }

  lemma ReachableInv(s: State)
    requires Reachable(s)
    ensures Inv(s)
  {
    hide Inv;
    var parallelism: nat, batches: nat, slots: seq<nat>, steps: seq<Step> :|
      Reaches(parallelism, batches, slots, steps, s);
    InitInv(parallelism, batches, slots);
    RunInv(Init(parallelism, batches, slots), steps);
  }

  // ----- the main results

  /** No lost wake-up: a consumer that is blocked while a response to its batch is there will be
      signalled by a listener call that has not signalled yet. */
  lemma NoLostWakeUp(s: State)
    requires Reachable(s) && s.consumer.Blocked? && AnswerQueued(s)
    ensures s.pending > 0 || s.listener.Locked?
  {
    hide Outstanding, AnswerQueued;
    ReachableInv(s);
  }

  /** A consumer that is blocked with no signal to come waits for responses that never arrived, and
      there is at least one. */
  lemma AsleepMeansUnanswered(s: State)
    requires Reachable(s) && s.consumer.Blocked? && s.pending == 0 && !s.listener.Locked?
    ensures s.parallelism <= |s.oreq|
    ensures forall k :: 0 <= k < s.parallelism && s.oreq[k] != 0 ==> s.oreq[k] !in s.arrived
    ensures exists k :: 0 <= k < s.parallelism && s.oreq[k] != 0
  {
    ReachableInv(s);
    assert !AnswerQueued(s);
    forall k | 0 <= k < s.parallelism && s.oreq[k] != 0 ensures s.oreq[k] !in s.arrived {
      assert s.oreq[k] !in s.answered;
      assert BatchStart(s) <= s.oreq[k] <= s.lastId;
    }
    if forall k :: 0 <= k < s.parallelism ==> s.oreq[k] == 0 {
      AllZero(s.oreq[..s.parallelism]);
    }
  }

  lemma {:induction false} AllZero(slots: seq<nat>)
    requires forall k :: 0 <= k < |slots| ==> slots[k] == 0
    ensures Outstanding(slots) == 0
    decreases slots
  {
    if slots != [] { AllZero(slots[1..]); }
  }

  /** The outstanding count is the number of non-zero slots, and a batch is sent only after every id
      of all earlier batches was answered. */
  lemma BatchBarrier(s: State)
    requires Reachable(s)
    ensures s.parallelism <= |s.oreq|
    ensures s.consumer.Sending? ==> forall id: nat :: 1 <= id <= s.lastId - s.consumer.j ==> id in s.answered
    ensures s.consumer.Finished? ==> forall id: nat :: 1 <= id <= s.lastId ==> id in s.answered
    ensures s.consumer.Waiting? || s.consumer.Blocked? || s.consumer.Woken? || s.consumer.Taking? ==>
              s.noreq == Outstanding(s.oreq[..s.parallelism])
  {
    ReachableInv(s);
    hide Outstanding;
  }

  /** A duplicate or stale response lowers nothing and ends no batch. */
  lemma StaleResponse(s: State, id: nat)
    requires Reachable(s) && Enabled(s, Take(Response(id))) && s.parallelism <= |s.oreq|
    requires forall k :: 0 <= k < s.parallelism ==> s.oreq[k] != id
    ensures var s' := Next(s, Take(Response(id)));
            s'.noreq == s.noreq && s'.consumer == s.consumer
  {
    ReachableInv(s);
    NoMatches(s.oreq[..s.parallelism], id);
    hide Outstanding;
  }

  // ----- progress

  function SendsLeft(s: State): nat {
    s.batchesLeft * s.parallelism +
    if s.consumer.Sending? && s.consumer.j < s.parallelism then s.parallelism - s.consumer.j else 0
  }

  /** All the requests of a run, and no batch is left at its end. */
  ghost predicate Sends(s: State, parallelism: nat, total: nat) {
    s.parallelism == parallelism && s.lastId + SendsLeft(s) == total && (s.consumer.Finished? ==> s.batchesLeft == 0)
  }

  lemma InitSends(parallelism: nat, batches: nat, slots: seq<nat>)
    requires 1 <= parallelism
    ensures Sends(Init(parallelism, batches, slots), parallelism, parallelism * batches)
  {
    if batches > 0 {
      OneBatchMore(batches, parallelism);
    }
  }

  lemma OneBatchMore(batches: nat, parallelism: nat)
    requires batches > 0
    ensures batches * parallelism == (batches - 1) * parallelism + parallelism
  {
  }

  lemma StepSends(s: State, step: Step, parallelism: nat, total: nat)
    requires Inv(s) && Enabled(s, step) && Sends(s, parallelism, total)
    ensures Sends(Next(s, step), parallelism, total)
  {
    hide Outstanding, Matches, Cleared, Slots, Barrier, NothingLost, WakeUpDue;
    if step.Take? && s.batchesLeft > 0 {
      OneBatchMore(s.batchesLeft, s.parallelism);
    }
  }

  lemma {:induction false} RunSends(s: State, steps: seq<Step>, parallelism: nat, total: nat)
    requires Inv(s) && IsRun(s, steps) && Sends(s, parallelism, total)
    ensures Sends(After(s, steps), parallelism, total)
    decreases steps
  {
    hide Inv, Next, Enabled, Sends;
    if steps != [] {
      StepInv(s, steps[0]);
      StepSends(s, steps[0], parallelism, total);
      RunSends(Next(s, steps[0]), steps[1..], parallelism, total);
    }
  }

  /** A run is finished only when all the requests of all the batches were sent and answered. */
  lemma AllAnswered(parallelism: nat, batches: nat, slots: seq<nat>, steps: seq<Step>, s: State)
    requires Reaches(parallelism, batches, slots, steps, s)
    ensures s.lastId <= parallelism * batches
    ensures s.consumer.Finished? ==> s.lastId == parallelism * batches
    ensures s.consumer.Finished? ==> forall id: nat :: 1 <= id <= parallelism * batches ==> id in s.answered
  {
    hide Inv, IsRun, After, Reachable;
    InitInv(parallelism, batches, slots);
    InitSends(parallelism, batches, slots);
    RunSends(Init(parallelism, batches, slots), steps, parallelism, parallelism * batches);
    assert Reachable(s) by { ReachedBy(parallelism, batches, slots, steps, s); }
    BatchBarrier(s);
  }

  function Stage(s: State): nat {
    (match s.listener case Locked => 10 case Signalled => 5 case Idle => 0)
    + (match s.consumer case Woken => 3 case Taking => 2 case Waiting => 1 case _ => 0)
  }

  /** How many steps are possible before the next arrival or spurious wake-up, at most. */
  function Rank(s: State): nat {
    14 * (SendsLeft(s) + |s.queue| + s.pending) + Stage(s)
  }

  lemma Progress(s: State, step: Step)
    requires Inv(s) && Enabled(s, step) && !step.Arrive? && !step.WakeUp?
    ensures Rank(Next(s, step)) < Rank(s)
  {
    hide Outstanding, Matches, Cleared, Slots, Barrier, NothingLost, WakeUpDue;
    if step.Take? {
      TakeProgress(s, step.taken);
    }
  }

  lemma TakeProgress(s: State, taken: Sample)
    requires Inv(s) && Enabled(s, Take(taken))
    ensures Rank(Next(s, Take(taken))) < Rank(s)
  {
    hide Outstanding, Matches, Cleared, Slots, Barrier, NothingLost, WakeUpDue;
    assert |s.queue - multiset{taken}| == |s.queue| - 1;
    var p := Processed(s, taken);
    if p.noreq <= 0 && p.batchesLeft > 0 {
      assert p.batchesLeft * p.parallelism == (p.batchesLeft - 1) * p.parallelism + p.parallelism;
    }
  }

  /** Both threads do only finitely many steps between two arrivals, spurious wake-ups aside. */
  lemma {:induction false} QuietRunEnds(s: State, steps: seq<Step>)
    requires Inv(s) && IsRun(s, steps)
    requires forall i :: 0 <= i < |steps| ==> !steps[i].Arrive? && !steps[i].WakeUp?
    ensures |steps| <= Rank(s)
    decreases steps
  {
    hide Inv, Rank, Next;
    if steps != [] {
      assert !steps[0].Arrive? && !steps[0].WakeUp?;
      Progress(s, steps[0]);
      StepInv(s, steps[0]);
      QuietRunEnds(Next(s, steps[0]), steps[1..]);
    }
  }

  /** When no step but an arrival or a spurious wake-up is possible, the consumer has finished, or it
      is blocked on a batch with a request whose response never arrived. */
  lemma StuckOnlyUnanswered(s: State)
    requires Reachable(s)
    requires forall step: Step :: Enabled(s, step) ==> step.Arrive? || step.WakeUp?
    ensures s.parallelism <= |s.oreq|
    ensures s.consumer.Finished?
            || (s.consumer.Blocked? && exists k :: 0 <= k < s.parallelism && s.oreq[k] != 0 && s.oreq[k] !in s.arrived)
  {
    ReachableInv(s);
    hide Outstanding, Slots, Barrier, NothingLost, WakeUpDue;
    assert !Enabled(s, Signal) && !Enabled(s, Unlock) && !Enabled(s, Send) && !Enabled(s, Block);
    assert !Enabled(s, Reacquire) && !Enabled(s, Lock) && !Enabled(s, TakeNothing);
    assert forall taken :: taken in s.queue ==> !Enabled(s, Take(taken));
    if s.queue != multiset{} {
      var taken :| taken in s.queue;
    }
    if s.consumer.Blocked? {
      AsleepMeansUnanswered(s);
    }
  }

  // ----- a run that ends

  lemma OneStep(s: State, step: Step, rest: seq<Step>)
    requires s.parallelism <= |s.oreq| && Enabled(s, step) && IsRun(Next(s, step), rest)
    ensures IsRun(s, [step] + rest) && After(s, [step] + rest) == After(Next(s, step), rest)
  {
    assert ([step] + rest)[1..] == rest;
  }

  /** The one request of the last batch is open, and the response to it is in the reader. */
  predicate LastAnswer(s: State) {
    && s.parallelism == 1 <= |s.oreq| && s.batchesLeft == 0 && s.noreq == 1 && s.oreq[0] == 1
    && Response(1) in s.queue && s.answered == {}
  }

  /** A woken consumer takes that response and is done. */
  lemma TakesLast(s: State) returns (steps: seq<Step>)
    requires LastAnswer(s) && s.consumer.Woken? && s.listener.Idle?
    ensures IsRun(s, steps) && After(s, steps).consumer.Finished? && After(s, steps).answered == {1}
  {
    hide IsRun, After, Matches, Cleared;
    var s1 := Next(s, Reacquire);
    assert s1.oreq[..1] == [1];
    OneMatch();
    NoStep(Next(s1, Take(Response(1))));
    OneStep(s1, Take(Response(1)), []);
    OneStep(s, Reacquire, [Take(Response(1))] + []);
    steps := [Reacquire] + ([Take(Response(1))] + []);
  }

  /** A blocked consumer is woken by the listener. */
  lemma GetsWoken(s: State) returns (steps: seq<Step>)
    requires LastAnswer(s) && s.consumer.Blocked? && s.listener.Idle? && s.pending > 0
    ensures IsRun(s, steps) && After(s, steps).consumer.Finished? && After(s, steps).answered == {1}
  {
    hide IsRun, After;
    var s1 := Next(s, Lock);
    var s2 := Next(s1, Signal);
    steps := TakesLast(Next(s2, Unlock));
    OneStep(s2, Unlock, steps);
    OneStep(s1, Signal, [Unlock] + steps);
    OneStep(s, Lock, [Signal] + ([Unlock] + steps));
    steps := [Lock] + ([Signal] + ([Unlock] + steps));
  }

  /** One request, one response, and the consumer is done: finished states are reachable. */
  lemma CanFinish(slots: seq<nat>) returns (s: State)
    requires |slots| == MAX_PARALLEL
    ensures Reachable(s) && s.consumer.Finished? && s.answered == {1}
  {
    hide IsRun, After, Reaches;
    var arrival := Arrive(Response(1), false);
    var s0 := Init(1, 1, slots);
    var s1 := Next(s0, Send);
    var s2 := Next(s1, Block);
    var steps := GetsWoken(Next(s2, arrival));
    OneStep(s2, arrival, steps);
    OneStep(s1, Block, [arrival] + steps);
    OneStep(s0, Send, [Block] + ([arrival] + steps));
    s := After(s0, [Send] + ([Block] + ([arrival] + steps)));
    ReachedBy(1, 1, slots, [Send] + ([Block] + ([arrival] + steps)), s);
  }

  lemma OneMatch()
    ensures Matches([1], 1) == 1
  {
    assert [1][1..] == [];
  }

  lemma NoStep(s: State)
    ensures IsRun(s, []) && After(s, []) == s
  {
  }

  lemma ReachedBy(parallelism: nat, batches: nat, slots: seq<nat>, steps: seq<Step>, s: State)
    requires 1 <= parallelism <= MAX_PARALLEL == |slots|
    requires IsRun(Init(parallelism, batches, slots), steps) && s == After(Init(parallelism, batches, slots), steps)
    ensures Reachable(s)
  {
    assert Reaches(parallelism, batches, slots, steps, s);
  }
}
