/** The checkpoint reader as a protocol: the producer goroutine that streams the buckets into a
    bounded channel, the single consumer that calls next(), Close(), and a parent context, in
    every interleaving. */
module ReaderProtocol {
  import opened Common
  import opened BucketList

  const CAPACITY: nat := 50000

  /** Why the context was cancelled. Only the first cancel sets the cause. */
  datatype Cause = Closed | Parent | Setup(code: int) | Bucket(index: nat, code: int)

  /** What the producer will meet in one bucket: the entries it yields, and the error it ends with,
      None when the bucket is read to its end and its hash check passes or is disabled. */
  datatype Script = Script(entries: seq<LedgerEntry>, verdict: Option<int>)

  /** The whole list: a setup error (bad hash, missing bucket, unknown list type) or the buckets. */
  datatype Plan = Plan(setup: Option<int>, buckets: seq<Script>)

  datatype Producer =
    | Starting
    | Running(bucket: nat, entry: nat)
    | Returning
    | Stopped

  /** A next() call in progress remembers the cause it started with, for the record. */
  datatype Consumer =
    | Idle
    | Selecting(began: Option<Cause>)
    | Got(began: Option<Cause>, entry: LedgerEntry)
    | Settling(began: Option<Cause>)

  datatype Answer = Entry(entry: LedgerEntry) | EndOfFile | Failure(cause: Cause)

  datatype Call = Call(began: Option<Cause>, answer: Answer)

  datatype State = State(
    producer: Producer,
    channel: seq<LedgerEntry>,
    closed: bool,
    cause: Option<Cause>,
    consumer: Consumer,
    sent: seq<LedgerEntry>,
    calls: seq<Call>)

  predicate Init(s: State) {
    s == State(Starting, [], false, None, Idle, [], [])
  }

  function Cancel(s: State, c: Cause): (s': State) {
    if s.cause.None? then s.(cause := Some(c)) else s
  }

  // ---------------------------------------------------------------- steps

  datatype Action =
    | SetupDone | SetupFails(code: int)
    | Send | BucketDone | BucketFails | AllDone | SeesCancel | CloseChannel
    | CallNext | Receive | ReceiveClosed | SelectDone | Check | Settle
    | CallClose | ParentCancels

  predicate Enabled(p: Plan, s: State, step: Action) {
    match step
    case SetupDone => s.producer.Starting? && p.setup.None?
    case SetupFails(code) => s.producer.Starting? && p.setup == Some(code)
    case Send =>
      && s.producer.Running? && s.producer.bucket < |p.buckets|
      && s.producer.entry < |p.buckets[s.producer.bucket].entries| && |s.channel| < CAPACITY
    case BucketDone =>
      && s.producer.Running? && s.producer.bucket < |p.buckets|
      && s.producer.entry == |p.buckets[s.producer.bucket].entries|
      && p.buckets[s.producer.bucket].verdict.None?
    case BucketFails =>
      && s.producer.Running? && s.producer.bucket < |p.buckets|
      && s.producer.entry == |p.buckets[s.producer.bucket].entries|
      && p.buckets[s.producer.bucket].verdict.Some?
    case AllDone => s.producer.Running? && s.producer.bucket == |p.buckets|
    case SeesCancel => s.producer.Running? && s.cause.Some?
    case CloseChannel => s.producer.Returning?
    case CallNext => s.consumer.Idle?
    case Receive => s.consumer.Selecting? && s.channel != []
    case ReceiveClosed => s.consumer.Selecting? && s.channel == [] && s.closed
    case SelectDone => s.consumer.Selecting? && s.cause.Some?
    case Check => s.consumer.Got?
    case Settle => s.consumer.Settling?
    case CallClose => true
    case ParentCancels => true
  }

  /** The select in next() may take any ready case, so Receive and SelectDone can both be enabled. */
  function Do(p: Plan, s: State, step: Action): (s': State)
    requires Enabled(p, s, step)
  {
    match step
    case SetupDone => s.(producer := Running(0, 0))
    case SetupFails(code) => Cancel(s, Setup(code)).(producer := Returning)
    case Send =>
      var e := p.buckets[s.producer.bucket].entries[s.producer.entry];
      s.(channel := s.channel + [e], sent := s.sent + [e], producer := Running(s.producer.bucket, s.producer.entry + 1))
    case BucketDone => s.(producer := Running(s.producer.bucket + 1, 0))
    case BucketFails =>
      Cancel(s, Bucket(s.producer.bucket, p.buckets[s.producer.bucket].verdict.value)).(producer := Returning)
    case AllDone => s.(producer := Returning)
    case SeesCancel => s.(producer := Returning)
    case CloseChannel => s.(closed := true, producer := Stopped)
    case CallNext => s.(consumer := Selecting(s.cause))
    case Receive => s.(channel := s.channel[1..], consumer := Got(s.consumer.began, s.channel[0]))
    case ReceiveClosed => s.(consumer := Settling(s.consumer.began))
    case SelectDone => s.(consumer := Settling(s.consumer.began))
    case Check =>
      if s.cause.None? then s.(calls := s.calls + [Call(s.consumer.began, Entry(s.consumer.entry))], consumer := Idle)
      else s.(consumer := Settling(s.consumer.began))
    case Settle =>
      var a := if s.cause.Some? then Failure(s.cause.value) else EndOfFile;
      s.(calls := s.calls + [Call(s.consumer.began, a)], consumer := Idle)
    case CallClose => Cancel(s, Closed)
    case ParentCancels => Cancel(s, Parent)
  }

  /** A run: states linked by enabled steps, from the initial state. */
  ghost predicate IsRun(p: Plan, states: seq<State>, steps: seq<Action>) {
    && |states| == |steps| + 1 && Init(states[0])
    && forall i :: 0 <= i < |steps| ==> Enabled(p, states[i], steps[i]) && states[i + 1] == Do(p, states[i], steps[i])
  }

  // ---------------------------------------------------------------- the invariant

  /** Entries of the buckets before `b`, in order. */
  function Before(p: Plan, b: nat): (es: seq<LedgerEntry>)
    requires b <= |p.buckets|
  {
    if b == 0 then [] else Before(p, b - 1) + p.buckets[b - 1].entries
  }

  function AllEntries(p: Plan): (es: seq<LedgerEntry>) {
    Before(p, |p.buckets|)
  }

  predicate PassedBefore(p: Plan, b: nat)
    requires b <= |p.buckets|
  {
    p.setup.None? && forall i :: 0 <= i < b ==> p.buckets[i].verdict.None?
  }

  /** Every bucket was read to its end and passed its hash check. */
  predicate AllPassed(p: Plan) {
    PassedBefore(p, |p.buckets|)
  }

  /** The entries next() has returned so far. */
  function Delivered(calls: seq<Call>): (es: seq<LedgerEntry>) {
    if calls == [] then []
    else
      var last := calls[|calls| - 1];
      Delivered(calls[..|calls| - 1]) + if last.answer.Entry? then [last.answer.entry] else []
  }

  function Held(c: Consumer): (es: seq<LedgerEntry>) {
    if c.Got? then [c.entry] else []
  }

  ghost predicate ProducerInv(p: Plan, s: State) {
    match s.producer
    case Starting => s.sent == [] && !s.closed
    case Running(b, i) =>
      && b <= |p.buckets| && PassedBefore(p, b) && !s.closed
      && (b < |p.buckets| ==> i <= |p.buckets[b].entries| && s.sent == Before(p, b) + p.buckets[b].entries[..i])
      && (b == |p.buckets| ==> i == 0 && s.sent == AllEntries(p))
    case Returning => !s.closed && (s.cause.None? ==> AllPassed(p) && s.sent == AllEntries(p))
    case Stopped => s.closed && (s.cause.None? ==> AllPassed(p) && s.sent == AllEntries(p))
  }

  /** Nothing is lost or reordered until the reader is cancelled. */
  ghost predicate FlowInv(s: State) {
    s.cause.None? ==> s.sent == Delivered(s.calls) + Held(s.consumer) + s.channel
  }

  /** A settling call saw the cancel or the drained, closed channel; what a call began with is the
      cause still in force. */
  ghost predicate ConsumerInv(s: State) {
    && (s.consumer.Settling? && s.cause.None? ==> s.closed && s.channel == [])
    && (!s.consumer.Idle? && s.consumer.began.Some? ==> s.consumer.began == s.cause)
  }

  ghost predicate CallsInv(p: Plan, s: State) {
    forall i :: 0 <= i < |s.calls| ==> CallOk(p, s, i)
  }

  ghost predicate CallOk(p: Plan, s: State, i: nat)
    requires i < |s.calls|
  {
    && (s.calls[i].began.Some? ==> s.calls[i].answer == Failure(s.calls[i].began.value))
    && (s.calls[i].answer.Failure? ==> s.cause == Some(s.calls[i].answer.cause))
    && (s.calls[i].answer.EndOfFile? ==>
          && AllPassed(p) && Delivered(s.calls[..i]) == AllEntries(p)
          && s.closed && s.channel == [] && !s.consumer.Got?)
    && (!s.calls[i].answer.Entry? ==> forall j :: i <= j < |s.calls| ==> !s.calls[j].answer.Entry?)
  }

  ghost predicate Inv(p: Plan, s: State) {
    ProducerInv(p, s) && FlowInv(s) && ConsumerInv(s) && CallsInv(p, s)
  }

  lemma DeliveredAppend(calls: seq<Call>, c: Call)
    ensures Delivered(calls + [c]) == Delivered(calls) + if c.answer.Entry? then [c.answer.entry] else []
  {
    assert (calls + [c])[..|calls|] == calls;
  }

  lemma ProducerStep(p: Plan, s: State, step: Action)
    requires ProducerInv(p, s) && Enabled(p, s, step)
    ensures ProducerInv(p, Do(p, s, step))
  {
    match step
    case Send =>
      var es, i := p.buckets[s.producer.bucket].entries, s.producer.entry;
      assert es[..i + 1] == es[..i] + [es[i]];
    case BucketDone =>
      var es := p.buckets[s.producer.bucket].entries;
      assert es[..|es|] == es;
      if s.producer.bucket + 1 < |p.buckets| {
        assert p.buckets[s.producer.bucket + 1].entries[..0] == [];
      }
    case SetupDone => if |p.buckets| > 0 { assert p.buckets[0].entries[..0] == []; }
    case _ =>
  }

  lemma FlowStep(p: Plan, s: State, step: Action)
    requires FlowInv(s) && Enabled(p, s, step)
    ensures FlowInv(Do(p, s, step))
  {
    hide Delivered;
    match step
    case Receive => assert s.channel == [s.channel[0]] + s.channel[1..];
    case Check => DeliveredAppend(s.calls, Call(s.consumer.began, Entry(s.consumer.entry)));
    case Settle => if s.cause.None? { DeliveredAppend(s.calls, Call(s.consumer.began, EndOfFile)); }
    case _ =>
  }

  lemma ConsumerStep(p: Plan, s: State, step: Action)
    requires ProducerInv(p, s) && ConsumerInv(s) && Enabled(p, s, step)
    ensures ConsumerInv(Do(p, s, step))
  {
  }

  lemma CallsStep(p: Plan, s: State, step: Action)
    requires Inv(p, s) && Enabled(p, s, step)
    ensures CallsInv(p, Do(p, s, step))
  {
    hide Delivered, AllEntries, AllPassed, CallOk;
    var s' := Do(p, s, step);
    forall i | 0 <= i < |s'.calls| ensures CallOk(p, s', i) {
      if i < |s.calls| {
        OldCallStep(p, s, step, i);
      } else {
        NewCallStep(p, s, step);
      }
    }
  }

  lemma OldCallStep(p: Plan, s: State, step: Action, i: nat)
    requires Inv(p, s) && Enabled(p, s, step) && i < |s.calls|
    ensures i < |Do(p, s, step).calls| && CallOk(p, Do(p, s, step), i)
  {
    hide Delivered, AllEntries, AllPassed;
    var s' := Do(p, s, step);
    assert CallOk(p, s, i);
    assert s'.calls[..i] == s.calls[..i];
    assert forall j :: 0 <= j < |s.calls| ==> s'.calls[j] == s.calls[j];
  }

  lemma NewCallStep(p: Plan, s: State, step: Action)
    requires Inv(p, s) && Enabled(p, s, step) && |Do(p, s, step).calls| == |s.calls| + 1
    ensures CallOk(p, Do(p, s, step), |s.calls|)
  {
    hide Delivered, AllEntries, AllPassed, CallOk;
    var s' := Do(p, s, step);
    assert s'.calls[..|s.calls|] == s.calls;
    if step.Settle? && s.cause.None? { assert Delivered(s.calls) + [] + [] == Delivered(s.calls); }
    NewCallOk(p, s', |s.calls|);
  }

  /** The latest call is in order when its own answer is. */
  lemma NewCallOk(p: Plan, s: State, n: nat)
    requires |s.calls| == n + 1
    requires s.calls[n].began.Some? ==> s.calls[n].answer == Failure(s.calls[n].began.value)
    requires s.calls[n].answer.Failure? ==> s.cause == Some(s.calls[n].answer.cause)
    requires s.calls[n].answer.EndOfFile? ==>
               && AllPassed(p) && Delivered(s.calls[..n]) == AllEntries(p)
               && s.closed && s.channel == [] && !s.consumer.Got?
    ensures CallOk(p, s, n)
  {
    hide Delivered, AllEntries, AllPassed;
  }

  lemma StepKeepsInv(p: Plan, s: State, step: Action)
    requires Inv(p, s) && Enabled(p, s, step)
    ensures Inv(p, Do(p, s, step))
  {
    ProducerStep(p, s, step);
    FlowStep(p, s, step);
    ConsumerStep(p, s, step);
    CallsStep(p, s, step);
  }

  lemma {:induction false} RunKeepsInv(p: Plan, states: seq<State>, steps: seq<Action>, n: nat)
    requires IsRun(p, states, steps) && n < |states|
    ensures Inv(p, states[n])
  {
    if n > 0 {
      RunKeepsInv(p, states, steps, n - 1);
      StepKeepsInv(p, states[n - 1], steps[n - 1]);
    }
  }

  // ---------------------------------------------------------------- what callers may rely on

  /** io.EOF is answered only when setup succeeded, every bucket finished with its check passed,
      and every entry had already been returned, in order. */
  lemma EofMeansComplete(p: Plan, states: seq<State>, steps: seq<Action>, n: nat, i: nat)
    requires IsRun(p, states, steps) && n < |states|
    requires i < |states[n].calls| && states[n].calls[i].answer.EndOfFile?
    ensures AllPassed(p) && Delivered(states[n].calls[..i]) == AllEntries(p)
  {
    RunKeepsInv(p, states, steps, n);
    assert CallOk(p, states[n], i);
  }

  /** A call that starts after a cancel never returns an entry: it returns the cause, the first
      one, and so does every other call that fails. */
  lemma CancelledCallsFail(p: Plan, states: seq<State>, steps: seq<Action>, n: nat, i: nat, j: nat)
    requires IsRun(p, states, steps) && n < |states|
    requires i < |states[n].calls| && j < |states[n].calls|
    ensures states[n].calls[i].began.Some? ==> states[n].calls[i].answer == Failure(states[n].calls[i].began.value)
    ensures states[n].calls[i].answer.Failure? && states[n].calls[j].answer.Failure? ==>
              states[n].calls[i].answer == states[n].calls[j].answer
    ensures !states[n].calls[i].answer.Entry? && i <= j ==> !states[n].calls[j].answer.Entry?
    ensures states[n].calls[i].answer.Failure? && i <= j ==> states[n].calls[j].answer == states[n].calls[i].answer
  {
    RunKeepsInv(p, states, steps, n);
    assert CallOk(p, states[n], i) && CallOk(p, states[n], j);
    FailuresStick(p, states, steps, n, i);
  }

  /** Once call `i` has failed, every later call began with the cause set. */
  ghost predicate Stuck(s: State, i: nat) {
    i < |s.calls| && s.calls[i].answer.Failure? ==>
      && (forall j :: i < j < |s.calls| ==> s.calls[j].began.Some?)
      && (!s.consumer.Idle? ==> s.consumer.began.Some?)
  }

  lemma StepKeepsStuck(p: Plan, s: State, step: Action, i: nat)
    requires CallsInv(p, s) && Stuck(s, i) && Enabled(p, s, step)
    ensures Stuck(Do(p, s, step), i)
  {
    hide Delivered, AllEntries, AllPassed;
    var s' := Do(p, s, step);
    assert i < |s.calls| ==> CallOk(p, s, i);
    assert forall j :: 0 <= j < |s.calls| ==> s'.calls[j] == s.calls[j];
  }

  lemma {:induction false} FailuresStick(p: Plan, states: seq<State>, steps: seq<Action>, n: nat, i: nat)
    requires IsRun(p, states, steps) && n < |states|
    ensures Stuck(states[n], i)
  {
    hide Inv, CallsInv, Stuck;
    if n == 0 {
      StuckAtFirst(states[0], i);
    } else {
      FailuresStick(p, states, steps, n - 1, i);
      RunKeepsInv(p, states, steps, n - 1);
      InvHasCalls(p, states[n - 1]);
      StepKeepsStuck(p, states[n - 1], steps[n - 1], i);
    }
  }

  lemma StuckAtFirst(s: State, i: nat)
    requires Init(s)
    ensures Stuck(s, i)
  {
  }

  lemma InvHasCalls(p: Plan, s: State)
    requires Inv(p, s)
    ensures CallsInv(p, s)
  {
  }

  /** At every moment, cancelled or not, what has been returned is a prefix of what was sent, and
      that is a prefix of the list's entries. */
  lemma {:induction false} DeliveredInOrder(p: Plan, states: seq<State>, steps: seq<Action>, n: nat)
    requires IsRun(p, states, steps) && n < |states|
    ensures Delivered(states[n].calls) <= states[n].sent <= AllEntries(p)
  {
    hide Delivered, AllEntries, Inv, FlowInv;
    SentIsPrefix(p, states, steps, n);
    if n == 0 {
      NothingDelivered();
    } else {
      DeliveredInOrder(p, states, steps, n - 1);
      RunKeepsInv(p, states, steps, n);
      InvHasFlow(p, states[n]);
      DeliverStep(p, states[n - 1], steps[n - 1]);
    }
  }

  lemma NothingDelivered()
    ensures Delivered([]) == []
  {
  }

  lemma InvHasFlow(p: Plan, s: State)
    requires Inv(p, s)
    ensures FlowInv(s)
  {
  }

  lemma DeliverStep(p: Plan, s: State, step: Action)
    requires Enabled(p, s, step) && Delivered(s.calls) <= s.sent && FlowInv(Do(p, s, step))
    ensures Delivered(Do(p, s, step).calls) <= Do(p, s, step).sent
  {
    hide Delivered;
    var s' := Do(p, s, step);
    if s.calls != s'.calls {
      DeliveredAppend(s.calls, s'.calls[|s.calls|]);
    }
  }

  lemma {:induction false} BeforeIsPrefix(p: Plan, b: nat, c: nat)
    requires b <= c <= |p.buckets|
    ensures Before(p, b) <= Before(p, c)
    decreases c - b
  {
    if b < c { BeforeIsPrefix(p, b, c - 1); }
  }

  lemma {:induction false} SentIsPrefix(p: Plan, states: seq<State>, steps: seq<Action>, n: nat)
    requires IsRun(p, states, steps) && n < |states|
    ensures states[n].sent <= AllEntries(p)
  {
    if n > 0 {
      SentIsPrefix(p, states, steps, n - 1);
      var s := states[n - 1];
      if steps[n - 1].Send? {
        RunKeepsInv(p, states, steps, n);
        RunKeepsInv(p, states, steps, n - 1);
        var b := s.producer.bucket;
        BeforeIsPrefix(p, b + 1, |p.buckets|);
        assert states[n].sent == Before(p, b) + p.buckets[b].entries[..s.producer.entry + 1];
        assert states[n].sent <= Before(p, b + 1);
      }
    }
  }

  // ---------------------------------------------------------------- progress

  /** Steps the reader takes by itself; the others are up to its caller and its context. */
  predicate Internal(step: Action) {
    !step.CallNext? && !step.CallClose? && !step.ParentCancels?
  }

  /** A call in progress never blocks: the producer or the call itself can move. */
  lemma PendingCallMoves(p: Plan, s: State) returns (step: Action)
    requires Inv(p, s) && !s.consumer.Idle?
    ensures Internal(step) && Enabled(p, s, step)
  {
    match s.consumer
    case Got(_, _) => step := Check;
    case Settling(_) => step := Settle;
    case Selecting(_) =>
      if s.channel != [] {
        step := Receive;
      } else if s.cause.Some? {
        step := SelectDone;
      } else if s.closed {
        step := ReceiveClosed;
      } else {
        step := ProducerMoves(p, s);
      }
    case Idle =>
  }

  lemma ProducerMoves(p: Plan, s: State) returns (step: Action)
    requires ProducerInv(p, s) && s.channel == [] && !s.closed
    ensures Internal(step) && Enabled(p, s, step)
  {
    match s.producer
    case Starting => step := if p.setup.None? then SetupDone else SetupFails(p.setup.value);
    case Running(b, i) =>
      if b == |p.buckets| {
        step := AllDone;
      } else if i < |p.buckets[b].entries| {
        step := Send;
      } else {
        step := if p.buckets[b].verdict.None? then BucketDone else BucketFails;
      }
    case Returning => step := CloseChannel;
    case Stopped => step := CloseChannel;
  }

  /** The producer does not outlive a cancel: as long as it has not stopped it can move, whether or not
      anybody drains the channel, and from a bucket straight to its return. */
  lemma CancelledProducerMoves(p: Plan, s: State) returns (step: Action)
    requires s.cause.Some? && !s.producer.Stopped?
    ensures step.SetupDone? || step.SetupFails? || step.SeesCancel? || step.CloseChannel?
    ensures Enabled(p, s, step)
    ensures s.producer.Running? ==> Do(p, s, step) == s.(producer := Returning)
  {
    match s.producer
    case Starting => step := if p.setup.None? then SetupDone else SetupFails(p.setup.value);
    case Running(_, _) => step := SeesCancel;
    case Returning => step := CloseChannel;
    case Stopped =>
  }

  /** A waiting call can fail at once when the reader is cancelled, and leaves what is buffered. */
  lemma CancelledCallCanFail(p: Plan, s: State)
    requires s.consumer.Selecting? && s.cause.Some?
    ensures Path(p, s, [SelectDone, Settle])
    ensures var e := End(p, s, [SelectDone, Settle]);
            && e.channel == s.channel && e.consumer.Idle?
            && e.calls == s.calls + [Call(s.consumer.began, Failure(s.cause.value))]
  {
    var s' := Do(p, s, SelectDone);
    var steps := [SelectDone, Settle];
    assert steps[0] == SelectDone && steps[1..] == [Settle] && [Settle][1..] == [];
    assert Path(p, Do(p, s', Settle), []);
    assert Path(p, s', [Settle]);
  }

  /** What the producer has left to do from bucket `b` on. */
  function Remaining(p: Plan, b: nat): (n: nat)
    decreases |p.buckets| - b
  {
    if b >= |p.buckets| then 0 else |p.buckets[b].entries| + 1 + Remaining(p, b + 1)
  }

  /** The internal steps that can still be taken before the next call. */
  function Work(p: Plan, s: State): (n: nat)
    requires s.producer.Running? && s.producer.bucket < |p.buckets| ==>
               s.producer.entry <= |p.buckets[s.producer.bucket].entries|
  {
    (match s.producer
     case Starting => 4 + Remaining(p, 0)
     case Running(b, i) => 3 + Remaining(p, b) - (if b < |p.buckets| then i else 0)
     case Returning => 2
     case Stopped => 1)
    + match s.consumer
      case Idle => 0
      case Selecting(_) => 3
      case Got(_, _) => 2
      case Settling(_) => 1
  }

  lemma StepUsesWork(p: Plan, s: State, step: Action)
    requires Inv(p, s) && Enabled(p, s, step) && Internal(step)
    ensures Inv(p, Do(p, s, step)) && Work(p, Do(p, s, step)) < Work(p, s)
  {
    StepKeepsInv(p, s, step);
  }

  /** A path of internal steps. */
  ghost predicate Path(p: Plan, s: State, steps: seq<Action>)
    decreases |steps|
  {
    steps != [] ==>
      Enabled(p, s, steps[0]) && Internal(steps[0]) && Path(p, Do(p, s, steps[0]), steps[1..])
  }

  ghost function End(p: Plan, s: State, steps: seq<Action>): (s': State)
    requires Path(p, s, steps)
    decreases |steps|
  {
    if steps == [] then s else End(p, Do(p, s, steps[0]), steps[1..])
  }

  /** Left to itself the reader comes to rest, after no more steps than its work; and the call that was
      in progress has then been answered: with an entry, io.EOF or the cause. */
  lemma {:induction false} CallsAreAnswered(p: Plan, s: State, steps: seq<Action>)
    requires Inv(p, s) && Path(p, s, steps)
    ensures var e := End(p, s, steps);
            && Inv(p, e) && |steps| + Work(p, e) <= Work(p, s)
            && ((forall step :: Internal(step) ==> !Enabled(p, e, step)) ==> e.consumer.Idle?)
            && |e.calls| + Open(e) == |s.calls| + Open(s)
    decreases |steps|
  {
    hide Inv, Enabled, Do, Work;
    if steps == [] {
      if !s.consumer.Idle? { var step := PendingCallMoves(p, s); }
    } else {
      StepUsesWork(p, s, steps[0]);
      StepAnswers(p, s, steps[0]);
      CallsAreAnswered(p, Do(p, s, steps[0]), steps[1..]);
    }
  }

  /** The call in progress, as a count. */
  function Open(s: State): (n: nat) {
    if s.consumer.Idle? then 0 else 1
  }

  /** A step ends a call just when it answers it. */
  lemma StepAnswers(p: Plan, s: State, step: Action)
    requires Enabled(p, s, step) && Internal(step)
    ensures |Do(p, s, step).calls| + Open(Do(p, s, step)) == |s.calls| + Open(s)
  {
  }
}
