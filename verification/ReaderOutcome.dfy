/** What a call of the checkpoint reader answers, and why: a failure has the step that caused it among
    the earlier ones, and a reader nobody interferes with delivers the whole list. */
module ReaderOutcome {
  import opened Common
  import opened ReaderProtocol

  // ---------------------------------------------------------------- where a cause comes from

  /** The steps that cancel the reader's context. */
  predicate Cancels(step: Action) {
    step.CallClose? || step.ParentCancels? || step.SetupFails? || step.BucketFails?
  }

  /** The step gives the cause: the caller closes, the parent context ends, setup fails, or a bucket
      does, with the error its script ends in, after all earlier ones passed and everything up to
      there was sent. */
  ghost predicate Origin(p: Plan, s: State, step: Action, c: Cause) {
    match c
    case Closed => step.CallClose?
    case Parent => step.ParentCancels?
    case Setup(code) => step == SetupFails(code) && IsFault(p, c) && s.sent == []
    case Bucket(index, code) =>
      step.BucketFails? && IsFault(p, c) && s.sent == Before(p, index) + p.buckets[index].entries
  }

  /** The list itself is at fault: setup fails with the code, or the first bucket not to pass does. */
  predicate IsFault(p: Plan, c: Cause) {
    match c
    case Setup(code) => p.setup == Some(code)
    case Bucket(index, code) =>
      index < |p.buckets| && PassedBefore(p, index) && p.buckets[index].verdict == Some(code)
    case _ => false
  }

  lemma CancelOrigin(p: Plan, s: State, step: Action)
    requires Inv(p, s) && Enabled(p, s, step)
    ensures s.cause.Some? ==> Do(p, s, step).cause == s.cause
    ensures s.cause.None? && !Cancels(step) ==> Do(p, s, step).cause.None?
    ensures s.cause.None? && Cancels(step) ==>
              Do(p, s, step).cause.Some? && Origin(p, s, step, Do(p, s, step).cause.value)
  {
    hide Before;
    if step.BucketFails? {
      var es := p.buckets[s.producer.bucket].entries;
      assert es[..|es|] == es;
    }
  }

  /** The reader is cancelled exactly when a cancelling step was taken, and the cause is that of the
      first one. */
  lemma {:induction false} CauseIsFirst(p: Plan, states: seq<State>, steps: seq<Action>, n: nat) returns (k: nat)
    requires IsRun(p, states, steps) && n < |states|
    ensures states[n].cause.None? <==> forall j :: 0 <= j < n ==> !Cancels(steps[j])
    ensures states[n].cause.Some? ==>
              && k < n && (forall j :: 0 <= j < k ==> !Cancels(steps[j]))
              && Origin(p, states[k], steps[k], states[n].cause.value)
  {
    hide Inv, Enabled, Do, Origin, Cancels;
    k := 0;
    if n == 0 {
    } else {
      k := CauseIsFirst(p, states, steps, n - 1);
      RunKeepsInv(p, states, steps, n - 1);
      CancelOrigin(p, states[n - 1], steps[n - 1]);
      if states[n - 1].cause.None? { k := n - 1; }
    }
  }

  /** What a failed call says is true: somebody closed the reader, or its context ended, or the list is
      at fault in the way it says. */
  lemma FailuresAreTrue(p: Plan, states: seq<State>, steps: seq<Action>, n: nat, i: nat) returns (k: nat)
    requires IsRun(p, states, steps) && n < |states|
    requires i < |states[n].calls| && states[n].calls[i].answer.Failure?
    ensures k < n && (forall j :: 0 <= j < k ==> !Cancels(steps[j]))
    ensures Origin(p, states[k], steps[k], states[n].calls[i].answer.cause)
  {
    k := CauseIsFirst(p, states, steps, n);
    RunKeepsInv(p, states, steps, n);
    assert CallOk(p, states[n], i);
  }

  // ---------------------------------------------------------------- which entry a call returns

  predicate AllEntered(calls: seq<Call>) {
    forall j :: 0 <= j < |calls| ==> calls[j].answer.Entry?
  }

  lemma {:induction false} DeliveredAt(calls: seq<Call>)
    requires AllEntered(calls)
    ensures |Delivered(calls)| == |calls|
    ensures forall j :: 0 <= j < |calls| ==> Delivered(calls)[j] == calls[j].answer.entry
  {
    if calls != [] { DeliveredAt(calls[..|calls| - 1]); }
  }

  lemma {:induction false} DeliveredPrefix(calls: seq<Call>, m: nat)
    requires m <= |calls|
    ensures Delivered(calls[..m]) <= Delivered(calls)
    decreases |calls|
  {
    if m == |calls| {
      assert calls[..m] == calls;
    } else {
      DeliveredPrefix(calls[..|calls| - 1], m);
      assert calls[..|calls| - 1][..m] == calls[..m];
    }
  }

  /** In every run the k-th call returns, if an entry at all, the k-th entry of the list. */
  lemma EntriesAreNumbered(p: Plan, states: seq<State>, steps: seq<Action>, n: nat, k: nat)
    requires IsRun(p, states, steps) && n < |states|
    requires k < |states[n].calls| && states[n].calls[k].answer.Entry?
    ensures k < |AllEntries(p)| && states[n].calls[k].answer.entry == AllEntries(p)[k]
    ensures AllEntered(states[n].calls[..k])
  {
    hide AllEntries, AllPassed, Delivered, Do, Enabled;
    var calls := states[n].calls;
    RunKeepsInv(p, states, steps, n);
    forall j | 0 <= j < k ensures calls[j].answer.Entry? {
      assert CallOk(p, states[n], j);
    }
    DeliveredInOrder(p, states, steps, n);
    DeliveredPrefix(calls, k + 1);
    DeliveredAt(calls[..k + 1]);
    assert calls[..k + 1][k] == calls[k];
    assert Delivered(calls[..k + 1])[k] == AllEntries(p)[k];
  }

  /** io.EOF comes after the last entry. */
  lemma EndIsLast(p: Plan, states: seq<State>, steps: seq<Action>, n: nat, k: nat)
    requires IsRun(p, states, steps) && n < |states|
    requires k < |states[n].calls| && states[n].calls[k].answer.EndOfFile?
    ensures AllPassed(p) && k >= |AllEntries(p)|
  {
    hide AllEntries, AllPassed, Do, Enabled;
    EofMeansComplete(p, states, steps, n, k);
    DeliveredAtMost(states[n].calls[..k]);
  }

  lemma {:induction false} DeliveredAtMost(calls: seq<Call>)
    ensures |Delivered(calls)| <= |calls|
  {
    if calls != [] { DeliveredAtMost(calls[..|calls| - 1]); }
  }

  /** Nobody closes the reader or ends its context. */
  predicate Undisturbed(steps: seq<Action>, n: nat)
    requires n <= |steps|
  {
    forall j :: 0 <= j < n ==> !steps[j].CallClose? && !steps[j].ParentCancels?
  }

  /** With nobody interfering, every call of a list that passes answers what it should: the k-th entry,
      and io.EOF from there on. A list that does not pass ends in its own fault and never in io.EOF. */
  lemma DeliversEverything(p: Plan, states: seq<State>, steps: seq<Action>, n: nat, k: nat)
    requires IsRun(p, states, steps) && n < |states| && Undisturbed(steps, n)
    requires k < |states[n].calls|
    ensures AllPassed(p) ==>
              states[n].calls[k].answer == if k < |AllEntries(p)| then Entry(AllEntries(p)[k]) else EndOfFile
    ensures !AllPassed(p) && !states[n].calls[k].answer.Entry? ==>
              states[n].calls[k].answer.Failure? && IsFault(p, states[n].calls[k].answer.cause)
  {
    hide AllEntries, Delivered, Do, Enabled, Inv, IsRun;
    match states[n].calls[k].answer
    case Entry(_) => EntriesAreNumbered(p, states, steps, n, k);
    case EndOfFile => EndIsLast(p, states, steps, n, k);
    case Failure(_) => var j := FailuresAreTrue(p, states, steps, n, k);
  }

  // ---------------------------------------------------------------- the buffer

  /** The producer is never further ahead of the consumer than the buffer and the entry in hand. */
  lemma NeverFarAhead(p: Plan, states: seq<State>, steps: seq<Action>, n: nat)
    requires IsRun(p, states, steps) && n < |states|
    ensures |states[n].channel| <= 50000
    ensures states[n].cause.None? ==> |states[n].sent| <= |Delivered(states[n].calls)| + 50001
  {
    BufferBounded(p, states, steps, n);
    RunKeepsInv(p, states, steps, n);
  }

  /** And it need not wait for the consumer until then. */
  lemma MayRunAhead(p: Plan, s: State)
    requires Inv(p, s) && s.producer.Running? && s.producer.bucket < |p.buckets|
    requires s.producer.entry < |p.buckets[s.producer.bucket].entries|
    ensures Enabled(p, s, Send) <==> |s.channel| < 50000
  {
  }

  lemma {:induction false} BufferBounded(p: Plan, states: seq<State>, steps: seq<Action>, n: nat)
    requires IsRun(p, states, steps) && n < |states|
    ensures |states[n].channel| <= 50000
  {
    if n > 0 { BufferBounded(p, states, steps, n - 1); }
  }
}
