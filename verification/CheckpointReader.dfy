/** The checkpoint reader end to end: a consumer that reaches io.EOF has received exactly the
    state that replaying the bucket list gives. */
module CheckpointReader {
  import opened Common
  import opened LedgerKeys
  import opened BucketList
  import opened BucketListProofs
  import opened BucketListExact
  import opened ReaderProtocol

  /** `scripts` describe what streamBucket meets in the buckets `bs` when it starts with `visited`:
      the entries each bucket yields, and a failing verdict wherever its records are in error. The
      hash check may turn any verdict into a failure. */
  ghost predicate Describes(t: ListType, f: Filters, visited: set<Bytes>, bs: seq<BucketFile>, scripts: seq<Script>)
    requires ListSized(bs)
    decreases |bs|
  {
    && |scripts| == |bs|
    && (bs != [] ==>
          var run := StreamFrom(t, f, Run(visited, [], None), bs[0], 0, |bs| == 1);
          assert forall i :: 0 <= i < |bs[1..]| ==> bs[1..][i] == bs[i + 1];
          && scripts[0].entries == run.out
          && (run.error.Some? ==> scripts[0].verdict.Some?)
          && Describes(t, f, run.visited, bs[1..], scripts[1..]))
  }

  /** Streaming only appends: what was already out stays in front. */
  lemma {:induction false} StreamFromShift(t: ListType, f: Filters, o: seq<LedgerEntry>, run: Run, b: BucketFile,
      n: nat, oldest: bool)
    requires n <= |b| && BucketSized(b)
    ensures StreamFrom(t, f, Shift(o, run), b, n, oldest) == Shift(o, StreamFrom(t, f, run, b, n, oldest))
    decreases |b| - n
  {
    if n < |b| && run.error.None? {
      assert RecordSized(b[n]);
      StepShift(t, f, o, run, b, n, oldest);
      StreamFromShift(t, f, o, Step(t, f, run, b, n, oldest), b, n + 1, oldest);
    }
  }

  /** If every bucket passes, the planned entries are the streamed entries. */
  lemma {:induction false} PlanIsStream(t: ListType, f: Filters, p: Plan, k: nat, run: Run, bs: seq<BucketFile>)
    requires AllPassed(p) && k + |bs| == |p.buckets| && ListSized(bs) && run.error.None?
    requires run.out == Before(p, k) && Describes(t, f, run.visited, bs, p.buckets[k..])
    ensures StreamList(t, f, run, bs).out == AllEntries(p)
    decreases |bs|
  {
    if bs != [] {
      assert forall i :: 0 <= i < |bs[1..]| ==> bs[1..][i] == bs[i + 1];
      var start := Run(run.visited, [], None);
      assert Shift(run.out, start) == run;
      StreamFromShift(t, f, run.out, start, bs[0], 0, |bs| == 1);
      assert p.buckets[k..][0] == p.buckets[k] && p.buckets[k..][1..] == p.buckets[k + 1..];
      PlanIsStream(t, f, p, k + 1, StreamFrom(t, f, run, bs[0], 0, |bs| == 1), bs[1..]);
    }
  }

  /** Over every interleaving: a call that answers io.EOF comes after exactly the replayed entries
      that pass the filters have been returned, each once. */
  lemma EofDeliversReplay(t: ListType, f: Filters, bs: seq<BucketFile>, universe: set<LedgerKey>,
                          p: Plan, states: seq<State>, steps: seq<Action>, n: nat, i: nat)
    requires ListSized(bs) && Readable(t, bs) && Coherent(f) && Separated(universe) && Within(bs, universe)
    requires t == Live ==> forall j, k :: 0 <= j < |bs| && f.key(k) ==> RuleAt(bs, j, k)
    requires Describes(t, f, {}, bs, p.buckets)
    requires IsRun(p, states, steps) && n < |states|
    requires i < |states[n].calls| && states[n].calls[i].answer.EndOfFile?
    ensures Agrees(f, Delivered(states[n].calls[..i]), bs)
  {
    EofMeansComplete(p, states, steps, n, i);
    assert p.buckets[0..] == p.buckets;
    PlanIsStream(t, f, p, 0, EmptyRun, bs);
    StreamExactly(t, f, bs, universe);
  }
}
