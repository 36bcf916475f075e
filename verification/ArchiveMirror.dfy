/** Mirroring an archive: any number of workers take checkpoints from one channel, claim buckets in a
    shared map and copy files; every interleaving and every failure of the backends is covered. */
module ArchiveMirror {
  import opened Common
  import opened Checkpoints
  import opened ArchiveScan

  type Hash = Bytes

  datatype Path = BucketPath(hash: Hash) | CheckpointPath(category: Category, checkpoint: uint32)

  /** The run: the checkpoints generated, the buckets each checkpoint's archive state references,
      and the options. */
  datatype Config = Config(grid: seq<uint32>, buckets: uint32 -> seq<Hash>, dryRun: bool, force: bool,
      skipOptional: bool)

  /** What the backends answer to the one or two calls of a step. */
  datatype Answer = Answer(first: bool, second: bool, third: bool, leftover: bool)

  // ---------------------------------------------------------------- copying one path

  /** copyPath: the destination afterwards, and whether it returned nil. A failed PutFile may leave
      anything at the path. */
  function CopyPath(c: Config, dst: set<Path>, p: Path, a: Answer): (r: (set<Path>, bool)) {
    if c.dryRun then (dst, true)
    else if !a.first then (dst, false)
    else if p in dst && !c.force then (dst, true)
    else if !a.second then (dst, false)
    else if !a.third then (if a.leftover then dst + {p} else dst - {p}, false)
    else (dst + {p}, true)
  }

  lemma CopyPathMeans(c: Config, dst: set<Path>, p: Path, a: Answer)
    ensures var (dst', ok) := CopyPath(c, dst, p, a);
            && (ok && !c.dryRun ==> dst' == dst + {p})
            && (c.dryRun ==> ok && dst' == dst)
            && dst' - {p} == dst - {p}
  {
  }

  // ---------------------------------------------------------------- the protocol

  /** Where a worker is: waiting on the channel; before bucket `i` of its checkpoint; copying bucket
      `i`, which it claimed; before category `i`; gone. */
  datatype Worker =
    | Waiting
    | AtBucket(ix: uint32, i: nat)
    | Copying(ix: uint32, i: nat, bucket: Hash)
    | AtCategory(ix: uint32, i: nat)
    | Finished

  /** `sent` checkpoints have been received; `started` is the history of bucket copies. `errors`
      counts what the uint32 `errs` counts modulo 2^32. */
  datatype State = State(sent: nat, workers: seq<Worker>, claimed: set<Hash>, started: seq<Hash>, dst: set<Path>,
      errors: nat)

  function Start(dst: set<Path>, concurrency: nat): (s: State) {
    State(0, seq(concurrency, i => Waiting), {}, [], dst, 0)
  }

  predicate Enabled(s: State, w: nat) {
    w < |s.workers| && s.workers[w] != Finished
  }

  function Goto(s: State, w: nat, to: Worker): (s': State)
    requires w < |s.workers|
  {
    s.(workers := s.workers[w := to])
  }

  /** One step of worker `w`. */
  function Step(c: Config, s: State, w: nat, a: Answer): (s': State)
    requires Enabled(s, w)
  {
    match s.workers[w]
    case Waiting =>
      if s.sent >= |c.grid| then Goto(s, w, Finished)
      else if a.first then Goto(s, w, AtBucket(c.grid[s.sent], 0)).(sent := s.sent + 1)
      else Goto(s, w, Waiting).(sent := s.sent + 1, errors := s.errors + 1)
    case AtBucket(ix, i) =>
      if i >= |c.buckets(ix)| then Goto(s, w, AtCategory(ix, 0))
      else
        var b := c.buckets(ix)[i];
        if b in s.claimed then Goto(s, w, AtBucket(ix, i + 1))
        else Goto(s, w, Copying(ix, i, b)).(claimed := s.claimed + {b}, started := s.started + [b])
    case Copying(ix, i, b) =>
      var (dst, ok) := CopyPath(c, s.dst, BucketPath(b), a);
      Goto(s, w, AtBucket(ix, i + 1)).(dst := dst, errors := if ok then s.errors else s.errors + 1)
    case AtCategory(ix, i) =>
      if i >= |CATEGORIES| then Goto(s, w, Waiting)
      else
        var cat := CATEGORIES[i];
        if c.skipOptional && !Required(cat) then Goto(s, w, AtCategory(ix, i + 1))
        else
          var (dst, ok) := CopyPath(c, s.dst, CheckpointPath(cat, ix), a);
          Goto(s, w, AtCategory(ix, i + 1)).(
            dst := dst, errors := if ok || !Required(cat) then s.errors else s.errors + 1)
    case Finished => s
  }

  /** A schedule: which worker moves, and what the backends answer. */
  type Schedule = seq<(nat, Answer)>

  ghost predicate Runs(c: Config, s: State, run: Schedule)
    decreases |run|
  {
    run != [] ==> Enabled(s, run[0].0) && Runs(c, Step(c, s, run[0].0, run[0].1), run[1..])
  }

  ghost function After(c: Config, s: State, run: Schedule): (s': State)
    requires Runs(c, s, run)
    decreases |run|
  {
    if run == [] then s else After(c, Step(c, s, run[0].0, run[0].1), run[1..])
  }

  /** wg.Wait returns when every worker is gone. */
  predicate AllGone(s: State) {
    forall w :: 0 <= w < |s.workers| ==> s.workers[w] == Finished
  }

  /** Mirror's own result: no errors counted, in 32 bits, the final root update included. */
  predicate ReturnsNil(s: State, rootOk: bool) {
    Wrap(Wrap(s.errors) + if rootOk then 0 else 1) == 0
  }

  // ---------------------------------------------------------------- invariants

  /** Bucket `b` is taken care of: copied, or being copied by the worker who claimed it. */
  ghost predicate Handled(s: State, b: Hash) {
    BucketPath(b) in s.dst || exists w :: 0 <= w < |s.workers| && Copies(s.workers[w], b)
  }

  predicate Copies(w: Worker, b: Hash) {
    w.Copying? && w.bucket == b
  }

  /** A checkpoint whose buckets before `i` were claimed. */
  ghost predicate Claimed(c: Config, s: State, ix: uint32, i: nat) {
    forall j :: 0 <= j < i && j < |c.buckets(ix)| ==> c.buckets(ix)[j] in s.claimed
  }

  /** The required files of a checkpoint among the first `i` categories are in the destination. */
  ghost predicate FilesThere(s: State, ix: uint32, i: nat) {
    forall j :: 0 <= j < i && j < |CATEGORIES| && Required(CATEGORIES[j]) ==> CheckpointPath(CATEGORIES[j], ix) in s.dst
  }

  /** What a worker's position says about its checkpoint. */
  ghost predicate Position(c: Config, s: State, w: Worker) {
    match w
    case AtBucket(ix, i) => Claimed(c, s, ix, i)
    case Copying(ix, i, _) => Claimed(c, s, ix, i + 1)
    case AtCategory(ix, i) => Claimed(c, s, ix, |c.buckets(ix)|) && FilesThere(s, ix, i)
    case Waiting => true
    case Finished => s.sent == |c.grid|
  }

  predicate Holds(w: Worker, ix: uint32) {
    !w.Waiting? && !w.Finished? && w.ix == ix
  }

  ghost predicate Complete(c: Config, s: State, ix: uint32) {
    Claimed(c, s, ix, |c.buckets(ix)|) && FilesThere(s, ix, |CATEGORIES|)
  }

  /** While nothing has gone wrong: every received checkpoint is held by a worker or complete. */
  ghost predicate Sound(c: Config, s: State) {
    && s.sent <= |c.grid|
    && (forall w :: 0 <= w < |s.workers| ==> Position(c, s, s.workers[w]))
    && (forall b :: b in s.claimed ==> Handled(s, b))
    && (forall k :: 0 <= k < s.sent ==> Kept(c, s, c.grid[k]))
  }

  ghost predicate Kept(c: Config, s: State, ix: uint32) {
    Complete(c, s, ix) || exists w :: 0 <= w < |s.workers| && Holds(s.workers[w], ix)
  }

  /** Bucket copies started are the claims, each once. */
  ghost predicate Once(s: State) {
    && (forall b :: b in s.claimed <==> b in s.started)
    && forall i, j :: 0 <= i < j < |s.started| ==> s.started[i] != s.started[j]
  }

  lemma StepKeepsOnce(c: Config, s: State, w: nat, a: Answer)
    requires Once(s) && Enabled(s, w)
    ensures Once(Step(c, s, w, a))
  {
  }

  /** From `s` to `s'` nothing claimed, received or copied is lost, optional files aside. */
  ghost predicate Grows(s: State, s': State) {
    && s.claimed <= s'.claimed && s.sent <= s'.sent
    && forall p :: p in s.dst && !(p.CheckpointPath? && !Required(p.category)) ==> p in s'.dst
  }

  /** A step that counts no error loses nothing, and a finished copy is there. */
  lemma StepGrows(c: Config, s: State, w: nat, a: Answer)
    requires !c.dryRun && Enabled(s, w) && Step(c, s, w, a).errors == s.errors
    ensures Grows(s, Step(c, s, w, a))
    ensures s.workers[w].Copying? ==> BucketPath(s.workers[w].bucket) in Step(c, s, w, a).dst
    ensures s.workers[w].AtCategory? && s.workers[w].i < |CATEGORIES| && Required(CATEGORIES[s.workers[w].i]) ==>
              CheckpointPath(CATEGORIES[s.workers[w].i], s.workers[w].ix) in Step(c, s, w, a).dst
  {
    var me := s.workers[w];
    if me.Copying? { CopyPathMeans(c, s.dst, BucketPath(me.bucket), a); }
    if me.AtCategory? && me.i < |CATEGORIES| { CopyPathMeans(c, s.dst, CheckpointPath(CATEGORIES[me.i], me.ix), a); }
  }

  lemma PositionGrows(c: Config, s: State, s': State, v: Worker)
    requires Position(c, s, v) && Grows(s, s') && (v.Finished? ==> s'.sent == s.sent)
    ensures Position(c, s', v)
  {
  }

  lemma CompleteGrows(c: Config, s: State, s': State, ix: uint32)
    requires Complete(c, s, ix) && Grows(s, s')
    ensures Complete(c, s', ix)
  {
  }

  /** The moving worker arrives where its position's facts hold. */
  lemma MoverPosition(c: Config, s: State, w: nat, a: Answer)
    requires !c.dryRun && Enabled(s, w) && Step(c, s, w, a).errors == s.errors
    requires Position(c, s, s.workers[w]) && s.sent <= |c.grid|
    ensures Position(c, Step(c, s, w, a), Step(c, s, w, a).workers[w])
  {
    hide CopyPath;
    StepGrows(c, s, w, a);
  }

  lemma StepKeepsHandled(c: Config, s: State, w: nat, a: Answer, b: Hash)
    requires !c.dryRun && Enabled(s, w) && Step(c, s, w, a).errors == s.errors
    requires b in Step(c, s, w, a).claimed && (b in s.claimed ==> Handled(s, b))
    ensures Handled(Step(c, s, w, a), b)
  {
    hide CopyPath;
    var s' := Step(c, s, w, a);
    StepGrows(c, s, w, a);
    if b in s.claimed {
      if BucketPath(b) !in s.dst {
        var v :| 0 <= v < |s.workers| && Copies(s.workers[v], b);
        if v != w { assert Copies(s'.workers[v], b); }
      }
    } else {
      assert Copies(s'.workers[w], b);
    }
  }

  lemma StepKeepsKept(c: Config, s: State, w: nat, a: Answer, ix: uint32)
    requires !c.dryRun && Enabled(s, w) && Step(c, s, w, a).errors == s.errors
    requires Position(c, s, s.workers[w]) && Kept(c, s, ix)
    ensures Kept(c, Step(c, s, w, a), ix)
  {
    hide CopyPath, Complete, Claimed, FilesThere;
    var s' := Step(c, s, w, a);
    StepGrows(c, s, w, a);
    if Complete(c, s, ix) {
      CompleteGrows(c, s, s', ix);
    } else {
      var v :| 0 <= v < |s.workers| && Holds(s.workers[v], ix);
      if v != w {
        assert Holds(s'.workers[v], ix);
      } else if s'.workers[w].Waiting? {
        LastCategory(c, s, s', ix, s.workers[w].i);
      } else {
        assert Holds(s'.workers[w], ix);
      }
    }
  }

  lemma LastCategory(c: Config, s: State, s': State, ix: uint32, i: nat)
    requires Position(c, s, AtCategory(ix, i)) && i >= |CATEGORIES| && Grows(s, s')
    ensures Complete(c, s', ix)
  {
  }

  /** A step either counts an error or keeps the protocol sound. */
  lemma StepKeepsSound(c: Config, s: State, w: nat, a: Answer)
    requires !c.dryRun && Sound(c, s) && Enabled(s, w)
    requires Step(c, s, w, a).errors == s.errors
    ensures Sound(c, Step(c, s, w, a))
  {
    hide CopyPath, Position, Kept, Handled;
    var s' := Step(c, s, w, a);
    StepGrows(c, s, w, a);
    forall v | 0 <= v < |s'.workers| ensures Position(c, s', s'.workers[v]) {
      if v == w {
        MoverPosition(c, s, w, a);
      } else {
        AfterFinish(c, s, w, a, v);
        PositionGrows(c, s, s', s.workers[v]);
      }
    }
    forall b | b in s'.claimed ensures Handled(s', b) {
      StepKeepsHandled(c, s, w, a, b);
    }
    forall k | 0 <= k < s'.sent ensures Kept(c, s', c.grid[k]) {
      if k < s.sent {
        StepKeepsKept(c, s, w, a, c.grid[k]);
      } else {
        NewlyHeld(c, s, w, a);
      }
    }
  }

  /** Once a worker has seen the channel closed, nothing more is sent. */
  lemma AfterFinish(c: Config, s: State, w: nat, a: Answer, v: nat)
    requires Enabled(s, w) && v < |s.workers| && Position(c, s, s.workers[v])
    ensures s.workers[v].Finished? ==> Step(c, s, w, a).sent == s.sent
  {
  }

  lemma NewlyHeld(c: Config, s: State, w: nat, a: Answer)
    requires Enabled(s, w) && Step(c, s, w, a).errors == s.errors && Step(c, s, w, a).sent == s.sent + 1 <= |c.grid|
    ensures Kept(c, Step(c, s, w, a), c.grid[s.sent])
  {
    assert Holds(Step(c, s, w, a).workers[w], c.grid[s.sent]);
  }

  // ---------------------------------------------------------------- whole runs

  lemma {:induction false} RunKeepsOnce(c: Config, s: State, run: Schedule)
    requires Once(s) && Runs(c, s, run)
    ensures Once(After(c, s, run))
    decreases |run|
  {
    hide Step;
    if run != [] {
      StepKeepsOnce(c, s, run[0].0, run[0].1);
      RunKeepsOnce(c, Step(c, s, run[0].0, run[0].1), run[1..]);
    }
  }

  lemma ErrorsGrow(c: Config, s: State, w: nat, a: Answer)
    requires Enabled(s, w)
    ensures Step(c, s, w, a).errors >= s.errors && |Step(c, s, w, a).workers| == |s.workers|
  {
  }

  /** As long as no error was counted, the protocol is sound. */
  lemma {:induction false} RunKeepsSound(c: Config, s: State, run: Schedule)
    requires !c.dryRun && Runs(c, s, run) && (s.errors == 0 ==> Sound(c, s))
    ensures |After(c, s, run).workers| == |s.workers| && After(c, s, run).errors >= s.errors
    ensures After(c, s, run).errors == 0 ==> Sound(c, After(c, s, run))
    decreases |run|
  {
    hide Step, Sound;
    if run != [] {
      var next := Step(c, s, run[0].0, run[0].1);
      ErrorsGrow(c, s, run[0].0, run[0].1);
      if next.errors == 0 { StepKeepsSound(c, s, run[0].0, run[0].1); }
      RunKeepsSound(c, next, run[1..]);
    }
  }

  lemma StartIsSound(c: Config, dst: set<Path>, concurrency: nat)
    ensures Sound(c, Start(dst, concurrency)) && Once(Start(dst, concurrency))
  {
  }

  /** No bucket is copied twice, under any schedule and any failures. */
  lemma BucketsCopiedOnce(c: Config, dst: set<Path>, concurrency: nat, run: Schedule)
    requires Runs(c, Start(dst, concurrency), run)
    ensures var s := After(c, Start(dst, concurrency), run);
            forall i, j :: 0 <= i < j < |s.started| ==> s.started[i] != s.started[j]
  {
    StartIsSound(c, dst, concurrency);
    RunKeepsOnce(c, Start(dst, concurrency), run);
  }

  /** Everything Mirror promises of one checkpoint: the required files and the referenced buckets. */
  ghost predicate Mirrored(c: Config, dst: set<Path>, ix: uint32) {
    && (forall cat: Category :: cat != Scp ==> CheckpointPath(cat, ix) in dst)
    && (forall b :: b in c.buckets(ix) ==> BucketPath(b) in dst)
  }

  /** If at least one worker ran, all are gone, and no error was counted, everything is there. */
  lemma ErrorFreeMirrorIsComplete(c: Config, dst: set<Path>, concurrency: nat, run: Schedule)
    requires !c.dryRun && concurrency >= 1 && Runs(c, Start(dst, concurrency), run)
    requires AllGone(After(c, Start(dst, concurrency), run)) && After(c, Start(dst, concurrency), run).errors == 0
    ensures forall k :: 0 <= k < |c.grid| ==> Mirrored(c, After(c, Start(dst, concurrency), run).dst, c.grid[k])
  {
    hide After, Runs;
    var s := After(c, Start(dst, concurrency), run);
    StartIsSound(c, dst, concurrency);
    RunKeepsSound(c, Start(dst, concurrency), run);
    assert Position(c, s, s.workers[0]);
    forall k | 0 <= k < |c.grid| ensures Mirrored(c, s.dst, c.grid[k]) {
      assert Kept(c, s, c.grid[k]);
      CompleteIsMirrored(c, s, c.grid[k]);
    }
  }

  lemma CompleteIsMirrored(c: Config, s: State, ix: uint32)
    requires AllGone(s) && Kept(c, s, ix) && forall b :: b in s.claimed ==> Handled(s, b)
    ensures Mirrored(c, s.dst, ix)
  {
    AllCategories();
    forall cat: Category | Required(cat) ensures CheckpointPath(cat, ix) in s.dst {
      assert cat in CATEGORIES;
      var j :| 0 <= j < |CATEGORIES| && CATEGORIES[j] == cat;
    }
    forall b | b in c.buckets(ix) ensures BucketPath(b) in s.dst {
      var j :| 0 <= j < |c.buckets(ix)| && c.buckets(ix)[j] == b;
      assert b in s.claimed;
    }
  }

  // ---------------------------------------------------------------- termination

  function Left(n: nat, i: nat): (k: nat) {
    if i < n then n - i else 0
  }

  /** Steps a worker can still make before it is gone, if it receives nothing more. */
  function Rest(c: Config, w: Worker): (k: nat) {
    match w
    case Finished => 0
    case Waiting => 1
    case AtCategory(_, i) => 2 + Left(|CATEGORIES|, i)
    case AtBucket(ix, i) => 3 + |CATEGORIES| + 2 * Left(|c.buckets(ix)|, i)
    case Copying(ix, i, _) => 4 + |CATEGORIES| + 2 * Left(|c.buckets(ix)|, i + 1)
  }

  function RestOfAll(c: Config, ws: seq<Worker>): (k: nat) {
    if ws == [] then 0 else RestOfAll(c, ws[..|ws| - 1]) + Rest(c, ws[|ws| - 1])
  }

  /** Steps for the checkpoints not yet received. */
  function Unsent(c: Config, sent: nat): (k: nat)
    decreases |c.grid| - sent
  {
    if sent >= |c.grid| then 0 else 3 + |CATEGORIES| + 2 * |c.buckets(c.grid[sent])| + Unsent(c, sent + 1)
  }

  function Bound(c: Config, s: State): (k: nat) {
    Unsent(c, s.sent) + RestOfAll(c, s.workers)
  }

  lemma {:induction false} RestOfUpdate(c: Config, ws: seq<Worker>, w: nat, to: Worker)
    requires w < |ws|
    ensures RestOfAll(c, ws[w := to]) == RestOfAll(c, ws) - Rest(c, ws[w]) + Rest(c, to)
  {
    hide Rest;
    var n := |ws| - 1;
    if w < n {
      RestOfUpdate(c, ws[..n], w, to);
      assert ws[w := to][..n] == ws[..n][w := to];
    } else {
      assert ws[w := to][..n] == ws[..n];
    }
  }

  lemma StepDecreases(c: Config, s: State, w: nat, a: Answer)
    requires Enabled(s, w)
    ensures Bound(c, Step(c, s, w, a)) < Bound(c, s)
  {
    hide CopyPath, RestOfAll;
    RestOfUpdate(c, s.workers, w, Step(c, s, w, a).workers[w]);
    var s' := Step(c, s, w, a);
    assert s'.workers == s.workers[w := s'.workers[w]];
  }

  /** Every schedule comes to an end, and one that cannot go on has all workers gone. */
  lemma {:induction false} RunsAreBounded(c: Config, s: State, run: Schedule)
    requires Runs(c, s, run)
    ensures |run| + Bound(c, After(c, s, run)) <= Bound(c, s)
    ensures AllGone(After(c, s, run)) <==> forall w :: !Enabled(After(c, s, run), w)
    decreases |run|
  {
    hide Step, Bound;
    if run != [] {
      StepDecreases(c, s, run[0].0, run[0].1);
      RunsAreBounded(c, Step(c, s, run[0].0, run[0].1), run[1..]);
    } else {
      assert forall w :: 0 <= w < |s.workers| ==> (Enabled(s, w) <==> s.workers[w] != Finished);
    }
  }

  lemma RunsCons(c: Config, s: State, w: nat, a: Answer, run: Schedule)
    requires Enabled(s, w)
    ensures Runs(c, s, [(w, a)] + run) <==> Runs(c, Step(c, s, w, a), run)
    ensures Runs(c, s, [(w, a)] + run) ==> After(c, s, [(w, a)] + run) == After(c, Step(c, s, w, a), run)
  {
    hide Step;
    assert ([(w, a)] + run)[1..] == run;
  }
}
