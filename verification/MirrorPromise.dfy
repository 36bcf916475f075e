/** What a nil result of Mirror is worth: its 32-bit error count can wrap, and exactly when that cannot
    hide a missing file. */
module MirrorPromise {
  import opened Common
  import opened Checkpoints
  import opened ArchiveScan
  import opened ArchiveMirror

  // ---------------------------------------------------------------- how many errors a run can count

  /** The buckets that the generated checkpoints reference. */
  function Referenced(c: Config): (bs: set<Hash>) {
    set k, i | 0 <= k < |c.grid| && 0 <= i < |c.buckets(c.grid[k])| :: c.buckets(c.grid[k])[i]
  }

  /** One error for each required file of each checkpoint and one for each bucket. */
  function Most(c: Config): (n: nat) {
    4 * |c.grid| + |Referenced(c)|
  }

  /** With the root update, too few to wrap a uint32. */
  predicate CountsFit(c: Config) {
    Most(c) + 1 < TWO32
  }

  /** The errors a worker can still count for the checkpoint it holds, and the bucket it claimed. */
  function Share(w: Worker): (n: nat) {
    match w
    case AtBucket(_, _) => 4
    case Copying(_, _, _) => 5
    case AtCategory(_, i) => Left(4, i)
    case _ => 0
  }

  function ShareOfAll(ws: seq<Worker>): (n: nat) {
    if ws == [] then 0 else ShareOfAll(ws[..|ws| - 1]) + Share(ws[|ws| - 1])
  }

  lemma {:induction false} ShareOfUpdate(ws: seq<Worker>, w: nat, to: Worker)
    requires w < |ws|
    ensures ShareOfAll(ws[w := to]) == ShareOfAll(ws) - Share(ws[w]) + Share(to)
    ensures Share(ws[w]) <= ShareOfAll(ws)
  {
    hide Share;
    var n := |ws| - 1;
    if w < n {
      ShareOfUpdate(ws[..n], w, to);
      assert ws[w := to][..n] == ws[..n][w := to];
    } else {
      assert ws[w := to][..n] == ws[..n];
    }
  }

  /** The errors that can still be counted. */
  ghost function Potential(c: Config, s: State): (n: nat) {
    4 * Left(|c.grid|, s.sent) + ShareOfAll(s.workers) + |Referenced(c) - s.claimed|
  }

  /** Workers hold generated checkpoints. */
  ghost predicate Placed(c: Config, s: State) {
    forall w :: 0 <= w < |s.workers| ==> OnGenerated(c, s.workers[w])
  }

  predicate OnGenerated(c: Config, w: Worker) {
    w.Waiting? || w.Finished? || w.ix in c.grid
  }

  /** The path a worker is about to copy, if a failure of the copy counts. */
  function Counted(w: Worker): (p: Option<Path>) {
    match w
    case Copying(_, _, b) => Some(BucketPath(b))
    case AtCategory(ix, i) => if i < 4 then Some(CheckpointPath(CATEGORIES[i], ix)) else None
    case _ => None
  }

  /** The worker asks for an archive state and does not get it. */
  predicate Unreadable(c: Config, s: State, w: nat, a: Answer)
    requires w < |s.workers|
  {
    s.workers[w].Waiting? && s.sent < |c.grid| && !a.first
  }

  /** What a step makes of the errors counted, the errors still to come, and the destination. */
  lemma StepPotential(c: Config, s: State, w: nat, a: Answer)
    requires Placed(c, s) && Enabled(s, w)
    ensures Placed(c, Step(c, s, w, a))
    ensures var s', p := Step(c, s, w, a), Counted(s.workers[w]);
            if p.Some? then
              var (dst, ok) := CopyPath(c, s.dst, p.value, a);
              && Potential(c, s') + 1 == Potential(c, s)
              && s'.errors == (if ok then s.errors else s.errors + 1) && s'.dst == dst
            else if Unreadable(c, s, w, a) then s'.errors == s.errors + 1 && Potential(c, s') + 4 == Potential(c, s)
            else s'.errors == s.errors && Potential(c, s') == Potential(c, s)
  {
    var s', me := Step(c, s, w, a), s.workers[w];
    StepShares(c, s, w, a);
    assert OnGenerated(c, me);
    if s'.claimed != s.claimed {
      ClaimOne(c, s, me);
    }
  }

  /** The same without the claims. */
  lemma StepShares(c: Config, s: State, w: nat, a: Answer)
    requires Enabled(s, w)
    ensures var s', p, me := Step(c, s, w, a), Counted(s.workers[w]), s.workers[w];
            var now, left := 4 * Left(|c.grid|, s.sent) + ShareOfAll(s.workers),
                              4 * Left(|c.grid|, s'.sent) + ShareOfAll(s'.workers);
            if p.Some? then
              var (dst, ok) := CopyPath(c, s.dst, p.value, a);
              && left + 1 == now && s'.claimed == s.claimed
              && s'.errors == (if ok then s.errors else s.errors + 1) && s'.dst == dst
            else if Unreadable(c, s, w, a) then
              s'.errors == s.errors + 1 && left + 4 == now && s'.claimed == s.claimed
            else
              && s'.errors == s.errors
              && if s'.claimed == s.claimed then left == now
                 else
                   && left == now + 1 && me.AtBucket? && me.i < |c.buckets(me.ix)|
                   && c.buckets(me.ix)[me.i] !in s.claimed && s'.claimed == s.claimed + {c.buckets(me.ix)[me.i]}
  {
    hide CopyPath, ShareOfAll;
    var s', me := Step(c, s, w, a), s.workers[w];
    ShareOfUpdate(s.workers, w, s'.workers[w]);
    assert s'.workers == s.workers[w := s'.workers[w]];
    assert me.AtCategory? && me.i < 4 ==> Required(CATEGORIES[me.i]);
    assert me.AtCategory? && 4 <= me.i < |CATEGORIES| ==> CATEGORIES[me.i] == Scp;
  }

  /** A claim uses up one of the buckets not yet claimed. */
  lemma ClaimOne(c: Config, s: State, me: Worker)
    requires me.AtBucket? && me.i < |c.buckets(me.ix)| && me.ix in c.grid && c.buckets(me.ix)[me.i] !in s.claimed
    ensures var b := c.buckets(me.ix)[me.i];
            |Referenced(c) - (s.claimed + {b})| + 1 == |Referenced(c) - s.claimed|
  {
    var b := c.buckets(me.ix)[me.i];
    var k :| 0 <= k < |c.grid| && c.grid[k] == me.ix;
    assert c.buckets(c.grid[k])[me.i] in Referenced(c);
    assert Referenced(c) - s.claimed == (Referenced(c) - (s.claimed + {b})) + {b};
  }

  lemma {:induction false} RunPotential(c: Config, s: State, run: Schedule)
    requires Placed(c, s) && Runs(c, s, run)
    ensures After(c, s, run).errors <= s.errors + Potential(c, s)
    decreases |run|
  {
    hide Step, Potential, Placed, CopyPath;
    if run != [] {
      StepPotential(c, s, run[0].0, run[0].1);
      RunPotential(c, Step(c, s, run[0].0, run[0].1), run[1..]);
    }
  }

  lemma StartPotential(c: Config, dst: set<Path>, concurrency: nat)
    ensures Placed(c, Start(dst, concurrency)) && Potential(c, Start(dst, concurrency)) == Most(c)
  {
    IdleShare(Start(dst, concurrency).workers);
    assert Referenced(c) - {} == Referenced(c);
  }

  lemma {:induction false} IdleShare(ws: seq<Worker>)
    requires forall w :: 0 <= w < |ws| ==> ws[w].Waiting? || ws[w].Finished?
    ensures ShareOfAll(ws) == 0
  {
    if ws != [] { IdleShare(ws[..|ws| - 1]); }
  }

  /** No schedule and no failure counts more than one error for each required file and each bucket. */
  lemma ErrorsBounded(c: Config, dst: set<Path>, concurrency: nat, run: Schedule)
    requires Runs(c, Start(dst, concurrency), run)
    ensures After(c, Start(dst, concurrency), run).errors <= Most(c)
  {
    hide Runs, After, Potential;
    StartPotential(c, dst, concurrency);
    RunPotential(c, Start(dst, concurrency), run);
  }

  lemma NilExactly(s: State, rootOk: bool)
    ensures ReturnsNil(s, rootOk) <==> (s.errors + if rootOk then 0 else 1) % TWO32 == 0
  {
  }

  /** If the count cannot wrap, nil means that nothing at all went wrong. */
  lemma NilMeansNoError(c: Config, dst: set<Path>, concurrency: nat, run: Schedule, rootOk: bool)
    requires (concurrency == 0 || CountsFit(c)) && Runs(c, Start(dst, concurrency), run)
    ensures ReturnsNil(After(c, Start(dst, concurrency), run), rootOk)
       <==> After(c, Start(dst, concurrency), run).errors == 0 && rootOk
  {
    ErrorsBounded(c, dst, concurrency, run);
    NilExactly(After(c, Start(dst, concurrency), run), rootOk);
    if concurrency == 0 { NoWorkersNoSteps(c, dst, run); }
  }

  lemma NoWorkersNoSteps(c: Config, dst: set<Path>, run: Schedule)
    requires Runs(c, Start(dst, 0), run)
    ensures After(c, Start(dst, 0), run) == Start(dst, 0)
  {
  }

  // ---------------------------------------------------------------- driving one worker

  function Place(cat: Category): (i: nat)
    ensures i < |CATEGORIES| && CATEGORIES[i] == cat && (Required(cat) <==> i < 4)
  {
    match cat
    case History => 0
    case Ledger => 1
    case Transactions => 2
    case Results => 3
    case Scp => 4
  }

  /** A path that Mirror must leave in the destination. */
  predicate Needed(c: Config, p: Path) {
    match p
    case BucketPath(b) => b in Referenced(c)
    case CheckpointPath(cat, ix) => Required(cat) && ix in c.grid
  }

  /** How often a checkpoint is still to be received. */
  function Ahead(c: Config, sent: nat, ix: uint32): (n: nat)
    ensures n <= Left(|c.grid|, sent)
    decreases |c.grid| - sent
  {
    if sent >= |c.grid| then 0 else (if c.grid[sent] == ix then 1 else 0) + Ahead(c, sent + 1, ix)
  }

  /** Whether worker `w` will copy the path before it receives again. */
  function Mine(w: Worker, p: Path): (n: nat) {
    match p
    case BucketPath(b) => if w.Copying? && w.bucket == b then 1 else 0
    case CheckpointPath(cat, ix) =>
      match w
      case AtBucket(jx, _) => if jx == ix then 1 else 0
      case Copying(jx, _, _) => if jx == ix then 1 else 0
      case AtCategory(jx, i) => if jx == ix && i <= Place(cat) then 1 else 0
      case _ => 0
  }

  /** How often the path is still to be copied when only worker 0 works; no path, no copies. */
  ghost function Coming(c: Config, s: State, p: Option<Path>): (n: nat)
    requires s.workers != []
  {
    match p
    case None => 0
    case Some(BucketPath(b)) => (if b in Referenced(c) - s.claimed then 1 else 0) + Mine(s.workers[0], p.value)
    case Some(CheckpointPath(_, ix)) => Ahead(c, s.sent, ix) + Mine(s.workers[0], p.value)
  }

  /** The buckets of every checkpoint received are claimed, those of the one in hand as far as it goes. */
  ghost predicate Claims(c: Config, s: State)
    requires s.workers != []
  {
    && s.sent <= |c.grid|
    && (forall k :: 0 <= k < s.sent ==>
          Claimed(c, s, c.grid[k], |c.buckets(c.grid[k])|) || AmongBuckets(s.workers[0], c.grid[k]))
    && match s.workers[0]
       case AtBucket(ix, i) => Claimed(c, s, ix, i)
       case Copying(ix, i, _) => Claimed(c, s, ix, i + 1)
       case _ => true
  }

  predicate AmongBuckets(w: Worker, ix: uint32) {
    (w.AtBucket? || w.Copying?) && w.ix == ix
  }

  /** Worker 0 works alone: the others wait until the channel is closed. */
  ghost predicate Alone(c: Config, s: State) {
    && s.workers != []
    && forall w :: 0 <= w < |s.workers| ==>
         (w > 0 ==> s.workers[w].Waiting? || s.workers[w].Finished?) && (s.workers[w].Finished? ==> s.sent >= |c.grid|)
  }

  /** On the way to `total` errors, with the path `p` gone at the end. */
  ghost predicate Driven(c: Config, s: State, p: Option<Path>, total: nat) {
    && Alone(c, s) && Placed(c, s) && Claims(c, s)
    && s.errors + Coming(c, s, p) <= total <= s.errors + Potential(c, s)
    && (p.Some? ==> Needed(c, p.value) && (p.value in s.dst ==> c.force && Coming(c, s, p) > 0))
  }

  const Good := Answer(true, true, true, false)
  const Bad := Answer(false, false, false, false)
  const Gone := Answer(true, true, false, false)

  /** The backends' answers: the path is lost whenever it comes up, and other copies succeed as long as
      enough errors remain to come. */
  ghost function Reply(c: Config, s: State, p: Option<Path>, total: nat): (a: Answer)
    requires s.workers != []
  {
    var q := Counted(s.workers[0]);
    if q.None? then Good
    else if q == p then Gone
    else if s.errors + Potential(c, s) > total then Good
    else Bad
  }

  /** What is still to come of a path is part of what is still to come at all. */
  lemma ComingWithin(c: Config, s: State, p: Option<Path>)
    requires s.workers != [] && (p.Some? ==> Needed(c, p.value))
    ensures Coming(c, s, p) <= Potential(c, s)
  {
    ShareOfUpdate(s.workers, 0, s.workers[0]);
    if p.Some? && p.value.BucketPath? && p.value.hash in Referenced(c) - s.claimed {
      assert {p.value.hash} <= Referenced(c) - s.claimed;
      OneOf(p.value.hash, Referenced(c) - s.claimed);
    }
  }

  lemma OneOf<T>(x: T, s: set<T>)
    requires x in s
    ensures |s| >= 1
  {
  }

  /** The copies of the path still to come, after a step of worker 0. */
  lemma ComingStep(c: Config, s: State, p: Option<Path>, a: Answer)
    requires s.workers != [] && s.workers[0] != Finished && OnGenerated(c, s.workers[0])
    requires !Unreadable(c, s, 0, a) && (p.Some? ==> Needed(c, p.value))
    ensures var s' := Step(c, s, 0, a);
            s'.workers != []
            && Coming(c, s', p) == Coming(c, s, p) - if p.Some? && Counted(s.workers[0]) == p then 1 else 0
  {
    if p.Some? {
      match p.value
      case BucketPath(b) => ComingBucket(c, s, b, a);
      case CheckpointPath(cat, ix) => ComingFile(c, s, cat, ix, a);
    }
  }

  lemma ComingBucket(c: Config, s: State, b: Hash, a: Answer)
    requires s.workers != [] && s.workers[0] != Finished && OnGenerated(c, s.workers[0]) && b in Referenced(c)
    ensures var s', p := Step(c, s, 0, a), Some(BucketPath(b));
            Coming(c, s', p) == Coming(c, s, p) - if Counted(s.workers[0]) == p then 1 else 0
  {
    hide CopyPath;
    var me := s.workers[0];
    if me.Copying? && me.bucket == b {
    }
  }

  lemma ComingFile(c: Config, s: State, cat: Category, ix: uint32, a: Answer)
    requires s.workers != [] && s.workers[0] != Finished && Required(cat) && !Unreadable(c, s, 0, a)
    ensures var s', p := Step(c, s, 0, a), Some(CheckpointPath(cat, ix));
            Coming(c, s', p) == Coming(c, s, p) - if Counted(s.workers[0]) == p then 1 else 0
  {
    hide CopyPath;
    var me := s.workers[0];
    if me.AtCategory? && me.i < |CATEGORIES| {
      assert CATEGORIES[me.i] == cat <==> me.i == Place(cat) by { Places(me.i, cat); }
    }
  }

  lemma Places(i: nat, cat: Category)
    requires i < |CATEGORIES|
    ensures CATEGORIES[i] == cat <==> i == Place(cat)
  {
    assert i == 0 || i == 1 || i == 2 || i == 3 || i == 4;
  }

  /** A step of worker 0 keeps the claims of the checkpoints received. */
  lemma ClaimsStep(c: Config, s: State, a: Answer)
    requires s.workers != [] && s.workers[0] != Finished && Claims(c, s) && !Unreadable(c, s, 0, a)
    ensures var s' := Step(c, s, 0, a); s'.workers != [] && Claims(c, s')
  {
    hide CopyPath;
    var s', me := Step(c, s, 0, a), s.workers[0];
    assert s.claimed <= s'.claimed;
    forall k | 0 <= k < s'.sent
      ensures Claimed(c, s', c.grid[k], |c.buckets(c.grid[k])|) || AmongBuckets(s'.workers[0], c.grid[k])
    {
      if k < s.sent && Claimed(c, s, c.grid[k], |c.buckets(c.grid[k])|) {
        ClaimedGrows(c, s, s', c.grid[k], |c.buckets(c.grid[k])|);
      }
    }
  }

  lemma ClaimedGrows(c: Config, s: State, s': State, ix: uint32, i: nat)
    requires Claimed(c, s, ix, i) && s.claimed <= s'.claimed
    ensures Claimed(c, s', ix, i)
  {
  }

  lemma AloneStep(c: Config, s: State, w: nat, a: Answer)
    requires Alone(c, s) && Enabled(s, w) && (w > 0 ==> s.workers[0].Finished?)
    ensures Alone(c, Step(c, s, w, a))
  {
    hide CopyPath;
  }

  /** Worker 0 stays on the way. */
  lemma DriveStep(c: Config, s: State, p: Option<Path>, total: nat)
    requires !c.dryRun && Driven(c, s, p, total) && s.workers[0] != Finished
    ensures Driven(c, Step(c, s, 0, Reply(c, s, p, total)), p, total)
  {
    assert s.workers != [];
    hide Step, Potential, Coming, Claims, Placed, Alone;
    var a := Reply(c, s, p, total);
    var s' := Step(c, s, 0, a);
    assert Enabled(s, 0);
    assert OnGenerated(c, s.workers[0]) by { PlacedAt(c, s, 0); }
    assert !Unreadable(c, s, 0, a);
    AloneStep(c, s, 0, a);
    StepPotential(c, s, 0, a);
    ClaimsStep(c, s, a);
    ComingStep(c, s, p, a);
    ComingWithin(c, s', p);
    if p.Some? { DstStep(c, s, p, a); }
  }

  lemma PlacedAt(c: Config, s: State, w: nat)
    requires Placed(c, s) && w < |s.workers|
    ensures OnGenerated(c, s.workers[w])
  {
  }

  /** No other copy touches the path. */
  lemma DstStep(c: Config, s: State, p: Option<Path>, a: Answer)
    requires !c.dryRun && s.workers != [] && s.workers[0] != Finished && p.Some? && Needed(c, p.value)
    ensures Counted(s.workers[0]) != p ==> (p.value in Step(c, s, 0, a).dst <==> p.value in s.dst)
    ensures Counted(s.workers[0]) == p && a == Gone && (p.value in s.dst ==> c.force) ==>
              p.value !in Step(c, s, 0, a).dst && Step(c, s, 0, a).errors == s.errors + 1
  {
  }

  /** When worker 0 is gone another one sees the channel closed. */
  lemma CloseStep(c: Config, s: State, p: Option<Path>, total: nat, w: nat)
    requires Driven(c, s, p, total) && s.workers[0].Finished? && Enabled(s, w)
    ensures Driven(c, Step(c, s, w, Good), p, total)
  {
    var s' := Step(c, s, w, Good);
    assert s.workers[w].Waiting? && s.sent >= |c.grid|;
    AloneStep(c, s, w, Good);
    assert s'.workers[0] == s.workers[0] && s'.workers == s.workers[w := Finished];
    StepPotential(c, s, w, Good);
    hide Potential, Placed;
    forall k | 0 <= k < s'.sent
      ensures Claimed(c, s', c.grid[k], |c.buckets(c.grid[k])|) || AmongBuckets(s'.workers[0], c.grid[k])
    {
      ClaimedGrows(c, s, s', c.grid[k], |c.buckets(c.grid[k])|);
    }
  }

  /** With all workers gone nothing is left to come: the count is the total, and the path is gone. */
  lemma DriveEnds(c: Config, s: State, p: Option<Path>, total: nat)
    requires Driven(c, s, p, total) && AllGone(s)
    ensures s.errors == total && (p.Some? ==> p.value !in s.dst)
  {
    IdleShare(s.workers);
    assert s.workers[0].Finished?;
    forall b | b in Referenced(c) ensures b in s.claimed {
      var k, i :| 0 <= k < |c.grid| && 0 <= i < |c.buckets(c.grid[k])| && c.buckets(c.grid[k])[i] == b;
      assert Claimed(c, s, c.grid[k], |c.buckets(c.grid[k])|);
    }
    assert Referenced(c) - s.claimed == {};
  }

  /** Any state on the way can be driven to the end. */
  lemma Drive(c: Config, s: State, p: Option<Path>, total: nat) returns (run: Schedule)
    requires !c.dryRun && Driven(c, s, p, total)
    ensures Runs(c, s, run) && AllGone(After(c, s, run))
    ensures After(c, s, run).errors == total && (p.Some? ==> p.value !in After(c, s, run).dst)
    decreases Bound(c, s)
  {
    if AllGone(s) {
      DriveEnds(c, s, p, total);
      run := [];
    } else {
      var w, a := NextReply(c, s, p, total);
      hide Step, Driven, Bound, Runs, After, AllGone;
      StepDecreases(c, s, w, a);
      var rest := Drive(c, Step(c, s, w, a), p, total);
      RunsCons(c, s, w, a, rest);
      run := [(w, a)] + rest;
    }
  }

  /** Worker 0 moves until it is gone, then the others. */
  lemma NextReply(c: Config, s: State, p: Option<Path>, total: nat) returns (w: nat, a: Answer)
    requires !c.dryRun && Driven(c, s, p, total) && !AllGone(s)
    ensures Enabled(s, w) && Driven(c, Step(c, s, w, a), p, total)
  {
    assert s.workers != [];
    hide Driven, Step;
    if s.workers[0] != Finished {
      w, a := 0, Reply(c, s, p, total);
      DriveStep(c, s, p, total);
    } else {
      w :| 0 <= w < |s.workers| && s.workers[w] != Finished;
      a := Good;
      CloseStep(c, s, p, total, w);
    }
  }

  // ---------------------------------------------------------------- totals that wrap

  /** The least total from `low` on that, with a failed root update, is a multiple of 2^32. */
  function WrappingTotal(low: nat): (n: nat)
    ensures n >= low && (n + 1) % TWO32 == 0
    ensures n <= (if low < TWO32 then TWO32 - 1 else low + TWO32)
  {
    var n := low + (TWO32 - 1 - low) % TWO32;
    assert n + 1 == TWO32 + low + ((TWO32 - 1 - low) % TWO32 - (TWO32 - 1));
    WrapsAt(low);
    n
  }

  lemma WrapsAt(low: nat)
    ensures (low + (TWO32 - 1 - low) % TWO32 + 1) % TWO32 == 0
    ensures low < TWO32 ==> low + (TWO32 - 1 - low) % TWO32 == TWO32 - 1
  {
    var d := TWO32 - 1 - low;
    var q := d / TWO32;
    assert d == q * TWO32 + d % TWO32;
    assert low + d % TWO32 + 1 == (1 - q) * TWO32;
  }

  /** If the count can wrap, some run that returns nil has counted errors; and of any path that is
      missing, or that force overwrites, some such run that leaves it out. */
  lemma WrappingRun(c: Config, dst: set<Path>, concurrency: nat, p: Option<Path>) returns (run: Schedule)
    requires !c.dryRun && concurrency >= 1 && !CountsFit(c)
    requires p.Some? ==> Needed(c, p.value) && (p.value in dst ==> c.force)
    ensures Runs(c, Start(dst, concurrency), run) && AllGone(After(c, Start(dst, concurrency), run))
    ensures ReturnsNil(After(c, Start(dst, concurrency), run), false)
    ensures p.Some? ==> p.value !in After(c, Start(dst, concurrency), run).dst
  {
    var s := Start(dst, concurrency);
    StartPotential(c, dst, concurrency);
    ComingAtStart(c, s, p);
    var total := WrappingTotal(Coming(c, s, p));
    hide Potential, Coming;
    assert Driven(c, s, p, total);
    run := Drive(c, s, p, total);
    NilExactly(After(c, s, run), false);
  }

  /** At the start a file is to come once for each time its checkpoint is generated, a bucket once. */
  lemma ComingAtStart(c: Config, s: State, p: Option<Path>)
    requires s.workers != [] && s.workers[0].Waiting? && s.sent == 0 && s.claimed == {}
    requires p.Some? ==> Needed(c, p.value)
    ensures Coming(c, s, p) <= MaxOf(|c.grid|, 1) && (p.Some? ==> Coming(c, s, p) >= 1)
  {
    if p.Some? && p.value.CheckpointPath? { AheadOfGrid(c, 0, p.value.checkpoint); }
  }

  lemma {:induction false} AheadOfGrid(c: Config, sent: nat, ix: uint32)
    requires ix in c.grid[if sent <= |c.grid| then sent else |c.grid|..]
    ensures Ahead(c, sent, ix) >= 1
    decreases |c.grid| - sent
  {
    if sent < |c.grid| && c.grid[sent] != ix {
      assert c.grid[sent..] == [c.grid[sent]] + c.grid[sent + 1..];
      AheadOfGrid(c, sent + 1, ix);
    }
  }

  // ---------------------------------------------------------------- exactly what nil means

  /** Every run that ends with nil leaves every generated checkpoint mirrored. */
  ghost predicate NilIsMirrored(c: Config, dst: set<Path>, concurrency: nat) {
    forall run, rootOk ::
      Runs(c, Start(dst, concurrency), run) && AllGone(After(c, Start(dst, concurrency), run))
      && ReturnsNil(After(c, Start(dst, concurrency), run), rootOk)
      ==> AllMirrored(c, After(c, Start(dst, concurrency), run).dst)
  }

  ghost predicate AllMirrored(c: Config, dst: set<Path>) {
    forall k :: 0 <= k < |c.grid| ==> Mirrored(c, dst, c.grid[k])
  }

  /** What a caller can know beforehand: there is nothing to lose, or a worker and a count that fits. */
  ghost predicate Trustworthy(c: Config, dst: set<Path>, concurrency: nat) {
    (AllMirrored(c, dst) && (concurrency == 0 || !c.force)) || (concurrency >= 1 && CountsFit(c))
  }

  lemma NeededOrNot(c: Config, dst: set<Path>)
    ensures AllMirrored(c, dst) <==> forall p :: Needed(c, p) ==> p in dst
  {
    if AllMirrored(c, dst) {
      forall p | Needed(c, p) ensures p in dst {
        match p
        case BucketPath(b) =>
          var k, i :| 0 <= k < |c.grid| && 0 <= i < |c.buckets(c.grid[k])| && c.buckets(c.grid[k])[i] == b;
          assert Mirrored(c, dst, c.grid[k]);
        case CheckpointPath(cat, ix) =>
          var k :| 0 <= k < |c.grid| && c.grid[k] == ix;
          assert Mirrored(c, dst, c.grid[k]);
      }
    }
    if forall p :: Needed(c, p) ==> p in dst {
      forall k | 0 <= k < |c.grid| ensures Mirrored(c, dst, c.grid[k]) {
        NeededHere(c, dst, k);
      }
    }
  }

  lemma NeededHere(c: Config, dst: set<Path>, k: nat)
    requires k < |c.grid| && forall p :: Needed(c, p) ==> p in dst
    ensures Mirrored(c, dst, c.grid[k])
  {
    forall cat: Category | Required(cat) ensures CheckpointPath(cat, c.grid[k]) in dst {
      assert Needed(c, CheckpointPath(cat, c.grid[k]));
    }
    forall b | b in c.buckets(c.grid[k]) ensures BucketPath(b) in dst {
      assert b in Referenced(c);
      assert Needed(c, BucketPath(b));
    }
  }

  /** Without force no copy takes anything away. */
  lemma {:induction false} RunKeepsFiles(c: Config, s: State, run: Schedule)
    requires !c.force && Runs(c, s, run)
    ensures s.dst <= After(c, s, run).dst
    decreases |run|
  {
    if run != [] {
      StepKeepsFiles(c, s, run[0].0, run[0].1);
      RunKeepsFiles(c, Step(c, s, run[0].0, run[0].1), run[1..]);
    }
  }

  lemma StepKeepsFiles(c: Config, s: State, w: nat, a: Answer)
    requires !c.force && Enabled(s, w)
    ensures s.dst <= Step(c, s, w, a).dst
  {
  }

  /** Exactly when nil means that everything is there, over every schedule and every failure of the
      backends. */
  lemma MirrorExactly(c: Config, dst: set<Path>, concurrency: nat)
    requires !c.dryRun
    ensures NilIsMirrored(c, dst, concurrency) <==> Trustworthy(c, dst, concurrency)
  {
    hide After, Runs, AllMirrored, CountsFit;
    if Trustworthy(c, dst, concurrency) {
      forall run, rootOk |
        Runs(c, Start(dst, concurrency), run) && AllGone(After(c, Start(dst, concurrency), run))
        && ReturnsNil(After(c, Start(dst, concurrency), run), rootOk)
        ensures AllMirrored(c, After(c, Start(dst, concurrency), run).dst)
      {
        TrustedRun(c, dst, concurrency, run, rootOk);
      }
    } else {
      NotTrusted(c, dst, concurrency);
    }
  }

  lemma TrustedRun(c: Config, dst: set<Path>, concurrency: nat, run: Schedule, rootOk: bool)
    requires !c.dryRun && Trustworthy(c, dst, concurrency) && Runs(c, Start(dst, concurrency), run)
    requires AllGone(After(c, Start(dst, concurrency), run))
    requires ReturnsNil(After(c, Start(dst, concurrency), run), rootOk)
    ensures AllMirrored(c, After(c, Start(dst, concurrency), run).dst)
  {
    hide After, Runs, CountsFit, Mirrored;
    if concurrency == 0 {
      NoWorkersNoSteps(c, dst, run);
    } else if CountsFit(c) {
      NilMeansNoError(c, dst, concurrency, run, rootOk);
      ErrorFreeMirrorIsComplete(c, dst, concurrency, run);
    } else {
      RunKeepsFiles(c, Start(dst, concurrency), run);
      MoreIsMirrored(c, dst, After(c, Start(dst, concurrency), run).dst);
    }
  }

  lemma MoreIsMirrored(c: Config, dst: set<Path>, dst': set<Path>)
    requires AllMirrored(c, dst) && dst <= dst'
    ensures AllMirrored(c, dst')
  {
    hide Needed;
    NeededOrNot(c, dst);
    NeededOrNot(c, dst');
  }

  /** A run with nil and a path missing. */
  lemma NotTrusted(c: Config, dst: set<Path>, concurrency: nat)
    requires !c.dryRun && !Trustworthy(c, dst, concurrency)
    ensures !NilIsMirrored(c, dst, concurrency)
  {
    if concurrency == 0 {
      NoWorkersNoMirror(c, dst);
    } else {
      var p := Endangered(c, dst);
      hide After, Runs, CountsFit, AllMirrored, Needed;
      var run := WrappingRun(c, dst, concurrency, Some(p));
      NeededOrNot(c, After(c, Start(dst, concurrency), run).dst);
    }
  }

  /** Something needed that is missing, or that force overwrites. */
  lemma Endangered(c: Config, dst: set<Path>) returns (p: Path)
    requires !CountsFit(c) && !(AllMirrored(c, dst) && !c.force)
    ensures Needed(c, p) && (p in dst ==> c.force)
  {
    hide AllMirrored;
    NeededOrNot(c, dst);
    if AllMirrored(c, dst) {
      assert c.grid == [] ==> Referenced(c) == {};
      p := CheckpointPath(History, c.grid[0]);
    } else {
      p :| Needed(c, p) && p !in dst;
    }
  }

  /** Exactly when nil means that no counted call failed. */
  lemma NilMeansNoErrorExactly(c: Config, dst: set<Path>, concurrency: nat)
    requires !c.dryRun
    ensures concurrency == 0 || CountsFit(c)
       <==> forall run, rootOk ::
              Runs(c, Start(dst, concurrency), run) && AllGone(After(c, Start(dst, concurrency), run))
              && ReturnsNil(After(c, Start(dst, concurrency), run), rootOk)
              ==> After(c, Start(dst, concurrency), run).errors == 0 && rootOk
  {
    hide After, Runs, CountsFit;
    if concurrency == 0 || CountsFit(c) {
      forall run, rootOk | Runs(c, Start(dst, concurrency), run)
        ensures ReturnsNil(After(c, Start(dst, concurrency), run), rootOk)
           <==> After(c, Start(dst, concurrency), run).errors == 0 && rootOk
      {
        NilMeansNoError(c, dst, concurrency, run, rootOk);
      }
    } else {
      var run := WrappingRun(c, dst, concurrency, None);
    }
  }

  /** Mirror's promise for a range: if it can be trusted and returns nil, every checkpoint of the clamped
      range has its required files and all its buckets in the destination. */
  lemma MirrorReturnsNil(c: Config, f: Freq, asked: Range, current: Range, dst: set<Path>, concurrency: nat,
                         run: Schedule, rootOk: bool, ix: uint32)
    requires !c.dryRun && Trustworthy(c, dst, concurrency) && Runs(c, Start(dst, concurrency), run)
    requires c.grid == Grid(f, Clamp(f, asked, current).low, Clamp(f, asked, current).high)
    requires AllGone(After(c, Start(dst, concurrency), run))
    requires ReturnsNil(After(c, Start(dst, concurrency), run), rootOk)
    requires OnGrid(f, ix) && Clamp(f, asked, current).low <= ix <= Clamp(f, asked, current).high
    ensures Mirrored(c, After(c, Start(dst, concurrency), run).dst, ix)
  {
    hide After, Runs, Grid, Mirrored, OnGrid, CountsFit;
    TrustedRun(c, dst, concurrency, run, rootOk);
    PrevCheckpointExact(f, MaxOf(asked.low, current.low));
    GridIsCheckpoints(f, Clamp(f, asked, current));
    assert ix in c.grid;
    var k :| 0 <= k < |c.grid| && c.grid[k] == ix;
  }

  /** With no worker at all Mirror returns nil at once, having copied nothing. */
  lemma NoWorkersNoMirror(c: Config, dst: set<Path>)
    ensures Runs(c, Start(dst, 0), []) && AllGone(After(c, Start(dst, 0), []))
    ensures ReturnsNil(After(c, Start(dst, 0), []), true) && After(c, Start(dst, 0), []).dst == dst
  {
  }

  /** The count does wrap: over an archive with a checkpoint at every ledger there are runs that return
      nil although a file of the first checkpoint is missing. */
  lemma ErrorsCanWrap(c: Config, concurrency: nat) returns (run: Schedule)
    requires !c.dryRun && concurrency >= 1
    requires var r := Clamp(1, Range(0, MAX_UINT32), Range(63, MAX_UINT32)); c.grid == Grid(1, r.low, r.high)
    ensures Runs(c, Start({}, concurrency), run) && AllGone(After(c, Start({}, concurrency), run))
    ensures ReturnsNil(After(c, Start({}, concurrency), run), false)
    ensures c.grid != [] && !Mirrored(c, After(c, Start({}, concurrency), run).dst, c.grid[0])
  {
    hide Grid, Runs, After;
    GridSize(1, 63, MAX_UINT32);
    run := WrappingRun(c, {}, concurrency, Some(CheckpointPath(History, c.grid[0])));
  }

  /** Up to 61356675 checkpoints, with at most three hashes a level for eleven levels of two lists, the
      count fits. At one checkpoint in 64 ledgers that is up to ledger 3926827199. */
  lemma ArchivesFit(c: Config)
    requires |c.grid| <= 61356675 && forall k :: 0 <= k < |c.grid| ==> |c.buckets(c.grid[k])| <= 66
    ensures CountsFit(c)
  {
    ReferencedBound(c, |c.grid|);
    assert ReferencedBy(c, |c.grid|) == Referenced(c);
  }

  function ReferencedBy(c: Config, n: nat): (bs: set<Hash>)
    requires n <= |c.grid|
  {
    set k, i | 0 <= k < n && 0 <= i < |c.buckets(c.grid[k])| :: c.buckets(c.grid[k])[i]
  }

  lemma {:induction false} ReferencedBound(c: Config, n: nat)
    requires n <= |c.grid| && forall k :: 0 <= k < |c.grid| ==> |c.buckets(c.grid[k])| <= 66
    ensures |ReferencedBy(c, n)| <= 66 * n
  {
    if n == 0 {
      assert ReferencedBy(c, 0) == {};
    } else {
      ReferencedBound(c, n - 1);
      var here := c.buckets(c.grid[n - 1]);
      var last := set i | 0 <= i < |here| :: here[i];
      MembersBound(here);
      assert ReferencedBy(c, n) == ReferencedBy(c, n - 1) + last;
    }
  }

  lemma {:induction false} MembersBound(s: seq<Hash>)
    ensures |set i | 0 <= i < |s| :: s[i]| <= |s|
  {
    var all := set i | 0 <= i < |s| :: s[i];
    if s == [] {
      assert all == {};
    } else {
      var t := s[..|s| - 1];
      MembersBound(t);
      assert all == (set i | 0 <= i < |t| :: t[i]) + {s[|s| - 1]};
    }
  }

  // ---------------------------------------------------------------- optional files

  /** Every call of the run succeeds. */
  ghost predicate Smooth(run: Schedule) {
    forall i :: 0 <= i < |run| ==> run[i].1.first && run[i].1.second && run[i].1.third
  }

  /** The worker has the optional file of the checkpoint still to come. */
  predicate BeforeOptional(w: Worker, ix: uint32) {
    !w.Waiting? && !w.Finished? && w.ix == ix && (w.AtCategory? ==> w.i <= 4)
  }

  ghost predicate OptionalKept(c: Config, s: State, k: nat) {
    k < s.sent <= |c.grid| ==>
      || CheckpointPath(Scp, c.grid[k]) in s.dst
      || exists w :: 0 <= w < |s.workers| && BeforeOptional(s.workers[w], c.grid[k])
  }

  /** A smooth run so far: nothing counted, nobody gone early, the checkpoint's optional file copied or to
      come. */
  ghost predicate SmoothSoFar(c: Config, s: State, k: nat) {
    && s.errors == 0 && s.sent <= |c.grid| && OptionalKept(c, s, k)
    && forall w :: 0 <= w < |s.workers| && s.workers[w].Finished? ==> s.sent == |c.grid|
  }

  lemma SmoothStep(c: Config, s: State, w: nat, a: Answer, k: nat)
    requires !c.dryRun && !c.skipOptional && Enabled(s, w) && a.first && a.second && a.third && SmoothSoFar(c, s, k)
    ensures SmoothSoFar(c, Step(c, s, w, a), k)
  {
    var s' := Step(c, s, w, a);
    assert s.dst <= s'.dst;
    if k < s.sent && CheckpointPath(Scp, c.grid[k]) !in s'.dst {
      var v :| 0 <= v < |s.workers| && BeforeOptional(s.workers[v], c.grid[k]);
      assert BeforeOptional(s'.workers[v], c.grid[k]);
    } else if k == s.sent < s'.sent {
      assert BeforeOptional(s'.workers[w], c.grid[k]);
    }
  }

  lemma {:induction false} SmoothRun(c: Config, s: State, run: Schedule, k: nat)
    requires !c.dryRun && !c.skipOptional && Runs(c, s, run) && Smooth(run) && SmoothSoFar(c, s, k)
    ensures SmoothSoFar(c, After(c, s, run), k)
    decreases |run|
  {
    hide SmoothSoFar, Step, Enabled;
    if run != [] {
      SmoothStep(c, s, run[0].0, run[0].1, k);
      SmoothRun(c, Step(c, s, run[0].0, run[0].1), run[1..], k);
    }
  }

  /** When no call fails, nil is returned with the optional files copied too, unless they are skipped. */
  lemma OptionalMirrored(c: Config, dst: set<Path>, concurrency: nat, run: Schedule)
    requires !c.dryRun && !c.skipOptional && concurrency >= 1 && Runs(c, Start(dst, concurrency), run) && Smooth(run)
    requires AllGone(After(c, Start(dst, concurrency), run))
    ensures var s := After(c, Start(dst, concurrency), run);
            ReturnsNil(s, true) && forall k :: 0 <= k < |c.grid| ==> CheckpointPath(Scp, c.grid[k]) in s.dst
  {
    hide After, Runs, Smooth;
    var s := After(c, Start(dst, concurrency), run);
    SmoothRun(c, Start(dst, concurrency), run, 0);
    RunKeepsSound(c, Start(dst, concurrency), run);
    assert s.workers[0].Finished?;
    forall k | 0 <= k < |c.grid| ensures CheckpointPath(Scp, c.grid[k]) in s.dst {
      SmoothRun(c, Start(dst, concurrency), run, k);
    }
  }

  /** Skipped optional files are left as they were. */
  lemma {:induction false} SkippedUntouched(c: Config, s: State, run: Schedule, ix: uint32)
    requires c.skipOptional && Runs(c, s, run)
    ensures CheckpointPath(Scp, ix) in After(c, s, run).dst <==> CheckpointPath(Scp, ix) in s.dst
    decreases |run|
  {
    if run != [] {
      var next := Step(c, s, run[0].0, run[0].1);
      assert CheckpointPath(Scp, ix) in next.dst <==> CheckpointPath(Scp, ix) in s.dst;
      hide Step;
      SkippedUntouched(c, next, run[1..], ix);
    }
  }
}
