/** Exactly when the newest-to-oldest stream agrees with the oldest-to-newest replay: key by key, the
    reader is a one-bit machine. */
module BucketListExact {
  import opened Common
  import opened XdrSchema
  import opened LedgerKeys
  import opened BucketList
  import opened BucketListProofs

  // ---------------------------------------------------------------- one key

  /** What a record does to its key: whether the key is marked afterwards, and what is yielded. */
  function KeyStep(t: ListType, seen: bool, r: Record): (next: (bool, seq<LedgerEntry>))
    requires !r.Meta?
  {
    if r.Del? then (true, [])
    else if t == Live && r.init then (seen && !UniqueId(r.entry.key), if seen then [] else [r.entry])
    else (true, if seen then [] else [r.entry])
  }

  /** What the stream yields of a key, given whether the key is marked. */
  function KeyRun(t: ListType, seen: bool, bs: seq<BucketFile>, k: LedgerKey): (out: seq<LedgerEntry>)
    decreases |bs|
  {
    if bs == [] then []
    else match Find(bs[0], k)
      case None => KeyRun(t, seen, bs[1..], k)
      case Some(r) => KeyStep(t, seen, r).1 + KeyRun(t, KeyStep(t, seen, r).0, bs[1..], k)
  }

  /** What it should yield. */
  function Want(bs: seq<BucketFile>, k: LedgerKey): (out: seq<LedgerEntry>) {
    match Newest(bs, k)
    case Some(Put(e, _)) => [e]
    case _ => []
  }

  predicate IsInit(r: Option<Record>) {
    r.Some? && r.value.Put? && r.value.init
  }

  /** An INITENTRY of `k` in a bucket of the list comes after a DEADENTRY or no record of `k` at all,
      if it is the newest record of `k` or `k` is a never-reused id. `newer` says that a record of `k`
      is known to be newer than the list. */
  ghost predicate RuleFrom(bs: seq<BucketFile>, k: LedgerKey, newer: bool)
    decreases |bs|
  {
    bs != [] ==>
      && (IsInit(Find(bs[0], k)) && (!newer || UniqueId(k)) ==> Quiet(Newest(bs[1..], k)))
      && RuleFrom(bs[1..], k, newer || Find(bs[0], k).Some?)
  }

  /** The same of the INITENTRY of `k` in bucket `j`. */
  ghost predicate RuleAt(bs: seq<BucketFile>, j: nat, k: LedgerKey)
    requires j < |bs|
  {
    IsInit(Find(bs[j], k)) && (Newest(bs[..j], k).None? || k.ClaimableBalance? || k.Offer?) ==>
      Quiet(Newest(bs[j + 1..], k))
  }

  ghost predicate RuleAtAfter(bs: seq<BucketFile>, j: nat, k: LedgerKey, newer: bool)
    requires j < |bs|
  {
    IsInit(Find(bs[j], k)) && ((!newer && Newest(bs[..j], k).None?) || UniqueId(k)) ==> Quiet(Newest(bs[j + 1..], k))
  }

  lemma {:induction false} RuleByIndex(bs: seq<BucketFile>, k: LedgerKey, newer: bool)
    ensures RuleFrom(bs, k, newer) <==> forall j :: 0 <= j < |bs| ==> RuleAtAfter(bs, j, k, newer)
    decreases |bs|
  {
    if bs != [] {
      var rest, later := bs[1..], newer || Find(bs[0], k).Some?;
      RuleByIndex(rest, k, later);
      assert bs[..0] == [];
      if RuleFrom(bs, k, newer) {
        forall j | 0 <= j < |bs| ensures RuleAtAfter(bs, j, k, newer) {
          if j > 0 {
            RuleShift(bs, j - 1, k, newer);
            assert RuleAtAfter(rest, j - 1, k, later);
          }
        }
      }
      if forall j :: 0 <= j < |bs| ==> RuleAtAfter(bs, j, k, newer) {
        assert RuleAtAfter(bs, 0, k, newer);
        forall j | 0 <= j < |rest| ensures RuleAtAfter(rest, j, k, later) {
          RuleShift(bs, j, k, newer);
          assert RuleAtAfter(bs, j + 1, k, newer);
        }
      }
    }
  }

  lemma RuleShift(bs: seq<BucketFile>, j: nat, k: LedgerKey, newer: bool)
    requires j + 1 < |bs|
    ensures RuleAtAfter(bs[1..], j, k, newer || Find(bs[0], k).Some?) <==> RuleAtAfter(bs, j + 1, k, newer)
  {
    NewestOfPrefix(bs, j, k);
    assert bs[1..][j + 1..] == bs[j + 2..];
  }

  lemma NewestOfPrefix(bs: seq<BucketFile>, j: nat, k: LedgerKey)
    requires j + 1 <= |bs|
    ensures Newest(bs[..j + 1], k) == if Find(bs[0], k).Some? then Find(bs[0], k) else Newest(bs[1..][..j], k)
  {
    assert bs[..j + 1][0] == bs[0] && bs[..j + 1][1..] == bs[1..][..j];
  }

  // ---------------------------------------------------------------- the one-bit machine

  /** Nothing more is yielded of a key exactly when the rule holds, and if the key is not marked, the
      next record of the key is a deletion. */
  lemma {:induction false} SilentRun(t: ListType, seen: bool, bs: seq<BucketFile>, k: LedgerKey)
    ensures KeyRun(t, seen, bs, k) == []
       <==> (seen || Quiet(Newest(bs, k))) && (t == Live ==> RuleFrom(bs, k, true))
    decreases |bs|
  {
    if bs != [] {
      var here := Find(bs[0], k);
      SilentRun(t, if here.Some? then KeyStep(t, seen, here.value).0 else seen, bs[1..], k);
    }
  }

  /** A key not met before is yielded as it should be exactly when the rule holds. */
  lemma {:induction false} RightRun(t: ListType, bs: seq<BucketFile>, k: LedgerKey)
    ensures KeyRun(t, false, bs, k) == Want(bs, k) <==> (t == Live ==> RuleFrom(bs, k, false))
    decreases |bs|
  {
    if bs != [] {
      var here := Find(bs[0], k);
      if here.None? {
        RightRun(t, bs[1..], k);
      } else {
        var next := KeyStep(t, false, here.value);
        SilentRun(t, next.0, bs[1..], k);
        HeadOnly(next.1, KeyRun(t, next.0, bs[1..], k));
      }
    }
  }

  lemma HeadOnly<T>(a: seq<T>, b: seq<T>)
    ensures a + b == a <==> b == []
  {
    assert |a + b| == |a| + |b|;
  }

  // ---------------------------------------------------------------- from runs to keys

  /** The yielded entries of one key. */
  function OutAt(out: seq<LedgerEntry>, k: LedgerKey): (r: seq<LedgerEntry>)
    ensures forall e :: e in r <==> e in out && e.key == k
  {
    if out == [] then []
    else
      var init, last := out[..|out| - 1], out[|out| - 1];
      assert forall e :: e in out <==> e in init || e == last;
      OutAt(init, k) + if last.key == k then [last] else []
  }

  lemma OutAtSnoc(out: seq<LedgerEntry>, e: LedgerEntry, k: LedgerKey)
    ensures OutAt(out + [e], k) == OutAt(out, k) + if e.key == k then [e] else []
  {
    assert (out + [e])[..|out|] == out;
  }

  ghost predicate AtMostOne(out: seq<LedgerEntry>) {
    forall k :: |OutAt(out, k)| <= 1
  }

  lemma {:induction false} DistinctByKey(out: seq<LedgerEntry>)
    ensures DistinctKeys(out) <==> AtMostOne(out)
  {
    hide OutAt;
    if out == [] {
      forall k ensures |OutAt(out, k)| <= 1 { OutAtEmpty(out, k); }
    } else {
      var init, last := out[..|out| - 1], out[|out| - 1];
      DistinctByKey(init);
      assert out == init + [last];
      OutAtEmpty(init, last.key);
      DistinctSnoc(init, last);
      AtMostOneSnoc(init, last);
    }
  }

  lemma AtMostOneSnoc(init: seq<LedgerEntry>, last: LedgerEntry)
    ensures AtMostOne(init + [last]) <==> AtMostOne(init) && OutAt(init, last.key) == []
  {
    hide OutAt;
    if AtMostOne(init + [last]) { AllAtMostOne(init, last); }
    if AtMostOne(init) && OutAt(init, last.key) == [] {
      forall k ensures |OutAt(init + [last], k)| <= 1 {
        OutAtSnoc(init, last, k);
        assert |OutAt(init, k)| <= 1;
      }
    }
  }

  lemma AllAtMostOne(init: seq<LedgerEntry>, last: LedgerEntry)
    requires forall k :: |OutAt(init + [last], k)| <= 1
    ensures OutAt(init, last.key) == [] && forall k :: |OutAt(init, k)| <= 1
  {
    hide OutAt;
    forall k ensures |OutAt(init, k)| <= if k == last.key then 0 else 1 {
      OutAtSnoc(init, last, k);
    }
  }

  lemma DistinctSnoc(init: seq<LedgerEntry>, last: LedgerEntry)
    ensures DistinctKeys(init + [last])
       <==> DistinctKeys(init) && forall i :: 0 <= i < |init| ==> init[i].key != last.key
  {
    var out := init + [last];
    assert forall i :: 0 <= i < |init| ==> out[i] == init[i];
    assert out[|init|] == last;
  }

  lemma OutAtEmpty(out: seq<LedgerEntry>, k: LedgerKey)
    ensures OutAt(out, k) == [] <==> forall i :: 0 <= i < |out| ==> out[i].key != k
  {
    if i :| 0 <= i < |out| && out[i].key == k {
      assert out[i] in OutAt(out, k);
    }
    if OutAt(out, k) != [] {
      assert OutAt(out, k)[0] in OutAt(out, k);
      assert OutAt(out, k)[0] in out;
    }
  }

  // ---------------------------------------------------------------- from the stream to keys

  /** One record: keys other than its own are left alone, its own moves the one-bit machine. On the
      oldest bucket the mark may be left out, since nothing follows. */
  lemma StepAt(t: ListType, f: Filters, universe: set<LedgerKey>, run: Run, b: BucketFile, n: nat, oldest: bool,
               k: LedgerKey)
    requires n < |b| && BucketSized(b) && RecordShapeOk(t, b, n) && run.error.None?
    requires Separated(universe) && Coherent(f) && KeysOf(b) <= universe && k in universe && f.key(k)
    ensures Sized(k)
    ensures var next := Step(t, f, run, b, n, oldest);
            && next.error.None?
            && (if b[n].Meta? || KeyOf(b[n]) != k then
                  && OutAt(next.out, k) == OutAt(run.out, k)
                  && (Compress(k) in next.visited <==> Compress(k) in run.visited)
                else
                  && OutAt(next.out, k) == OutAt(run.out, k) + KeyStep(t, Compress(k) in run.visited, b[n]).1
                  && (!oldest ==> (Compress(k) in next.visited <==> KeyStep(t, Compress(k) in run.visited, b[n]).0)))
  {
    hide Compress, OutAt;
    assert RecordSized(b[n]);
    if !b[n].Meta? {
      assert KeyOf(b[n]) in KeysOf(b);
      if b[n].Put? { OutAtSnoc(run.out, b[n].entry, k); }
    }
  }

  /** The record of `k` at `n` or after it. */
  function Still(b: BucketFile, n: nat, k: LedgerKey): (r: Option<Record>)
    requires n <= |b|
  {
    Find(b[n..], k)
  }

  lemma StillStep(b: BucketFile, n: nat, k: LedgerKey)
    requires n < |b|
    ensures Still(b, n, k) == if !b[n].Meta? && KeyOf(b[n]) == k then Some(b[n]) else Still(b, n + 1, k)
    ensures KeysUnique(b) && !b[n].Meta? && KeyOf(b[n]) == k ==> Still(b, n + 1, k).None?
  {
    assert b[n..][0] == b[n] && b[n..][1..] == b[n + 1..];
    var rest := b[n + 1..];
    forall i | 0 <= i < |rest| && !rest[i].Meta?
      ensures KeysUnique(b) && !b[n].Meta? ==> KeyOf(rest[i]) != KeyOf(b[n])
    {
      assert rest[i] == b[n + 1 + i];
    }
  }

  /** A whole bucket. */
  lemma {:induction false} BucketAt(t: ListType, f: Filters, universe: set<LedgerKey>, run: Run, b: BucketFile,
                                    n: nat, oldest: bool, k: LedgerKey)
    requires n <= |b| && BucketSized(b) && ShapeOk(t, b) && KeysUnique(b) && run.error.None?
    requires Separated(universe) && Coherent(f) && KeysOf(b) <= universe && k in universe && f.key(k)
    ensures Sized(k)
    ensures var last, r := StreamFrom(t, f, run, b, n, oldest), Still(b, n, k);
            && last.error.None?
            && (if r.None? then
                  && OutAt(last.out, k) == OutAt(run.out, k)
                  && (Compress(k) in last.visited <==> Compress(k) in run.visited)
                else
                  && OutAt(last.out, k) == OutAt(run.out, k) + KeyStep(t, Compress(k) in run.visited, r.value).1
                  && (!oldest ==> (Compress(k) in last.visited <==> KeyStep(t, Compress(k) in run.visited, r.value).0)))
    decreases |b| - n
  {
    hide Compress, OutAt, Step, KeyStep, RecordShapeOk, Separated;
    if n < |b| {
      StepAt(t, f, universe, run, b, n, oldest, k);
      StillStep(b, n, k);
      BucketAt(t, f, universe, Step(t, f, run, b, n, oldest), b, n + 1, oldest, k);
    } else {
      assert b[n..] == [];
      SizedIn(universe, k);
    }
  }

  lemma SizedIn(universe: set<LedgerKey>, k: LedgerKey)
    requires Separated(universe) && k in universe
    ensures Sized(k)
  {
  }

  /** Every bucket has the right shape and unique keys. */
  ghost predicate Readable(t: ListType, bs: seq<BucketFile>) {
    forall i :: 0 <= i < |bs| ==> ShapeOk(t, bs[i]) && KeysUnique(bs[i])
  }

  /** The whole list: the stream is the one-bit machine of each key. */
  lemma {:induction false} ListAt(t: ListType, f: Filters, universe: set<LedgerKey>, run: Run, bs: seq<BucketFile>,
                                  k: LedgerKey)
    requires ListSized(bs) && Readable(t, bs) && run.error.None?
    requires Separated(universe) && Coherent(f) && Within(bs, universe) && k in universe && f.key(k)
    ensures Sized(k)
    ensures StreamList(t, f, run, bs).error.None?
    ensures OutAt(StreamList(t, f, run, bs).out, k) == OutAt(run.out, k) + KeyRun(t, Compress(k) in run.visited, bs, k)
    decreases |bs|
  {
    hide Compress, OutAt, StreamFrom, KeyStep, Separated, Coherent;
    SizedIn(universe, k);
    if bs != [] {
      assert forall i :: 0 <= i < |bs[1..]| ==> bs[1..][i] == bs[i + 1];
      assert bs[0][0..] == bs[0];
      BucketAt(t, f, universe, run, bs[0], 0, |bs| == 1, k);
      ListAt(t, f, universe, StreamFrom(t, f, run, bs[0], 0, |bs| == 1), bs[1..], k);
    }
  }

  // ---------------------------------------------------------------- exactly when they agree

  /** Only keys of the list that pass the filter are yielded. */
  lemma {:induction false} YieldedKeys(t: ListType, f: Filters, universe: set<LedgerKey>, run: Run, b: BucketFile,
                                       n: nat, oldest: bool)
    requires n <= |b| && BucketSized(b) && Coherent(f) && KeysOf(b) <= universe
    requires forall e :: e in run.out ==> e.key in universe && f.key(e.key)
    ensures forall e :: e in StreamFrom(t, f, run, b, n, oldest).out ==> e.key in universe && f.key(e.key)
    decreases |b| - n
  {
    hide Compress;
    if n < |b| && run.error.None? {
      assert RecordSized(b[n]);
      if !b[n].Meta? { assert KeyOf(b[n]) in KeysOf(b); }
      YieldedKeys(t, f, universe, Step(t, f, run, b, n, oldest), b, n + 1, oldest);
    }
  }

  lemma {:induction false} YieldedKeysOfList(t: ListType, f: Filters, universe: set<LedgerKey>, run: Run,
                                             bs: seq<BucketFile>)
    requires ListSized(bs) && Coherent(f) && Within(bs, universe)
    requires forall e :: e in run.out ==> e.key in universe && f.key(e.key)
    ensures forall e :: e in StreamList(t, f, run, bs).out ==> e.key in universe && f.key(e.key)
    decreases |bs|
  {
    hide StreamFrom, Coherent;
    if bs != [] && run.error.None? {
      assert forall i :: 0 <= i < |bs[1..]| ==> bs[1..][i] == bs[i + 1];
      YieldedKeys(t, f, universe, run, bs[0], 0, |bs| == 1);
      YieldedKeysOfList(t, f, universe, StreamFrom(t, f, run, bs[0], 0, |bs| == 1), bs[1..]);
    }
  }

  /** The yielded entries are the replayed ones that pass the filter, each key once. */
  ghost predicate Agrees(f: Filters, out: seq<LedgerEntry>, bs: seq<BucketFile>) {
    && DistinctKeys(out)
    && forall e :: e in out <==> Lookup(Replay(bs), e.key) == Some(e) && f.key(e.key)
  }

  lemma AgreesByKey(f: Filters, universe: set<LedgerKey>, out: seq<LedgerEntry>, bs: seq<BucketFile>)
    requires AllUnique(bs) && Within(bs, universe)
    requires forall e :: e in out ==> e.key in universe && f.key(e.key)
    ensures Agrees(f, out, bs) <==> forall k :: k in universe && f.key(k) ==> OutAt(out, k) == Want(bs, k)
  {
    hide OutAt, Replay, Newest, Want;
    DistinctByKey(out);
    if Agrees(f, out, bs) {
      forall k | k in universe && f.key(k) ensures OutAt(out, k) == Want(bs, k) {
        ReplayIsNewest(bs, k);
        assert |OutAt(out, k)| <= 1;
        AgreesAt(f, out, bs, k);
      }
    }
    if forall k :: k in universe && f.key(k) ==> OutAt(out, k) == Want(bs, k) {
      forall k ensures |OutAt(out, k)| <= 1 {
        OnlyUniverse(f, universe, out, k);
        if k in universe && f.key(k) {
          assert OutAt(out, k) == Want(bs, k);
          WantsOne(bs, k);
        }
      }
      forall e ensures e in out <==> Lookup(Replay(bs), e.key) == Some(e) && f.key(e.key) {
        assert e.key in universe && f.key(e.key) ==> OutAt(out, e.key) == Want(bs, e.key);
        EntryAgrees(f, universe, out, bs, e);
      }
    }
  }

  lemma WantsOne(bs: seq<BucketFile>, k: LedgerKey)
    ensures |Want(bs, k)| <= 1
  {
  }

  lemma EntryAgrees(f: Filters, universe: set<LedgerKey>, out: seq<LedgerEntry>, bs: seq<BucketFile>, e: LedgerEntry)
    requires AllUnique(bs) && Within(bs, universe)
    requires e in out ==> e.key in universe && f.key(e.key)
    requires e.key in universe && f.key(e.key) ==> OutAt(out, e.key) == Want(bs, e.key)
    ensures e in out <==> Lookup(Replay(bs), e.key) == Some(e) && f.key(e.key)
  {
    hide Replay, Newest;
    ReplayIsNewest(bs, e.key);
    WithinNewest(bs, universe, e.key);
    assert e in out <==> e in OutAt(out, e.key);
  }

  lemma OnlyUniverse(f: Filters, universe: set<LedgerKey>, out: seq<LedgerEntry>, k: LedgerKey)
    requires forall e :: e in out ==> e.key in universe && f.key(e.key)
    ensures !(k in universe && f.key(k)) ==> OutAt(out, k) == []
  {
    if OutAt(out, k) != [] { assert OutAt(out, k)[0] in OutAt(out, k); }
  }

  lemma AgreesAt(f: Filters, out: seq<LedgerEntry>, bs: seq<BucketFile>, k: LedgerKey)
    requires f.key(k) && |OutAt(out, k)| <= 1
    requires forall e :: e in out <==> Lookup(Replay(bs), e.key) == Some(e) && f.key(e.key)
    requires Lookup(Replay(bs), k) == Effect(Newest(bs, k), None)
    ensures OutAt(out, k) == Want(bs, k)
  {
    hide Replay, Newest, OutAt;
    forall e ensures e in OutAt(out, k) <==> e in Want(bs, k) {
      assert e.key == k ==> (e in out <==> Lookup(Replay(bs), k) == Some(e));
    }
    SameShort(OutAt(out, k), Want(bs, k));
  }

  lemma SameShort<T(!new)>(a: seq<T>, b: seq<T>)
    requires |a| <= 1 && |b| <= 1 && forall e :: e in a <==> e in b
    ensures a == b
  {
    assert a != [] ==> a[0] in b;
    assert b != [] ==> b[0] in a;
  }

  lemma {:induction false} WithinNewest(bs: seq<BucketFile>, universe: set<LedgerKey>, k: LedgerKey)
    requires Within(bs, universe)
    ensures Newest(bs, k).Some? ==> k in universe
    decreases |bs|
  {
    if bs == [] { return; }
    var here := Find(bs[0], k);
    if here.Some? {
      var i :| 0 <= i < |bs[0]| && bs[0][i] == here.value;
      assert KeyOf(bs[0][i]) in KeysOf(bs[0]);
    } else {
      assert forall i :: 0 <= i < |bs[1..]| ==> bs[1..][i] == bs[i + 1];
      WithinNewest(bs[1..], universe, k);
    }
  }

  /** Exactly when the stream agrees with the replay. For readable buckets with unique keys each, and
      no filter or one that decides on the key, reading raises no error; the hot archive always
      agrees; and the live list agrees if and only if every INITENTRY that is the newest record of
      its key, or that creates a never-reused id, has a DEADENTRY or nothing of its key behind it. */
  lemma StreamExactly(t: ListType, f: Filters, bs: seq<BucketFile>, universe: set<LedgerKey>)
    requires ListSized(bs) && Readable(t, bs) && Separated(universe) && Within(bs, universe) && Coherent(f)
    ensures StreamList(t, f, EmptyRun, bs).error.None?
    ensures Agrees(f, StreamList(t, f, EmptyRun, bs).out, bs)
       <==> (t == Live ==> forall j, k :: 0 <= j < |bs| && f.key(k) ==> RuleAt(bs, j, k))
  {
    hide Compress, StreamList, OutAt, Want, RuleAt, RuleFrom, Coherent, Separated;
    var out := StreamList(t, f, EmptyRun, bs).out;
    NoErrors(t, f, EmptyRun, bs);
    YieldedKeysOfList(t, f, universe, EmptyRun, bs);
    AgreesByKey(f, universe, out, bs);
    forall k | k in universe && f.key(k)
      ensures OutAt(out, k) == Want(bs, k) <==> (t == Live ==> RuleFrom(bs, k, false))
    {
      OneKey(t, f, universe, bs, k);
    }
    forall k | f.key(k)
      ensures RuleFrom(bs, k, false) <==> forall j :: 0 <= j < |bs| ==> RuleAt(bs, j, k)
      ensures k !in universe ==> RuleFrom(bs, k, false)
    {
      RuleForKey(bs, universe, k);
    }
    assert (forall k :: f.key(k) ==> RuleFrom(bs, k, false))
      <==> forall j, k :: 0 <= j < |bs| && f.key(k) ==> RuleAt(bs, j, k);
  }

  /** CAP-20's own rule is enough. */
  lemma {:induction false} CapRuleSuffices(t: ListType, bs: seq<BucketFile>)
    requires ListOk(t, bs)
    ensures Readable(t, bs)
    ensures t == Live ==> forall j, k :: 0 <= j < |bs| ==> RuleAt(bs, j, k)
    decreases |bs|
  {
    if bs != [] {
      CapRuleSuffices(t, bs[1..]);
      assert forall i :: 1 <= i < |bs| ==> bs[i] == bs[1..][i - 1];
      forall j, k | t == Live && 0 <= j < |bs| ensures RuleAt(bs, j, k) {
        if j == 0 {
          assert IsInit(Find(bs[0], k)) ==> Find(bs[0], k).value in bs[0];
        } else {
          RuleShift(bs, j - 1, k, false);
          assert RuleAt(bs[1..], j - 1, k);
          assert bs[1..][j..] == bs[j + 1..];
          assert Newest(bs[..j], k).None? ==> Newest(bs[1..][..j - 1], k).None? by { NewestOfPrefix(bs, j - 1, k); }
        }
      }
    }
  }

  lemma OneKey(t: ListType, f: Filters, universe: set<LedgerKey>, bs: seq<BucketFile>, k: LedgerKey)
    requires ListSized(bs) && Readable(t, bs) && Separated(universe) && Within(bs, universe) && Coherent(f)
    requires k in universe && f.key(k)
    ensures OutAt(StreamList(t, f, EmptyRun, bs).out, k) == Want(bs, k) <==> (t == Live ==> RuleFrom(bs, k, false))
  {
    hide Compress, StreamList, KeyRun, Want, RuleFrom, Coherent, Separated;
    ListAt(t, f, universe, EmptyRun, bs, k);
    RightRun(t, bs, k);
    assert [] + KeyRun(t, false, bs, k) == KeyRun(t, false, bs, k);
  }

  lemma RuleForKey(bs: seq<BucketFile>, universe: set<LedgerKey>, k: LedgerKey)
    requires Within(bs, universe)
    ensures RuleFrom(bs, k, false) <==> forall j :: 0 <= j < |bs| ==> RuleAt(bs, j, k)
    ensures k !in universe ==> RuleFrom(bs, k, false)
  {
    RuleByIndex(bs, k, false);
    forall j | 0 <= j < |bs|
      ensures RuleAtAfter(bs, j, k, false) <==> RuleAt(bs, j, k)
      ensures k !in universe ==> RuleAt(bs, j, k)
    {
      if Find(bs[j], k).Some? {
        var i :| 0 <= i < |bs[j]| && bs[j][i] == Find(bs[j], k).value;
        assert KeyOf(bs[j][i]) in KeysOf(bs[j]);
      }
    }
  }

  /** Readable buckets raise no error, whatever the filters skip. */
  lemma {:induction false} NoErrors(t: ListType, f: Filters, run: Run, bs: seq<BucketFile>)
    requires ListSized(bs) && Readable(t, bs) && run.error.None?
    ensures StreamList(t, f, run, bs).error.None?
    decreases |bs|
  {
    hide StreamFrom;
    if bs != [] {
      assert forall i :: 0 <= i < |bs[1..]| ==> bs[1..][i] == bs[i + 1];
      NoErrorsInBucket(t, f, run, bs[0], 0, |bs| == 1);
      NoErrors(t, f, StreamFrom(t, f, run, bs[0], 0, |bs| == 1), bs[1..]);
    }
  }

  lemma {:induction false} NoErrorsInBucket(t: ListType, f: Filters, run: Run, b: BucketFile, n: nat, oldest: bool)
    requires n <= |b| && BucketSized(b) && ShapeOk(t, b) && run.error.None?
    ensures StreamFrom(t, f, run, b, n, oldest).error.None?
    decreases |b| - n
  {
    hide Compress;
    if n < |b| {
      assert RecordSized(b[n]) && RecordShapeOk(t, b, n);
      NoErrorsInBucket(t, f, Step(t, f, run, b, n, oldest), b, n + 1, oldest);
    }
  }

  /** The rule is weaker than CAP-20: an INITENTRY that breaks it for a reusable key is harmless behind
      a newer record of the key. */
  lemma RuleIsWeaker(a: LedgerEntry, b: LedgerEntry, c: LedgerEntry)
    requires a.key == b.key == c.key && !UniqueId(a.key)
    ensures var bs := [[Put(a, false)], [Meta(11, None), Put(b, true)], [Put(c, false)]];
            !ListOk(Live, bs) && forall j, k :: 0 <= j < |bs| ==> RuleAt(bs, j, k)
  {
    var bs := [[Put(a, false)], [Meta(11, None), Put(b, true)], [Put(c, false)]];
    var k := a.key;
    assert bs[1..][0] == bs[1] && bs[1..][1..] == [bs[2]];
    assert Find(bs[2], k) == Some(Put(c, false));
    assert Newest([bs[2]], k) == Some(Put(c, false));
    assert !InitRule(bs[1], [bs[2]]) by {
      assert bs[1][1].Put? && bs[1][1].init;
    }
    assert !ListOk(Live, bs[1..]);
    forall j, l | 0 <= j < |bs| ensures RuleAt(bs, j, l) {
      if j == 1 && IsInit(Find(bs[1], l)) {
        assert l == k;
        assert bs[..1][0] == bs[0] && Find(bs[0], k) == Some(Put(a, false));
        assert Newest(bs[..1], k).Some?;
      }
    }
  }
}
