/** The newest-to-oldest stream yields exactly the entries of the oldest-to-newest replay. */
module BucketListProofs {
  import opened Common
  import opened XdrSchema
  import opened LedgerKeys
  import opened BucketList

  // ---------------------------------------------------------------- the replay side

  function Lookup(m: map<LedgerKey, LedgerEntry>, k: LedgerKey): (r: Option<LedgerEntry>) {
    if k in m then Some(m[k]) else None
  }

  /** What a record says about its key; no record leaves the older state standing. */
  function Effect(r: Option<Record>, before: Option<LedgerEntry>): (after: Option<LedgerEntry>) {
    match r
    case None => before
    case Some(Put(e, _)) => Some(e)
    case Some(_) => None
  }

  lemma {:induction false} FindAppend(b: BucketFile, r: Record, k: LedgerKey)
    ensures Find(b + [r], k)
         == if Find(b, k).Some? then Find(b, k) else if !r.Meta? && KeyOf(r) == k then Some(r) else None
  {
    if b == [] {
      assert [] + [r] == [r] && [r][1..] == [];
    } else {
      assert (b + [r])[0] == b[0] && (b + [r])[1..] == b[1..] + [r];
      FindAppend(b[1..], r, k);
    }
  }

  /** Applying a bucket with unique keys: its record for a key decides, whatever the order. */
  lemma {:induction false} ApplyAt(m: map<LedgerKey, LedgerEntry>, b: BucketFile, k: LedgerKey)
    requires KeysUnique(b)
    ensures Lookup(Apply(m, b), k) == Effect(Find(b, k), Lookup(m, k))
    decreases |b|
  {
    if b != [] {
      var c, last := b[..|b| - 1], b[|b| - 1];
      ApplyAt(m, c, k);
      assert b == c + [last];
      FindAppend(c, last, k);
      assert !last.Meta? && KeyOf(last) == k ==> Find(c, k).None?;
    }
  }

  ghost predicate AllUnique(bs: seq<BucketFile>) {
    forall i :: 0 <= i < |bs| ==> KeysUnique(bs[i])
  }

  lemma {:induction false} ListOkUnique(t: ListType, bs: seq<BucketFile>)
    requires ListOk(t, bs)
    ensures AllUnique(bs)
    decreases |bs|
  {
    if bs != [] {
      ListOkUnique(t, bs[1..]);
      assert forall i :: 1 <= i < |bs| ==> bs[i] == bs[1..][i - 1];
    }
  }

  /** The replayed state of a key is what its newest record says. */
  lemma {:induction false} ReplayIsNewest(bs: seq<BucketFile>, k: LedgerKey)
    requires AllUnique(bs)
    ensures Lookup(Replay(bs), k) == Effect(Newest(bs, k), None)
    decreases |bs|
  {
    if bs != [] {
      assert forall i :: 0 <= i < |bs[1..]| ==> bs[1..][i] == bs[i + 1];
      ReplayIsNewest(bs[1..], k);
      ApplyAt(Replay(bs[1..]), bs[0], k);
    }
  }

  // ---------------------------------------------------------------- the streaming side

  ghost predicate DistinctKeys(out: seq<LedgerEntry>) {
    forall i, j :: 0 <= i < j < |out| ==> out[i].key != out[j].key
  }

  predicate Puts(r: Option<Record>, e: LedgerEntry) {
    r.Some? && r.value.Put? && r.value.entry == e
  }

  /** The newest record of a key when `seen` has been read and `rest` has not. */
  function Top(seen: map<LedgerKey, Record>, rest: seq<BucketFile>, k: LedgerKey): (r: Option<Record>) {
    if k in seen then Some(seen[k]) else Newest(rest, k)
  }

  function Note(seen: map<LedgerKey, Record>, r: Record): (next: map<LedgerKey, Record>)
    requires !r.Meta?
  {
    if KeyOf(r) in seen then seen else seen[KeyOf(r) := r]
  }

  /** What holds between records. `seen` maps each key read so far to its newest record. A key not
      read is not marked. A key already read is marked, or no live record of it is still to come:
      this is what lets INITENTRY keys go unmarked and unique ids be unmarked again. */
  ghost predicate Inv(universe: set<LedgerKey>, f: Filters, seen: map<LedgerKey, Record>, rest: seq<BucketFile>,
                      run: Run) {
    && run.error.None?
    && (forall k :: k in seen ==> k in universe)
    && (forall k :: k in universe && f.key(k) ==> Sized(k) && (Compress(k) in run.visited ==> k in seen))
    && (forall k :: k in seen && f.key(k) ==> Sized(k) && (Compress(k) in run.visited || Quiet(Newest(rest, k))))
    && DistinctKeys(run.out)
    && (forall e :: e in run.out <==> e.key in seen && Puts(Some(seen[e.key]), e) && f.key(e.key))
  }

  /** What a step may do to the run, given the record and what is still to come for its key. */
  ghost predicate Lawful(f: Filters, r: Record, run: Run, run': Run, still: Option<Record>)
    requires !r.Meta? && Sized(KeyOf(r))
  {
    var h := Compress(KeyOf(r));
    if !f.key(KeyOf(r)) then run' == run
    else
      && run'.error.None?
      && run'.visited - {h} == run.visited - {h}
      && (h in run'.visited ==> h in run.visited || r.Del? || !r.init)
      && run'.out == (if r.Put? && h !in run.visited then run.out + [r.entry] else run.out)
      && (h in run'.visited || Quiet(still))
  }

  lemma LawfulKeepsInv(universe: set<LedgerKey>, f: Filters, seen: map<LedgerKey, Record>,
                       rest: seq<BucketFile>, rest': seq<BucketFile>, r: Record, run: Run, run': Run)
    requires Separated(universe) && Inv(universe, f, seen, rest, run)
    requires !r.Meta? && KeyOf(r) in universe
    requires forall k :: Newest(rest, k) == if k == KeyOf(r) then Some(r) else Newest(rest', k)
    requires Lawful(f, r, run, run', Newest(rest', KeyOf(r)))
    ensures Inv(universe, f, Note(seen, r), rest', run')
    ensures forall k :: Top(Note(seen, r), rest', k) == Top(seen, rest, k)
  {
    hide Compress, Newest;
    var k, seen' := KeyOf(r), Note(seen, r);
    if f.key(k) {
      var h := Compress(k);
      forall l | l in universe && f.key(l)
        ensures Compress(l) in run'.visited ==> l in seen'
      {
        if l != k { assert Compress(l) in run'.visited - {h} <==> Compress(l) in run.visited - {h}; }
      }
      forall l | l in seen' && f.key(l)
        ensures Compress(l) in run'.visited || Quiet(Newest(rest', l))
      {
        if l != k { assert Compress(l) in run'.visited - {h} <==> Compress(l) in run.visited - {h}; }
      }
      if r.Put? && h !in run.visited {
        assert k !in seen;
        assert run'.out[|run.out|] == r.entry;
        forall i | 0 <= i < |run.out| ensures run.out[i].key != k {
          assert run.out[i] in run.out;
        }
      }
    }
  }

  // ---------------------------------------------------------------- records obey the law

  /** No record of the key later in its own bucket: what remains is in the older buckets. */
  lemma RestAfter(b: BucketFile, n: nat, older: seq<BucketFile>, k: LedgerKey)
    requires n < |b| && KeysUnique(b) && !b[n].Meta? && KeyOf(b[n]) == k
    ensures Newest([b[n + 1..]] + older, k) == Newest(older, k)
  {
    var c := b[n + 1..];
    assert Find(c, k).None?;
    assert ([c] + older)[0] == c && ([c] + older)[1..] == older;
  }

  lemma NewestHead(b: BucketFile, n: nat, older: seq<BucketFile>, k: LedgerKey)
    requires n < |b|
    ensures Newest([b[n..]] + older, k)
         == if !b[n].Meta? && KeyOf(b[n]) == k then Some(b[n]) else Newest([b[n + 1..]] + older, k)
  {
    var x, y := [b[n..]] + older, [b[n + 1..]] + older;
    assert x[0] == b[n..] && x[1..] == older && y[0] == b[n + 1..] && y[1..] == older;
    assert b[n..][0] == b[n] && b[n..][1..] == b[n + 1..];
  }

  lemma StepIsLawful(t: ListType, f: Filters, run: Run, b: BucketFile, n: nat, older: seq<BucketFile>)
    requires n < |b| && BucketSized(b) && ShapeOk(t, b) && KeysUnique(b) && Coherent(f) && run.error.None?
    requires t == Live ==> InitRule(b, older)
    requires t == HotArchive ==> forall i :: 0 <= i < |b| && b[i].Put? ==> !b[i].init
    requires !b[n].Meta?
    ensures Lawful(f, b[n], run, Step(t, f, run, b, n, older == []), Newest([b[n + 1..]] + older, KeyOf(b[n])))
  {
    hide Compress;
    RestAfter(b, n, older, KeyOf(b[n]));
    assert RecordSized(b[n]) && RecordShapeOk(t, b, n);
  }

  lemma {:induction false} BucketKeepsInv(t: ListType, f: Filters, universe: set<LedgerKey>,
                                          seen: map<LedgerKey, Record>,
                                          run: Run, b: BucketFile, n: nat, older: seq<BucketFile>)
      returns (seen': map<LedgerKey, Record>)
    requires n <= |b| && BucketSized(b) && ShapeOk(t, b) && KeysUnique(b) && Coherent(f)
    requires t == Live ==> InitRule(b, older)
    requires t == HotArchive ==> forall i :: 0 <= i < |b| && b[i].Put? ==> !b[i].init
    requires Separated(universe) && KeysOf(b) <= universe
    requires Inv(universe, f, seen, [b[n..]] + older, run)
    ensures Inv(universe, f, seen', older, StreamFrom(t, f, run, b, n, older == []))
    ensures forall k :: Top(seen', older, k) == Top(seen, [b[n..]] + older, k)
    decreases |b| - n
  {
    hide Lawful, InitRule, KeysUnique, ShapeOk, Step, Separated;
    if n == |b| {
      seen' := seen;
      forall k ensures Newest([b[n..]] + older, k) == Newest(older, k) {
        assert b[n..] == [] && ([b[n..]] + older)[0] == [] && ([b[n..]] + older)[1..] == older;
      }
    } else {
      var next := Step(t, f, run, b, n, older == []);
      var rest, rest' := [b[n..]] + older, [b[n + 1..]] + older;
      forall k ensures Newest(rest, k) == if !b[n].Meta? && KeyOf(b[n]) == k then Some(b[n]) else Newest(rest', k) {
        NewestHead(b, n, older, k);
      }
      if b[n].Meta? {
        MetaStep(t, f, run, b, n, older == []);
        seen' := BucketKeepsInv(t, f, universe, seen, next, b, n + 1, older);
      } else {
        assert KeyOf(b[n]) in KeysOf(b);
        StepIsLawful(t, f, run, b, n, older);
        LawfulKeepsInv(universe, f, seen, rest, rest', b[n], run, next);
        seen' := BucketKeepsInv(t, f, universe, Note(seen, b[n]), next, b, n + 1, older);
      }
    }
  }

  lemma MetaStep(t: ListType, f: Filters, run: Run, b: BucketFile, n: nat, oldest: bool)
    requires n < |b| && BucketSized(b) && ShapeOk(t, b) && b[n].Meta?
    ensures Step(t, f, run, b, n, oldest) == run
  {
    assert RecordShapeOk(t, b, n);
  }

  lemma {:induction false} ListKeepsInv(t: ListType, f: Filters, universe: set<LedgerKey>, seen: map<LedgerKey, Record>,
                                        run: Run, bs: seq<BucketFile>)
    requires ListSized(bs) && ListOk(t, bs) && Coherent(f) && Separated(universe) && Within(bs, universe)
    requires t == HotArchive ==> forall i, j :: 0 <= i < |bs| && 0 <= j < |bs[i]| && bs[i][j].Put? ==> !bs[i][j].init
    requires Inv(universe, f, seen, bs, run)
    ensures var last := StreamList(t, f, run, bs);
            && last.error.None? && DistinctKeys(last.out)
            && forall e :: e in last.out <==> Puts(Top(seen, bs, e.key), e) && f.key(e.key)
    decreases |bs|
  {
    if bs != [] {
      hide Inv, KeysUnique, InitRule, ShapeOk, StreamFrom, Separated, Coherent;
      var b, older := bs[0], bs[1..];
      assert [b[0..]] + older == bs by { assert b[0..] == b; }
      assert forall i :: 0 <= i < |older| ==> older[i] == bs[i + 1];
      var seen' := BucketKeepsInv(t, f, universe, seen, run, b, 0, older);
      var next := StreamFrom(t, f, run, b, 0, older == []);
      assert (older == []) == (|bs| == 1);
      assert run.error.None? by { InvMeansNoError(universe, f, seen, bs, run); }
      ListKeepsInv(t, f, universe, seen', next, older);
    }
  }

  lemma InvMeansNoError(universe: set<LedgerKey>, f: Filters, seen: map<LedgerKey, Record>, rest: seq<BucketFile>,
                        run: Run)
    requires Inv(universe, f, seen, rest, run)
    ensures run.error.None?
  {
  }

  // ---------------------------------------------------------------- the theorem

  /** For every list that obeys the rules, streaming it newest to oldest raises no error and
      yields exactly the entries of the replay that pass the filters, each key once. */
  lemma StreamEqualsReplay(t: ListType, f: Filters, bs: seq<BucketFile>, universe: set<LedgerKey>)
    requires ListSized(bs) && ListOk(t, bs) && Coherent(f) && Separated(universe) && Within(bs, universe)
    requires t == HotArchive ==> forall i, j :: 0 <= i < |bs| && 0 <= j < |bs[i]| && bs[i][j].Put? ==> !bs[i][j].init
    ensures var last := StreamList(t, f, EmptyRun, bs);
            && last.error.None? && DistinctKeys(last.out)
            && forall e :: e in last.out <==> Lookup(Replay(bs), e.key) == Some(e) && f.key(e.key)
  {
    ListKeepsInv(t, f, universe, map[], EmptyRun, bs);
    var out := StreamList(t, f, EmptyRun, bs).out;
    ListOkUnique(t, bs);
    forall e ensures e in out <==> Lookup(Replay(bs), e.key) == Some(e) && f.key(e.key) {
      ReplayIsNewest(bs, e.key);
    }
  }

  /** The universe of real ledger keys: offers name one seller per id, data names do not end in a
      zero byte. */
  ghost predicate Canonical(s: Schema, universe: set<LedgerKey>) {
    && (forall k :: k in universe ==> KeyOk(s, k) && (k.Data? ==> Trim(k.name) == k.name))
    && forall k, l :: k in universe && l in universe && k.Offer? && l.Offer? && k.offerId == l.offerId ==>
         k.seller == l.seller
  }

  lemma CanonicalSeparates(s: Schema, universe: set<LedgerKey>)
    requires Canonical(s, universe)
    ensures Separated(universe)
  {
    hide Compress, Trim;
    forall k, l | k in universe && l in universe && Sized(k) && Sized(l) && Compress(k) == Compress(l)
      ensures k == l
    {
      CompressSeparates(s, k, l);
    }
  }

  // ---------------------------------------------------------------- errors, and why the rules

  /** With metadata at the start only, the version in force is that of the first record, 0 without metadata. */
  lemma {:induction false} VersionIsFirst(b: BucketFile, n: nat)
    requires n <= |b| && forall j :: 0 < j < n ==> !b[j].Meta?
    ensures VersionAt(b, n) == if n > 0 && b[0].Meta? then b[0].version else 0
  {
    if n > 0 { VersionIsFirst(b, n - 1); }
  }

  /** Only entries that pass the filter are yielded, whatever the filter looks at. */
  lemma {:induction false} YieldedPass(t: ListType, f: Filters, run: Run, bs: seq<BucketFile>)
    requires ListSized(bs) && forall e :: e in run.out ==> f.entry(e)
    ensures forall e :: e in StreamList(t, f, run, bs).out ==> f.entry(e)
    decreases |bs|
  {
    hide StreamFrom;
    if bs != [] && run.error.None? {
      assert forall i :: 0 <= i < |bs[1..]| ==> bs[1..][i] == bs[i + 1];
      BucketYieldsPass(t, f, run, bs[0], 0, |bs| == 1);
      YieldedPass(t, f, StreamFrom(t, f, run, bs[0], 0, |bs| == 1), bs[1..]);
    }
  }

  lemma {:induction false} BucketYieldsPass(t: ListType, f: Filters, run: Run, b: BucketFile, n: nat, oldest: bool)
    requires n <= |b| && BucketSized(b) && forall e :: e in run.out ==> f.entry(e)
    ensures forall e :: e in StreamFrom(t, f, run, b, n, oldest).out ==> f.entry(e)
    decreases |b| - n
  {
    hide Compress;
    if n < |b| && run.error.None? {
      BucketYieldsPass(t, f, Step(t, f, run, b, n, oldest), b, n + 1, oldest);
    }
  }

  /** With no filter, a bucket is read without error exactly when its shape is right. */
  lemma {:induction false} ErrorExactly(t: ListType, f: Filters, run: Run, b: BucketFile, n: nat, oldest: bool)
    requires (forall e :: f.entry(e)) && (forall k :: f.key(k))
    requires n <= |b| && BucketSized(b) && run.error.None?
    ensures StreamFrom(t, f, run, b, n, oldest).error.None? <==> forall i :: n <= i < |b| ==> RecordShapeOk(t, b, i)
    ensures n == 0 ==> (StreamFrom(t, f, run, b, n, oldest).error.None? <==> ShapeOk(t, b))
    decreases |b| - n
  {
    hide Compress;
    if n < |b| {
      assert RecordSized(b[n]);
      var next := Step(t, f, run, b, n, oldest);
      assert next.error.None? <==> RecordShapeOk(t, b, n);
      if next.error.None? { ErrorExactly(t, f, next, b, n + 1, oldest); }
    }
  }

  /** Without CAP-20 the algorithm is wrong: an INITENTRY over an older LIVEENTRY of the same key
      makes the stream yield the key twice, whatever the two entries are. */
  lemma InitRuleNeeded(f: Filters, e: LedgerEntry, older: LedgerEntry)
    requires (forall x :: f.entry(x)) && (forall k :: f.key(k)) && e.key == older.key && Sized(e.key)
    ensures var bs := [[Meta(11, None), Put(e, true)], [Put(older, false)]];
            ListSized(bs) && StreamList(Live, f, EmptyRun, bs).out == [e, older]
  {
    var b0, b1 := [Meta(11, None), Put(e, true)], [Put(older, false)];
    var bs := [b0, b1];
    assert BucketSized(b0) && BucketSized(b1);
    hide Compress;
    assert VersionAt(b0, 1) == 11;
    var r0 := Run({}, [e], None);
    assert Step(Live, f, EmptyRun, b0, 0, false) == EmptyRun;
    assert Step(Live, f, EmptyRun, b0, 1, false) == r0;
    assert StreamFrom(Live, f, r0, b0, 2, false) == r0;
    assert StreamFrom(Live, f, EmptyRun, b0, 1, false) == r0;
    assert StreamFrom(Live, f, EmptyRun, b0, 0, false) == r0;
    var r1 := Run({}, [e, older], None);
    assert Step(Live, f, r0, b1, 0, true) == r1;
    assert StreamFrom(Live, f, r1, b1, 1, true) == r1;
    assert StreamFrom(Live, f, r0, b1, 0, true) == r1;
    assert bs[1..] == [b1] && [b1][1..] == [];
    assert StreamList(Live, f, r1, []) == r1;
    assert StreamList(Live, f, r0, [b1]) == r1;
  }
}
