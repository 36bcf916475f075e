/** The checkpoint reader's bucket-list algorithm: stream the buckets newest to oldest with a set
    of visited keys, against the "trivial" replay oldest to newest that its comment describes. */
module BucketList {
  import opened Common
  import opened XdrSchema
  import opened LedgerKeys

  datatype LedgerEntry = LedgerEntry(key: LedgerKey, data: Bytes)

  datatype ListType = Live | HotArchive

  /** One bucket record. In the live list Put is LIVEENTRY or, with `init`, INITENTRY, and Del is
      DEADENTRY. In the hot archive Put is ARCHIVED, Del is LIVE, and there is no INITENTRY. */
  datatype Record =
    | Meta(version: nat, listType: Option<ListType>)
    | Put(entry: LedgerEntry, init: bool)
    | Del(dead: LedgerKey)

  type BucketFile = seq<Record>

  datatype ReadError = MetaNotFirst | MetaMissing | WrongListType | InitInOldBucket

  /** WithFilter: nil filters are the constant true functions. */
  datatype Filters = Filters(entry: LedgerEntry -> bool, key: LedgerKey -> bool)

  /** What a stretch of streaming has done: the entries yielded, the keys remembered, and the
      error that ended it, if any. */
  datatype Run = Run(visited: set<Bytes>, out: seq<LedgerEntry>, error: Option<ReadError>)

  /** KeyOk without the part about contract data encodings: enough to compress the key. */
  predicate Sized(k: LedgerKey) {
    && (k.Offer? ==> InRange(Hyper, k.offerId))
    && (k.ConfigSetting? ==> InRange(Int, k.setting))
    && (k.ContractData? ==> k.durability <= 1)
  }

  function KeyOf(r: Record): (k: LedgerKey)
    requires !r.Meta?
  {
    if r.Put? then r.entry.key else r.dead
  }

  predicate RecordSized(r: Record) {
    !r.Meta? ==> Sized(KeyOf(r))
  }

  /** Claimable balances and offers have ids that are never reused. */
  predicate UniqueId(k: LedgerKey) {
    k.ClaimableBalance? || k.Offer?
  }

  // ---------------------------------------------------------------- one record

  predicate Skipped(f: Filters, r: Record)
    requires !r.Meta?
  {
    if r.Put? then !f.entry(r.entry) else !f.key(r.dead)
  }

  /** streamLiveBucket on record `n`; `version` comes from the bucket's METAENTRY, 0 without one. */
  function LiveStep(f: Filters, run: Run, r: Record, n: nat, version: nat, oldest: bool): (next: Run)
    requires RecordSized(r)
  {
    if r.Meta? then
      if n != 0 then run.(error := Some(MetaNotFirst))
      else if r.listType.Some? && r.listType.value != Live then run.(error := Some(WrongListType))
      else run
    else if Skipped(f, r) then run
    else
      var h := Compress(KeyOf(r));
      if r.Del? then run.(visited := run.visited + {h})
      else if r.init && version < 11 then run.(error := Some(InitInOldBucket))
      else if h !in run.visited then
        Run(if !r.init && !oldest then run.visited + {h} else run.visited, run.out + [r.entry], None)
      else if r.init && UniqueId(KeyOf(r)) then run.(visited := run.visited - {h})
      else run
  }

  /** streamHotArchiveBucket on record `n`. */
  function HotStep(f: Filters, run: Run, r: Record, n: nat, oldest: bool): (next: Run)
    requires RecordSized(r)
  {
    if r.Meta? then
      if n != 0 then run.(error := Some(MetaNotFirst))
      else if r.listType != Some(HotArchive) then run.(error := Some(WrongListType))
      else run
    else if n == 0 then run.(error := Some(MetaMissing))
    else if Skipped(f, r) then run
    else
      var h := Compress(KeyOf(r));
      if h in run.visited then run
      else
        Run(if oldest then run.visited else run.visited + {h}, if r.Put? then run.out + [r.entry] else run.out, None)
  }

  /** The protocol version in force at record `n`: the last METAENTRY before it. */
  function VersionAt(b: BucketFile, n: nat): (v: nat)
    requires n <= |b|
  {
    if n == 0 then 0 else if b[n - 1].Meta? then b[n - 1].version else VersionAt(b, n - 1)
  }

  function Step(t: ListType, f: Filters, run: Run, b: BucketFile, n: nat, oldest: bool): (next: Run)
    requires n < |b| && RecordSized(b[n])
  {
    if t == Live then LiveStep(f, run, b[n], n, if b[n].Meta? then b[n].version else VersionAt(b, n), oldest)
    else HotStep(f, run, b[n], n, oldest)
  }

  // ---------------------------------------------------------------- whole buckets and lists

  predicate BucketSized(b: BucketFile) {
    forall i :: 0 <= i < |b| ==> RecordSized(b[i])
  }

  function StreamFrom(t: ListType, f: Filters, run: Run, b: BucketFile, n: nat, oldest: bool): (last: Run)
    requires n <= |b| && BucketSized(b)
    decreases |b| - n
  {
    if n == |b| || run.error.Some? then run
    else StreamFrom(t, f, Step(t, f, run, b, n, oldest), b, n + 1, oldest)
  }

  predicate ListSized(bs: seq<BucketFile>) {
    forall i :: 0 <= i < |bs| ==> BucketSized(bs[i])
  }

  /** streamBucketList over the non-zero buckets, newest first. */
  function StreamList(t: ListType, f: Filters, run: Run, bs: seq<BucketFile>): (last: Run)
    requires ListSized(bs)
    decreases |bs|
  {
    if bs == [] || run.error.Some? then run
    else
      assert forall i :: 0 <= i < |bs[1..]| ==> bs[1..][i] == bs[i + 1];
      StreamList(t, f, StreamFrom(t, f, run, bs[0], 0, |bs| == 1), bs[1..])
  }

  const EmptyRun := Run({}, [], None)

  /** The reader object: the visited set and the encoding buffer are updated record by record. */
  class CheckpointChangeReader {
    var visited: set<Bytes>
    const buffer: EncodingBuffer

    constructor ()
      ensures visited == {} && fresh(buffer)
    {
      visited := {};
      buffer := new EncodingBuffer();
    }

    /** The loop body of streamLiveBucket and streamHotArchiveBucket, on record `n`; `version` is
        updated by the caller. The entry is the one yielded, if any. */
    method Take(t: ListType, f: Filters, r: Record, n: nat, version: nat, oldest: bool)
        returns (entry: Option<LedgerEntry>, error: Option<ReadError>)
      requires RecordSized(r)
      modifies this, buffer
      ensures Run(visited, if entry.Some? then [entry.value] else [], error)
           == (if t == Live then LiveStep(f, Run(old(visited), [], None), r, n, version, oldest)
               else HotStep(f, Run(old(visited), [], None), r, n, oldest))
    {
      entry, error := None, None;
      if r.Meta? {
        if n != 0 {
          return None, Some(MetaNotFirst);
        }
        if (t == Live && r.listType.Some? && r.listType.value != Live)
            || (t == HotArchive && r.listType != Some(HotArchive)) {
          return None, Some(WrongListType);
        }
        return;
      }
      if t == HotArchive && n == 0 {
        return None, Some(MetaMissing);
      }
      if Skipped(f, r) {
        return;
      }
      var h := buffer.MarshalCompress(KeyOf(r));
      if t == HotArchive {
        if h !in visited {
          if !oldest { visited := visited + {h}; }
          if r.Put? { entry := Some(r.entry); }
        }
      } else if r.Del? {
        visited := visited + {h};
      } else {
        if r.init && version < 11 {
          return None, Some(InitInOldBucket);
        }
        if h !in visited {
          entry := Some(r.entry);
          if !r.init && !oldest { visited := visited + {h}; }
        } else if r.init && UniqueId(KeyOf(r)) {
          visited := visited - {h};
        }
      }
    }

    /** One pass over a bucket's records. */
    method StreamBucket(t: ListType, f: Filters, b: BucketFile, oldest: bool)
        returns (out: seq<LedgerEntry>, error: Option<ReadError>)
      requires BucketSized(b)
      modifies this, buffer
      ensures Run(visited, out, error) == StreamFrom(t, f, Run(old(visited), [], None), b, 0, oldest)
    {
      hide LiveStep, HotStep;
      out, error := [], None;
      var version: nat := 0;
      for n := 0 to |b|
        invariant error.None? && version == VersionAt(b, n)
        invariant StreamFrom(t, f, Run(visited, out, error), b, n, oldest)
               == StreamFrom(t, f, Run(old(visited), [], None), b, 0, oldest)
      {
        if b[n].Meta? { version := b[n].version; }
        StepShift(t, f, out, Run(visited, [], None), b, n, oldest);
        assert out + [] == out;
        var entry, failed := Take(t, f, b[n], n, version, oldest);
        if entry.Some? { out := out + [entry.value]; }
        if failed.Some? {
          return out, failed;
        }
      }
    }
  }

  /** A run that comes after `o` was yielded. */
  function Shift(o: seq<LedgerEntry>, r: Run): (s: Run) {
    Run(r.visited, o + r.out, r.error)
  }

  /** A step only appends to what was yielded. */
  lemma StepShift(t: ListType, f: Filters, o: seq<LedgerEntry>, run: Run, b: BucketFile, n: nat, oldest: bool)
    requires n < |b| && RecordSized(b[n]) && run.error.None?
    ensures Step(t, f, Shift(o, run), b, n, oldest) == Shift(o, Step(t, f, run, b, n, oldest))
  {
    hide Compress;
    if b[n].Put? { assert (o + run.out) + [b[n].entry] == o + (run.out + [b[n].entry]); }
  }

  // ---------------------------------------------------------------- the trivial algorithm

  /** Apply one bucket's records in order to the map of live entries. */
  function Apply(m: map<LedgerKey, LedgerEntry>, b: BucketFile): (m': map<LedgerKey, LedgerEntry>)
    decreases |b|
  {
    if b == [] then m
    else
      var last := b[|b| - 1];
      var before := Apply(m, b[..|b| - 1]);
      match last
      case Meta(_, _) => before
      case Put(e, _) => before[e.key := e]
      case Del(k) => before - {k}
  }

  /** Replay the buckets oldest to newest; `bs` lists them newest first. */
  function Replay(bs: seq<BucketFile>): (m: map<LedgerKey, LedgerEntry>)
    decreases |bs|
  {
    if bs == [] then map[] else Apply(Replay(bs[1..]), bs[0])
  }

  // ---------------------------------------------------------------- the rules a list obeys

  /** Ledger keys are unique within a single bucket. */
  ghost predicate KeysUnique(b: BucketFile) {
    forall i, j :: 0 <= i < |b| && 0 <= j < |b| && !b[i].Meta? && !b[j].Meta? && KeyOf(b[i]) == KeyOf(b[j]) ==> i == j
  }

  /** The newest record for `k` in a bucket, or in a list given newest first. */
  function Newest(bs: seq<BucketFile>, k: LedgerKey): (r: Option<Record>)
    ensures r.Some? ==> !r.value.Meta? && KeyOf(r.value) == k
    decreases |bs|
  {
    if bs == [] then None
    else
      var here := Find(bs[0], k);
      if here.Some? then here else Newest(bs[1..], k)
  }

  function Find(b: BucketFile, k: LedgerKey): (r: Option<Record>)
    ensures r.Some? ==> r.value in b && !r.value.Meta? && KeyOf(r.value) == k
    ensures r.None? ==> forall i :: 0 <= i < |b| && !b[i].Meta? ==> KeyOf(b[i]) != k
    decreases |b|
  {
    if b == [] then None
    else if !b[0].Meta? && KeyOf(b[0]) == k then Some(b[0])
    else
      var r := Find(b[1..], k);
      assert forall i :: 1 <= i < |b| ==> b[i] == b[1..][i - 1];
      r
  }

  predicate Quiet(r: Option<Record>) {
    r.Some? ==> r.value.Del?
  }

  /** CAP-20 for bucket `b` with the older buckets behind it: an INITENTRY is preceded by no
      record of its key or by a DEADENTRY. An id that is never reused has no record before its
      INITENTRY at all. */
  ghost predicate InitRule(b: BucketFile, older: seq<BucketFile>) {
    forall i :: 0 <= i < |b| && b[i].Put? && b[i].init ==>
      && Quiet(Newest(older, b[i].entry.key))
      && (b[i].entry.key.ClaimableBalance? || b[i].entry.key.Offer? ==> Newest(older, b[i].entry.key).None?)
  }

  /** Record `i` passes the reader's checks on metadata and INITENTRY for this list type. */
  predicate RecordShapeOk(t: ListType, b: BucketFile, i: nat)
    requires i < |b|
  {
    && (b[i].Meta? ==>
          && i == 0
          && if t == Live then b[i].listType.Some? ==> b[i].listType.value == Live
             else b[i].listType == Some(HotArchive))
    && (t == Live && b[i].Put? && b[i].init ==> VersionAt(b, i) >= 11)
    && (t == HotArchive && i == 0 ==> b[i].Meta?)
  }

  predicate ShapeOk(t: ListType, b: BucketFile) {
    forall i :: 0 <= i < |b| ==> RecordShapeOk(t, b, i)
  }

  ghost predicate ListOk(t: ListType, bs: seq<BucketFile>)
    decreases |bs|
  {
    bs != [] ==>
      && ShapeOk(t, bs[0]) && KeysUnique(bs[0])
      && (t == Live ==> InitRule(bs[0], bs[1..]))
      && ListOk(t, bs[1..])
  }

  /** The keys the list mentions. */
  function KeysOf(b: BucketFile): (ks: set<LedgerKey>) {
    set i | 0 <= i < |b| && !b[i].Meta? :: KeyOf(b[i])
  }

  /** Every key that occurs lies in `universe`, where the compressed form separates keys. */
  ghost predicate Separated(universe: set<LedgerKey>) {
    && (forall k :: k in universe ==> Sized(k))
    && forall k, l :: k in universe && l in universe && Compress(k) == Compress(l) ==> k == l
  }

  ghost predicate Within(bs: seq<BucketFile>, universe: set<LedgerKey>) {
    forall i :: 0 <= i < |bs| ==> KeysOf(bs[i]) <= universe
  }

  /** Filters that decide on the key alone, so that both kinds of record of a key agree. */
  ghost predicate Coherent(f: Filters) {
    forall e: LedgerEntry :: f.entry(e) == f.key(e.key)
  }
}
