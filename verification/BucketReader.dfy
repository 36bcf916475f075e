/** A bucket as the reader really gets it: opened, read through retries, streamed record by record,
    and checked against its hash. What passes the check is the committed bucket, whatever the
    openings served; so a consumer that reaches io.EOF has the committed state. */
module BucketReader {
  import opened Common
  import opened LedgerKeys
  import opened BucketList
  import opened BucketListProofs
  import opened BucketListExact
  import opened BucketStream
  import opened ReaderProtocol
  import opened CheckpointReader

  /** What a reader is configured with. `validate` is off under DisableBucketListHashValidation. */
  datatype Config = Config(list: ListType, filters: Filters, decode: Decoder<BucketList.Record>,
      digest: Bytes -> Bytes, validate: bool)

  /** Decoded keys are in range, as XDR decoding makes them. */
  ghost predicate SizedDecoder(decode: Decoder<BucketList.Record>) {
    forall p :: decode(p).Some? ==> RecordSized(decode(p).value.0)
  }

  /** The bytes `c` are framed records, and possibly an empty frame with anything behind it. */
  ghost predicate Parsed(decode: Decoder<BucketList.Record>, c: Bytes, ps: seq<Bytes>, rest: Bytes, b: BucketFile) {
    && Framable(ps) && |b| == |ps|
    && (forall i :: 0 <= i < |b| ==> decode(ps[i]) == Some((b[i], |ps[i]|)))
    && c == Frames(ps) + rest && (rest == [] || Frame([]) <= rest)
  }

  /** The bytes `c` hold exactly the records `b`. */
  ghost predicate Holds(decode: Decoder<BucketList.Record>, c: Bytes, b: BucketFile) {
    exists ps, rest :: Parsed(decode, c, ps, rest, b)
  }

  /** Some content with the digest `hash` holds exactly the records `b`. */
  ghost predicate Committed(u: Config, hash: Bytes, b: BucketFile) {
    exists c :: u.digest(c) == hash && Holds(u.decode, c, b)
  }

  // ---------------------------------------------------------------- growing buckets

  lemma {:induction false} VersionPrefix(b: BucketFile, r: BucketList.Record, n: nat)
    requires n <= |b|
    ensures VersionAt(b + [r], n) == VersionAt(b, n)
  {
    if n > 0 { VersionPrefix(b, r, n - 1); }
  }

  /** Streaming one more record. */
  lemma {:induction false} StreamSnoc(t: ListType, f: Filters, run: Run, b: BucketFile, r: BucketList.Record, n: nat,
                                      oldest: bool)
    requires n <= |b| && BucketSized(b) && BucketSized(b + [r])
    ensures StreamFrom(t, f, run, b + [r], n, oldest)
         == var last := StreamFrom(t, f, run, b, n, oldest);
            if last.error.Some? then last else Step(t, f, last, b + [r], |b|, oldest)
    decreases |b| - n
  {
    hide LiveStep, HotStep;
    if n < |b| {
      assert RecordSized(b[n]) && (b + [r])[n] == b[n];
      VersionPrefix(b, r, n);
      if run.error.None? { StreamSnoc(t, f, Step(t, f, run, b, n, oldest), b, r, n + 1, oldest); }
    } else {
      assert (b + [r])[|b|] == r;
      assert RecordSized((b + [r])[|b|]);
    }
  }

  // ---------------------------------------------------------------- one bucket

  const OPEN_FAILED := 1
  const READ_FAILED := 2
  const BAD_RECORD := 3
  const BAD_HASH := 4
  const CLOSE_FAILED := 5

  /** The records read so far and the bytes absorbed for them. */
  ghost predicate Absorbed(decode: Decoder<BucketList.Record>, hash: Bytes, ps: seq<Bytes>, b: BucketFile) {
    && Framable(ps) && hash == Frames(ps) && |b| == |ps| && BucketSized(b)
    && forall i :: 0 <= i < |b| ==> decode(ps[i]) == Some((b[i], |ps[i]|))
  }

  lemma AbsorbedSnoc(decode: Decoder<BucketList.Record>, hash: Bytes, ps: seq<Bytes>, b: BucketFile, p: Bytes,
                     r: BucketList.Record)
    requires SizedDecoder(decode) && Absorbed(decode, hash, ps, b)
    requires 0 < |p| <= MAX_RECORD && decode(p) == Some((r, |p|))
    ensures Absorbed(decode, hash + Frame(p), ps + [p], b + [r])
  {
    hide Frame;
    assert (ps + [p])[..|ps|] == ps;
  }

  /** The end of the bucket: what the check has absorbed by then holds the records read. */
  lemma AbsorbedHolds(decode: Decoder<BucketList.Record>, hash: Bytes, ps: seq<Bytes>, b: BucketFile, rest: Bytes)
    requires Absorbed(decode, hash, ps, b) && (rest == [] || Frame([]) <= rest)
    ensures Holds(decode, hash + rest, b)
  {
    assert Parsed(decode, hash + rest, ps, rest, b);
  }

  /** The loop body of streamBucket on a record that was read. */
  method TakeRecord(reader: CheckpointChangeReader, u: Config, r: BucketList.Record, n: nat, version: nat,
                    out: seq<LedgerEntry>,
                    oldest: bool, ghost start: Run, ghost b: BucketFile)
      returns (out': seq<LedgerEntry>, version': nat, ok: bool)
    requires BucketSized(b) && RecordSized(r) && n == |b| && version == VersionAt(b, n)
    requires StreamFrom(u.list, u.filters, start, b, 0, oldest) == Run(reader.visited, out, None)
    modifies reader, reader.buffer
    ensures ok ==> version' == VersionAt(b + [r], n + 1)
    ensures ok ==> StreamFrom(u.list, u.filters, start, b + [r], 0, oldest) == Run(reader.visited, out', None)
    ensures !ok ==> StreamFrom(u.list, u.filters, start, b + [r], 0, oldest).error.Some?
  {
    hide LiveStep, HotStep, StreamFrom;
    StreamSnoc(u.list, u.filters, start, b, r, 0, oldest);
    VersionPrefix(b, r, n);
    version' := if r.Meta? then r.version else version;
    StepShift(u.list, u.filters, out, Run(reader.visited, [], None), b + [r], n, oldest);
    assert out + [] == out;
    var entry, failed := reader.Take(u.list, u.filters, r, n, version', oldest);
    out' := if entry.Some? then out + [entry.value] else out;
    ok := failed.None?;
  }

  /** Opening number `at` serves the bucket whose hash it is, with the records `good`, without errors. */
  ghost predicate ServesAt(world: World, u: Config, hash: Bytes, good: BucketFile, at: nat) {
    && NeverDone(world) && world.openings(at).Opened? && Benign(world.openings(at).source)
    && u.digest(world.openings(at).source.content) == hash
    && Holds(u.decode, world.openings(at).source.content, good)
  }

  /** The bucket `good` streams without a record error. */
  ghost predicate Clean(u: Config, start: Run, good: BucketFile, oldest: bool) {
    BucketSized(good) && StreamFrom(u.list, u.filters, start, good, 0, oldest).error.None?
  }

  /** On a benign source, the next read returns the next record, or the end of the bucket. */
  lemma NextFrame(u: Config, src: Source, qs: seq<Bytes>, rest: Bytes, good: BucketFile, n: nat, hash: Bytes)
    requires Benign(src) && Parsed(u.decode, src.content, qs, rest, good) && n <= |good|
    requires Absorbed(u.decode, hash, qs[..n], good[..n])
    ensures |hash| <= src.Limit()
    ensures n < |good| ==> ReadFrame(u.decode, src, |hash|).0 == Record(good[n], qs[n])
    ensures n == |good| ==> ReadFrame(u.decode, src, |hash|).0.Eof?
    ensures hash <= src.content
  {
    hide Frames, Frame, ReadFrame;
    if n < |good| {
      NextRecord(u, src, qs, rest, good, n);
    } else {
      assert qs[..n] == qs;
      SplitAt(Frames(qs), rest);
      if rest != [] {
        PrefixOfSum(Frames(qs), Frame([]), rest);
        FrameAt(src.content, Frames(qs), Frame([]));
        ReadsEmpty(u, src, |hash|);
      } else {
        EndsClean(u, src, |hash|);
      }
    }
  }

  lemma EndsClean(u: Config, src: Source, pos: nat)
    requires Benign(src) && pos == |src.content|
    ensures pos <= src.Limit() && ReadFrame(u.decode, src, pos).0.Eof?
  {
  }

  lemma PrefixOfSum<T>(a: seq<T>, x: seq<T>, rest: seq<T>)
    requires x <= rest
    ensures a + x <= a + rest
  {
  }

  lemma NextRecord(u: Config, src: Source, qs: seq<Bytes>, rest: Bytes, good: BucketFile, n: nat)
    requires Benign(src) && Parsed(u.decode, src.content, qs, rest, good) && n < |good|
    ensures Framable(qs[..n]) && Frames(qs[..n]) <= src.content && |Frames(qs[..n])| <= src.Limit()
    ensures ReadFrame(u.decode, src, |Frames(qs[..n])|).0 == Record(good[n], qs[n])
  {
    hide Frames, Frame, ReadFrame;
    FramesPrefix(qs, n + 1);
    FramesOfPrefix(qs, n);
    PrefixTransitive(Frames(qs[..n + 1]), Frames(qs), src.content);
    FrameAt(src.content, Frames(qs[..n]), Frame(qs[n]));
    ReadsFrame(u, src, |Frames(qs[..n])|, qs[n], good[n]);
  }

  lemma FrameAt(c: Bytes, a: Bytes, x: Bytes)
    requires a + x <= c
    ensures |a| + |x| <= |c| && a <= c && c[|a|..|a| + |x|] == x
  {
    assert (a + x)[|a|..] == x;
  }

  lemma ReadsFrame(u: Config, src: Source, pos: nat, p: Bytes, r: BucketList.Record)
    requires Benign(src) && 0 < |p| <= MAX_RECORD && u.decode(p) == Some((r, |p|))
    requires pos + |Frame(p)| <= |src.content| && src.content[pos..pos + |Frame(p)|] == Frame(p)
    ensures pos <= src.Limit() && ReadFrame(u.decode, src, pos).0 == Record(r, p)
  {
    var tail := src.content[pos..];
    SplitAt(PutU32(LAST_FRAGMENT + |p|), p);
    PutGetU32(LAST_FRAGMENT + |p|, tail[4..]);
    assert tail == PutU32(LAST_FRAGMENT + |p|) + tail[4..];
    assert src.content[pos + 4..pos + 4 + |p|] == Frame(p)[4..];
  }

  lemma ReadsEmpty(u: Config, src: Source, pos: nat)
    requires Benign(src)
    requires pos + |Frame([])| <= |src.content| && src.content[pos..pos + |Frame([])|] == Frame([])
    ensures pos <= src.Limit() && ReadFrame(u.decode, src, pos).0.Eof?
  {
    var tail := src.content[pos..];
    PutGetU32(LAST_FRAGMENT, tail[4..]);
    assert Frame([]) == PutU32(LAST_FRAGMENT);
    assert tail == PutU32(LAST_FRAGMENT) + tail[4..];
  }

  /** An error met early stays. */
  lemma {:induction false} ErrorStays(u: Config, start: Run, good: BucketFile, k: nat, oldest: bool)
    requires BucketSized(good) && k <= |good|
    requires StreamFrom(u.list, u.filters, start, good[..k], 0, oldest).error.Some?
    ensures StreamFrom(u.list, u.filters, start, good, 0, oldest).error.Some?
    decreases |good| - k
  {
    hide StreamFrom, Step;
    if k == |good| {
      assert good[..k] == good;
    } else {
      assert good[..k + 1] == good[..k] + [good[k]];
      StreamSnoc(u.list, u.filters, start, good[..k], good[k], 0, oldest);
      ErrorStays(u, start, good, k + 1, oldest);
    }
  }

  /** streamBucket over an archive that may serve anything. A verdict of None means the bucket was
      read to its end; with validation on, that its records are those of the committed content. If
      the archive serves the committed bucket without errors, the verdict is None. */
  method StreamBucket(reader: CheckpointChangeReader, world: World, u: Config, hash: Bytes, oldest: bool,
                      ghost good: BucketFile)
      returns (s: Script, ghost b: BucketFile)
    requires SizedDecoder(u.decode) && Bounded(world)
    modifies reader, reader.buffer, world
    ensures BucketSized(b)
    ensures s.verdict.None? ==>
              StreamFrom(u.list, u.filters, Run(old(reader.visited), [], None), b, 0, oldest)
              == Run(reader.visited, s.entries, None)
    ensures s.verdict.None? && u.validate ==> Committed(u, hash, b)
    ensures ServesAt(world, u, hash, good, old(world.opens))
            && Clean(u, Run(old(reader.visited), [], None), good, oldest)
            ==> s.verdict.None? && b == good && world.opens == old(world.opens) + 1
  {
    hide StreamFrom, Frame, ReadFrame, Absorbed, Parsed, Benign;
    b := [];
    ghost var start, ps: seq<Bytes> := Run(reader.visited, [], None), [];
    ghost var fine := ServesAt(world, u, hash, good, world.opens) && Clean(u, start, good, oldest);
    var opening := world.Open();
    if opening.Refused? {
      return Script([], Some(OPEN_FAILED)), b;
    }
    ghost var src, qs: seq<Bytes>, rest: Bytes := opening.source, [], [];
    if fine {
      qs, rest :| Parsed(u.decode, src.content, qs, rest, good);
      ParsedLength(u, src.content, qs, rest, good);
    }
    hide ServesAt, Clean, NeverDone, Committed, Bounded, SizedDecoder;
    var stream := new Stream(opening.source);
    var out: seq<LedgerEntry>, n: nat, version: nat := [], 0, 0;
    StartAbsorbed(u, start, oldest);
    while true
      invariant stream.Valid() && |stream.source.content| <= MAX_INT64
      invariant Absorbed(u.decode, stream.hash, ps, b) && BucketSized(b) && |b| == n && version == VersionAt(b, n)
      invariant StreamFrom(u.list, u.filters, start, b, 0, oldest) == Run(reader.visited, out, None)
      invariant fine ==> world.opens == old(world.opens) + 1
      invariant fine ==> stream.source == src && |qs| == |good| && n <= |good| && ps == qs[..n] && b == good[..n]
      decreases MAX_INT64 - |stream.hash|
    {
      ghost var before := stream.hash;
      var r := ReadNext(world, stream, u, ps, b, fine, src, qs, rest, good);
      if r.Eof? {
        var verdict := CheckBucket(stream, u, hash, before, ps, b);
        return Script(out, verdict), b;
      }
      if r.Failed? {
        return Script(out, Some(READ_FAILED)), b;
      }
      var ok;
      out, version, ok := TakeRecord(reader, u, r.value, n, version, out, oldest, start, b);
      b, ps, n := b + [r.value], ps + [r.payload], n + 1;
      if !ok {
        if fine { ErrorStays(u, start, good, n, oldest); }
        return Script(out, Some(BAD_RECORD)), b;
      }
    }
  }

  /** One read of streamBucket. `fine` says that the source is benign and holds `good`, of which the
      records `b` were read. */
  method ReadNext(world: World, stream: Stream, u: Config, ghost ps: seq<Bytes>, ghost b: BucketFile,
                  ghost fine: bool, ghost src: Source, ghost qs: seq<Bytes>, ghost rest: Bytes, ghost good: BucketFile)
      returns (r: Outcome<BucketList.Record>)
    requires SizedDecoder(u.decode) && Bounded(world) && stream.Valid() && |stream.source.content| <= MAX_INT64
    requires Absorbed(u.decode, stream.hash, ps, b)
    requires fine ==>
               && NeverDone(world) && stream.source == src && Benign(src)
                   && Parsed(u.decode, src.content, qs, rest, good)
               && |b| <= |good| == |qs| && ps == qs[..|b|] && b == good[..|b|]
    modifies world, stream
    ensures stream.Valid() && |stream.source.content| <= MAX_INT64
    ensures r.Record? ==>
              && Absorbed(u.decode, stream.hash, ps + [r.payload], b + [r.value]) && RecordSized(r.value)
              && |stream.hash| > old(|stream.hash|)
    ensures r.Eof? ==>
              && stream.closed
              && ((stream.hash == old(stream.hash) && stream.pos == |stream.source.content|)
                  || stream.hash == old(stream.hash) + Frame([]))
    ensures fine ==> stream.source == src && !r.Failed? && world.opens == old(world.opens)
    ensures fine && r.Record? ==>
              |b| < |good| && ps + [r.payload] == qs[..|b| + 1] && b + [r.value] == good[..|b| + 1]
    ensures fine && r.Eof? ==> b == good && stream.hash <= src.content
  {
    hide Frame, ReadFrame, Absorbed, Parsed, Benign;
    ghost var before, pos := stream.hash, stream.pos;
    if fine { NextFrame(u, src, qs, rest, good, |b|, before); }
    r := ReadBucketRecord(world, stream, u.decode, src.content);
    if r.Record? {
      AbsorbedSnoc(u.decode, before, ps, b, r.payload, r.value);
    }
    if fine {
      PrefixGrows(src.content, before, src.content, pos, stream.pos);
      assert good[..|good|] == good;
      assert r.Record? ==> qs[..|b| + 1] == qs[..|b|] + [qs[|b|]] && good[..|b| + 1] == good[..|b|] + [good[|b|]];
    }
  }

  lemma ParsedLength(u: Config, c: Bytes, qs: seq<Bytes>, rest: Bytes, good: BucketFile)
    requires Parsed(u.decode, c, qs, rest, good)
    ensures |qs| == |good|
  {
  }

  lemma StartAbsorbed(u: Config, start: Run, oldest: bool)
    requires start.error.None?
    ensures Absorbed(u.decode, [], [], []) && StreamFrom(u.list, u.filters, start, [], 0, oldest) == start
  {
  }

  /** A source that serves everything without an error, after Close too. */
  ghost predicate Benign(src: Source) {
    !src.Breaks() && !src.closeFails && src.afterClose.Some? && src.afterClose.value >= |src.content|
  }

  lemma WholeContent(mid: Bytes, c: Bytes, pos: nat, end: nat)
    requires pos <= end <= |c| && |mid| == pos
    ensures mid <= c && end == |c| ==> mid + c[pos..end] == c
  {
  }

  /** The end of streamBucket: the hash check, unless it is disabled, and the close. */
  method CheckBucket(stream: Stream, u: Config, hash: Bytes, ghost before: Bytes, ghost ps: seq<Bytes>,
                     ghost b: BucketFile)
      returns (verdict: Option<int>)
    requires stream.Valid() && Absorbed(u.decode, before, ps, b)
    requires (stream.hash == before && stream.pos == |stream.source.content|) || stream.hash == before + Frame([])
    modifies stream
    ensures stream.source == old(stream.source)
    ensures verdict.None? && u.validate ==> Committed(u, hash, b)
    ensures old(stream.closed && Benign(stream.source) && stream.hash <= stream.source.content) ==>
              u.digest(stream.source.content) == hash ==> verdict.None?
  {
    hide Frame, Absorbed, Holds;
    if u.validate {
      ghost var mid, pos := stream.hash, stream.pos;
      var ok := stream.ValidateHash(u.digest, hash);
      WholeContent(mid, stream.source.content, pos, stream.pos);
      if !ok {
        return Some(BAD_HASH);
      }
      ghost var drained := stream.source.content[pos..stream.pos];
      ghost var rest := if mid == before then drained else Frame([]) + drained;
      assert stream.hash == before + rest;
      AbsorbedHolds(u.decode, before, ps, b, rest);
    }
    return if stream.source.closeFails then Some(CLOSE_FAILED) else None;
  }

  // ---------------------------------------------------------------- the content determines the records

  lemma {:induction false} FramesPrefix(ps: seq<Bytes>, k: nat)
    requires Framable(ps) && k <= |ps|
    ensures Framable(ps[..k]) && Frames(ps[..k]) <= Frames(ps)
  {
    hide Frame;
    if k == |ps| {
      assert ps[..k] == ps;
    } else {
      FramesPrefix(ps[..|ps| - 1], k);
      assert ps[..|ps| - 1][..k] == ps[..k];
    }
  }

  lemma ParsedUnique(decode: Decoder<BucketList.Record>, c: Bytes, ps: seq<Bytes>, rest: Bytes, b: BucketFile,
                     qs: seq<Bytes>, rest': Bytes, b': BucketFile)
    requires Parsed(decode, c, ps, rest, b) && Parsed(decode, c, qs, rest', b') && |ps| <= |qs|
    ensures b == b'
  {
    hide Frame, Frames;
    SplitAt(Frames(ps), rest);
    FramesUnique(c, ps, qs);
    EndsThere(c, ps, rest, qs);
    assert qs[..|ps|] == qs;
    assert forall i :: 0 <= i < |b| ==> ps[i] == qs[i];
  }

  /** A parse that ends cannot be continued. */
  lemma EndsThere(c: Bytes, ps: seq<Bytes>, rest: Bytes, qs: seq<Bytes>)
    requires Framable(ps) && Framable(qs) && c == Frames(ps) + rest && (rest == [] || Frame([]) <= rest)
    requires Frames(qs) <= c && |ps| <= |qs| && ps == qs[..|ps|]
    ensures |qs| == |ps|
  {
    hide Frame, Frames;
    if |ps| < |qs| {
      Continues(c, qs, |ps|, rest);
      NotEmptyFrame(rest, qs[|ps|]);
    }
  }

  lemma Continues(c: Bytes, qs: seq<Bytes>, k: nat, rest: Bytes)
    requires Framable(qs) && k < |qs| && c == Frames(qs[..k]) + rest && Frames(qs) <= c
    ensures Frame(qs[k]) <= rest
  {
    hide Frame, Frames, Framable;
    FramesPrefix(qs, k + 1);
    FramesOfPrefix(qs, k);
    TailAfter(Frames(qs[..k]), Frame(qs[k]), Frames(qs), c, rest);
  }

  lemma TailAfter<T>(a: seq<T>, x: seq<T>, whole: seq<T>, c: seq<T>, rest: seq<T>)
    requires a + x <= whole <= c && c == a + rest
    ensures x <= rest
  {
    assert (a + x)[|a|..] == x && c[|a|..] == rest;
    PrefixTransitive(a + x, whole, c);
  }

  lemma PrefixTransitive<T>(a: seq<T>, b: seq<T>, c: seq<T>)
    requires a <= b <= c
    ensures a <= c
  {
  }

  lemma NotEmptyFrame(rest: Bytes, x: Bytes)
    requires 0 < |x| <= MAX_RECORD && Frame(x) <= rest
    ensures rest != [] && !(Frame([]) <= rest)
  {
    hide Frame;
    if Frame([]) <= rest { FrameUnique(rest, [], x); }
  }

  lemma FramesOfPrefix(qs: seq<Bytes>, k: nat)
    requires Framable(qs) && k < |qs|
    ensures 0 < |qs[k]| <= MAX_RECORD && Framable(qs[..k]) && Framable(qs[..k + 1])
    ensures Frames(qs[..k + 1]) == Frames(qs[..k]) + Frame(qs[k])
  {
    assert qs[..k + 1][..k] == qs[..k];
  }

  lemma HoldsUnique(decode: Decoder<BucketList.Record>, c: Bytes, b: BucketFile, b': BucketFile)
    requires Holds(decode, c, b) && Holds(decode, c, b')
    ensures b == b'
  {
    hide Parsed;
    var ps, rest :| Parsed(decode, c, ps, rest, b);
    var qs, rest' :| Parsed(decode, c, qs, rest', b');
    if |ps| <= |qs| {
      ParsedUnique(decode, c, ps, rest, b, qs, rest', b');
    } else {
      ParsedUnique(decode, c, qs, rest', b', ps, rest, b);
    }
  }

  /** No other bytes have the digest of `c`. */
  ghost predicate NoOther(digest: Bytes -> Bytes, c: Bytes) {
    forall x :: digest(x) == digest(c) ==> x == c
  }

  lemma CommittedUnique(u: Config, c: Bytes, b: BucketFile, b': BucketFile)
    requires NoOther(u.digest, c) && Holds(u.decode, c, b) && Committed(u, u.digest(c), b')
    ensures b' == b
  {
    hide Holds;
    HoldsUnique(u.decode, c, b, b');
  }

  // ---------------------------------------------------------------- the bucket list

  predicate AllPass(scripts: seq<Script>) {
    forall i :: 0 <= i < |scripts| ==> scripts[i].verdict.None?
  }

  /** If no bucket failed, every bucket was streamed, and its records are those of some content with
      the bucket's digest. */
  ghost predicate Streamed(u: Config, hashes: seq<Bytes>, scripts: seq<Script>) {
    AllPass(scripts) ==> exists bs :: StreamedAs(u, hashes, scripts, bs)
  }

  ghost predicate StreamedAs(u: Config, hashes: seq<Bytes>, scripts: seq<Script>, bs: seq<BucketFile>) {
    && |scripts| == |bs| == |hashes| && ListSized(bs)
    && Describes(u.list, u.filters, {}, bs, scripts)
    && (u.validate ==> forall i :: 0 <= i < |bs| ==> Committed(u, hashes[i], bs[i]))
  }

  /** The visited sets between the buckets streamed so far, of `n` in all. */
  ghost predicate Chain(u: Config, n: nat, visited: seq<set<Bytes>>, bs: seq<BucketFile>, scripts: seq<Script>) {
    && |bs| == |scripts| && |visited| == |bs| + 1 && visited[0] == {} && ListSized(bs)
    && forall i :: 0 <= i < |bs| ==> Link(u, n, visited, bs, scripts, i)
  }

  ghost predicate Link(u: Config, n: nat, visited: seq<set<Bytes>>, bs: seq<BucketFile>, scripts: seq<Script>, i: nat)
    requires i < |bs| == |scripts| && |visited| == |bs| + 1 && BucketSized(bs[i])
  {
    StreamFrom(u.list, u.filters, Run(visited[i], [], None), bs[i], 0, i == n - 1)
        == Run(visited[i + 1], scripts[i].entries, None)
  }

  lemma {:induction false} ChainDescribes(u: Config, visited: seq<set<Bytes>>, bs: seq<BucketFile>,
      scripts: seq<Script>, k: nat)
    requires Chain(u, |bs|, visited, bs, scripts) && k <= |bs|
    ensures ListSized(bs[k..]) && Describes(u.list, u.filters, visited[k], bs[k..], scripts[k..])
    decreases |bs| - k
  {
    hide StreamFrom;
    if k < |bs| {
      assert Link(u, |bs|, visited, bs, scripts, k);
      ChainDescribes(u, visited, bs, scripts, k + 1);
      assert bs[k..][0] == bs[k] && bs[k..][1..] == bs[k + 1..];
      assert scripts[k..][0] == scripts[k] && scripts[k..][1..] == scripts[k + 1..];
      assert |bs[k..]| == 1 <==> k == |bs| - 1;
    }
  }

  lemma ChainSnoc(u: Config, n: nat, visited: seq<set<Bytes>>, bs: seq<BucketFile>, scripts: seq<Script>,
                  v: set<Bytes>, b: BucketFile, s: Script)
    requires Chain(u, n, visited, bs, scripts) && BucketSized(b)
    requires StreamFrom(u.list, u.filters, Run(visited[|bs|], [], None), b, 0, |bs| == n - 1) == Run(v, s.entries, None)
    ensures Chain(u, n, visited + [v], bs + [b], scripts + [s])
  {
    hide StreamFrom;
    var vs, bs', ss := visited + [v], bs + [b], scripts + [s];
    forall i | 0 <= i < |bs'| ensures BucketSized(bs'[i]) && Link(u, n, vs, bs', ss, i) {
      if i < |bs| {
        assert Link(u, n, visited, bs, scripts, i);
      }
    }
  }

  /** The next openings serve the buckets of the list, one each. */
  ghost predicate ServesAll(world: World, u: Config, hashes: seq<Bytes>, goods: seq<BucketFile>, at: nat) {
    |goods| == |hashes| && forall i :: 0 <= i < |goods| ==> ServesAt(world, u, hashes[i], goods[i], at + i)
  }

  /** The buckets stream without a record error, each from the marks left by those before. */
  ghost predicate CleanList(u: Config, visited: set<Bytes>, bs: seq<BucketFile>)
    decreases |bs|
  {
    bs != [] ==>
      && Clean(u, Run(visited, [], None), bs[0], |bs| == 1)
      && CleanList(u, StreamFrom(u.list, u.filters, Run(visited, [], None), bs[0], 0, |bs| == 1).visited, bs[1..])
  }

  lemma {:induction false} CleanIfStreamed(u: Config, run: Run, bs: seq<BucketFile>)
    requires ListSized(bs) && run.error.None? && StreamList(u.list, u.filters, run, bs).error.None?
    ensures CleanList(u, run.visited, bs)
    decreases |bs|
  {
    hide StreamFrom;
    if bs != [] {
      var start, oldest := Run(run.visited, [], None), |bs| == 1;
      assert forall i :: 0 <= i < |bs[1..]| ==> bs[1..][i] == bs[i + 1];
      assert Shift(run.out, start) == run;
      StreamFromShift(u.list, u.filters, run.out, start, bs[0], 0, oldest);
      var next := StreamFrom(u.list, u.filters, run, bs[0], 0, oldest);
      ErrorStaysInList(u, next, bs[1..]);
      CleanIfStreamed(u, next, bs[1..]);
    }
  }

  lemma ErrorStaysInList(u: Config, run: Run, bs: seq<BucketFile>)
    requires ListSized(bs)
    ensures run.error.Some? ==> StreamList(u.list, u.filters, run, bs).error.Some?
  {
  }

  lemma CleanHead(u: Config, visited: set<Bytes>, goods: seq<BucketFile>, i: nat)
    requires i < |goods| && CleanList(u, visited, goods[i..])
    ensures Clean(u, Run(visited, [], None), goods[i], i == |goods| - 1)
    ensures CleanList(u, StreamFrom(u.list, u.filters, Run(visited, [], None), goods[i], 0, i == |goods| - 1).visited,
                      goods[i + 1..])
  {
    hide StreamFrom;
    assert goods[i..][0] == goods[i] && goods[i..][1..] == goods[i + 1..];
    assert |goods[i..]| == 1 <==> i == |goods| - 1;
  }

  /** streamBucketList after its setup: the buckets in order, until one fails. None fails if the archive
      serves every bucket without errors and their records are in order. */
  method StreamBucketList(reader: CheckpointChangeReader, world: World, u: Config, hashes: seq<Bytes>,
                          ghost goods: seq<BucketFile>) returns (scripts: seq<Script>)
    requires SizedDecoder(u.decode) && Bounded(world) && reader.visited == {}
    modifies reader, reader.buffer, world
    ensures Streamed(u, hashes, scripts)
    ensures ServesAll(world, u, hashes, goods, old(world.opens)) && ListSized(goods)
            && StreamList(u.list, u.filters, EmptyRun, goods).error.None?
            ==> AllPass(scripts) && StreamedAs(u, hashes, scripts, goods)
  {
    scripts := [];
    ghost var visited: seq<set<Bytes>>, bs: seq<BucketFile> := [{}], [];
    ghost var fine := ServesAll(world, u, hashes, goods, world.opens) && ListSized(goods)
                      && StreamList(u.list, u.filters, EmptyRun, goods).error.None?;
    ghost var start := world.opens;
    NoBuckets(u, hashes);
    if fine { NoneYet(u, start, goods); }
    hide ServesAll, StreamList, Passed, Ahead, AllPass, Streamed, StreamedAs, ListSized;
    for i := 0 to |hashes|
      invariant Passed(u, hashes, visited, bs, scripts, i, reader.visited)
      invariant fine ==> Ahead(u, world.opens, start, reader.visited, goods, bs, i)
    {
      ghost var passed := scripts;
      var s, b := StreamNext(reader, world, u, hashes, i, goods, fine, start, visited, bs, scripts);
      scripts := scripts + [s];
      if s.verdict.Some? {
        OneFailed(u, hashes, passed, s);
        return;
      }
      bs, visited := bs + [b], visited + [reader.visited];
    }
    AllPassedStreamed(u, hashes, visited, bs, scripts, reader.visited);
    if fine { AllAhead(u, world.opens, start, reader.visited, goods, bs, hashes, world); }
  }

  /** The first `i` buckets were streamed and passed their checks, and left the marks `now`. */
  ghost predicate Passed(u: Config, hashes: seq<Bytes>, visited: seq<set<Bytes>>, bs: seq<BucketFile>,
                         scripts: seq<Script>, i: nat, now: set<Bytes>) {
    && |scripts| == |bs| == i <= |hashes| && |visited| == i + 1 && visited[i] == now && AllPass(scripts)
    && Chain(u, |hashes|, visited, bs, scripts)
    && (u.validate ==> forall k :: 0 <= k < i ==> Committed(u, hashes[k], bs[k]))
  }

  /** How far a good list has been streamed: `i` buckets, one opening each. */
  ghost predicate Ahead(u: Config, opens: nat, start: nat, visited: set<Bytes>, goods: seq<BucketFile>,
                        bs: seq<BucketFile>, i: nat) {
    i <= |goods| && opens == start + i && bs == goods[..i] && CleanList(u, visited, goods[i..])
  }

  lemma NoBuckets(u: Config, hashes: seq<Bytes>)
    ensures Passed(u, hashes, [{}], [], [], 0, {})
  {
  }

  lemma NoneYet(u: Config, start: nat, goods: seq<BucketFile>)
    requires ListSized(goods) && StreamList(u.list, u.filters, EmptyRun, goods).error.None?
    ensures Ahead(u, start, start, {}, goods, [], 0)
  {
    CleanIfStreamed(u, EmptyRun, goods);
    assert goods[0..] == goods && goods[..0] == [];
  }

  lemma OneFailed(u: Config, hashes: seq<Bytes>, passed: seq<Script>, s: Script)
    requires s.verdict.Some?
    ensures !AllPass(passed + [s]) && Streamed(u, hashes, passed + [s])
  {
    assert (passed + [s])[|passed|] == s;
  }

  lemma AllPassedStreamed(u: Config, hashes: seq<Bytes>, visited: seq<set<Bytes>>, bs: seq<BucketFile>,
                          scripts: seq<Script>, now: set<Bytes>)
    requires Passed(u, hashes, visited, bs, scripts, |hashes|, now)
    ensures StreamedAs(u, hashes, scripts, bs) && Streamed(u, hashes, scripts) && AllPass(scripts)
  {
    hide StreamFrom, Committed;
    ChainDescribes(u, visited, bs, scripts, 0);
    assert bs[0..] == bs && scripts[0..] == scripts;
  }

  lemma AllAhead(u: Config, opens: nat, start: nat, visited: set<Bytes>, goods: seq<BucketFile>, bs: seq<BucketFile>,
                 hashes: seq<Bytes>, world: World)
    requires Ahead(u, opens, start, visited, goods, bs, |hashes|) && ServesAll(world, u, hashes, goods, start)
    ensures bs == goods
  {
  }

  /** The loop body of streamBucketList. */
  method StreamNext(reader: CheckpointChangeReader, world: World, u: Config, hashes: seq<Bytes>, i: nat,
                    ghost goods: seq<BucketFile>, ghost fine: bool, ghost start: nat, ghost visited: seq<set<Bytes>>,
                    ghost bs: seq<BucketFile>, ghost scripts: seq<Script>) returns (s: Script, ghost b: BucketFile)
    requires SizedDecoder(u.decode) && Bounded(world) && i < |hashes|
    requires Passed(u, hashes, visited, bs, scripts, i, reader.visited)
    requires fine ==> ServesAll(world, u, hashes, goods, start) && ListSized(goods)
    requires fine ==> Ahead(u, world.opens, start, reader.visited, goods, bs, i)
    modifies reader, reader.buffer, world
    ensures s.verdict.None? ==>
              Passed(u, hashes, visited + [reader.visited], bs + [b], scripts + [s], i + 1, reader.visited)
    ensures fine ==> s.verdict.None? && Ahead(u, world.opens, start, reader.visited, goods, bs + [b], i + 1)
  {
    hide StreamFrom, Committed, ServesAt, CleanList, Clean, Chain;
    if fine { CleanHead(u, reader.visited, goods, i); }
    s, b := StreamBucket(reader, world, u, hashes[i], i == |hashes| - 1, if fine then goods[i] else []);
    if s.verdict.None? {
      ChainSnoc(u, |hashes|, visited, bs, scripts, reader.visited, b, s);
    }
    if fine { assert goods[..i + 1] == goods[..i] + [goods[i]]; }
  }

  /** Over every interleaving, and whatever the openings of the buckets served: with validation on, a
      consumer that reaches io.EOF has received exactly the replay of the committed buckets, each key
      once. `contents` are the committed buckets, the only bytes with their digests. */
  lemma EofDeliversCommitted(u: Config, contents: seq<Bytes>, bs: seq<BucketFile>, universe: set<LedgerKey>,
                             hashes: seq<Bytes>,
                             p: Plan, states: seq<State>, steps: seq<Action>, n: nat, i: nat)
    requires u.validate && |contents| == |bs| == |hashes|
    requires forall j :: 0 <= j < |bs| ==>
               u.digest(contents[j]) == hashes[j] && NoOther(u.digest, contents[j])
                   && Holds(u.decode, contents[j], bs[j])
    requires ListSized(bs) && Readable(u.list, bs) && Coherent(u.filters) && Separated(universe) && Within(bs, universe)
    requires u.list == Live ==> forall j, k :: 0 <= j < |bs| && u.filters.key(k) ==> RuleAt(bs, j, k)
    requires Streamed(u, hashes, p.buckets) && IsRun(p, states, steps) && n < |states|
    requires i < |states[n].calls| && states[n].calls[i].answer.EndOfFile?
    ensures Agrees(u.filters, Delivered(states[n].calls[..i]), bs)
  {
    hide Readable, Coherent, Separated, Within, Agrees, Describes, RuleAt, Holds, Committed, NoOther;
    EofMeansComplete(p, states, steps, n, i);
    assert AllPass(p.buckets);
    var served :| StreamedAs(u, hashes, p.buckets, served);
    forall j | 0 <= j < |bs| ensures served[j] == bs[j] {
      CommittedUnique(u, contents[j], bs[j], served[j]);
    }
    assert served == bs;
    EofDeliversReplay(u.list, u.filters, bs, universe, p, states, steps, n, i);
  }

  // ---------------------------------------------------------------- the ledger header

  /** One level of a bucket list in an archive state: two bucket hashes, all zero for no bucket. */
  datatype Level = Level(curr: Bytes, snap: Bytes)

  /** The part of HistoryArchiveState that the header commits to. */
  datatype ArchiveState = ArchiveState(protocol23: bool, live: seq<Level>, hot: seq<Level>)

  /** The digests of the levels, end to end. */
  function LevelDigests(digest: Bytes -> Bytes, ls: seq<Level>): (b: Bytes) {
    if ls == [] then []
    else LevelDigests(digest, ls[..|ls| - 1]) + digest(ls[|ls| - 1].curr + ls[|ls| - 1].snap)
  }

  /** BucketList.Hash. */
  function ListHash(digest: Bytes -> Bytes, ls: seq<Level>): (h: Bytes) {
    digest(LevelDigests(digest, ls))
  }

  /** HistoryArchiveState.BucketListHash. */
  function BucketListHash(digest: Bytes -> Bytes, has: ArchiveState): (h: Bytes) {
    if has.protocol23 then digest(ListHash(digest, has.live) + ListHash(digest, has.hot))
    else ListHash(digest, has.live)
  }

  /** VerifyBucketList. */
  method VerifyBucketList(digest: Bytes -> Bytes, has: ArchiveState, expected: Bytes) returns (ok: bool)
    ensures ok <==> BucketListHash(digest, has) == expected
  {
    var live := HashLevels(digest, has.live);
    if !has.protocol23 {
      return live == expected;
    }
    var hot := HashLevels(digest, has.hot);
    ok := digest(live + hot) == expected;
  }

  method HashLevels(digest: Bytes -> Bytes, ls: seq<Level>) returns (h: Bytes)
    ensures h == ListHash(digest, ls)
  {
    var total: Bytes := [];
    for i := 0 to |ls|
      invariant total == LevelDigests(digest, ls[..i])
    {
      assert ls[..i + 1][..i] == ls[..i];
      total := total + digest(ls[i].curr + ls[i].snap);
    }
    assert ls[..|ls|] == ls;
    h := digest(total);
  }

  /** The buckets streamBucketList reads: curr then snap of each level, without the all-zero hashes. */
  function BucketsOf(ls: seq<Level>): (hashes: seq<Bytes>) {
    if ls == [] then []
    else
      var l := ls[|ls| - 1];
      BucketsOf(ls[..|ls| - 1]) + OneBucket(l.curr) + OneBucket(l.snap)
  }

  function OneBucket(h: Bytes): (hashes: seq<Bytes>) {
    if h == Zeros(32) then [] else [h]
  }

  /** The first loop of streamBucketList. */
  method CollectBuckets(ls: seq<Level>) returns (buckets: seq<Bytes>)
    ensures buckets == BucketsOf(ls)
  {
    buckets := [];
    for i := 0 to |ls|
      invariant buckets == BucketsOf(ls[..i])
    {
      ghost var before := buckets;
      var pair := [ls[i].curr, ls[i].snap];
      for j := 0 to 2
        invariant j == 0 ==> buckets == before
        invariant j > 0 ==> buckets == before + OneBucket(pair[0]) + if j == 1 then [] else OneBucket(pair[1])
      {
        if pair[j] != Zeros(32) { buckets := buckets + [pair[j]]; }
      }
      assert ls[..i + 1][..i] == ls[..i];
    }
    assert ls[..|ls|] == ls;
  }

  /** The places for a bucket in a list, from the newest to the oldest. */
  function Slots(ls: seq<Level>): (slots: seq<Bytes>)
    ensures |slots| == 2 * |ls|
    ensures forall i :: 0 <= i < |ls| ==> slots[2 * i] == ls[i].curr && slots[2 * i + 1] == ls[i].snap
  {
    if ls == [] then [] else Slots(ls[..|ls| - 1]) + [ls[|ls| - 1].curr] + [ls[|ls| - 1].snap]
  }

  /** `at` are the places that hold a bucket, in order. */
  ghost predicate Filled(slots: seq<Bytes>, at: seq<nat>) {
    && (forall j :: 0 <= j < |at| ==> at[j] < |slots| && slots[at[j]] != Zeros(32))
    && Increasing(at)
    && forall m :: 0 <= m < |slots| && slots[m] != Zeros(32) ==> m in at
  }

  /** The hashes in the filled places. */
  ghost predicate HashesAt(slots: seq<Bytes>, at: seq<nat>, hashes: seq<Bytes>) {
    |hashes| == |at| && forall j :: 0 <= j < |at| ==> at[j] < |slots| && hashes[j] == slots[at[j]]
  }

  ghost predicate Increasing(at: seq<nat>) {
    forall i, j :: 0 <= i < j < |at| ==> at[i] < at[j]
  }

  /** Dropping the last of an increasing sequence drops its greatest member and no other. */
  lemma AllButGreatest(a: seq<nat>, m: nat)
    requires a != [] && Increasing(a)
    ensures Increasing(a[..|a| - 1])
    ensures m in a ==> m <= a[|a| - 1]
    ensures m in a[..|a| - 1] <==> m in a && m != a[|a| - 1]
  {
    assert a == a[..|a| - 1] + [a[|a| - 1]];
  }

  lemma Memberless(a: seq<nat>)
    ensures a == [] <==> forall m :: m !in a
  {
    if a != [] { assert a[0] in a; }
  }

  /** Increasing sequences with the same members are equal. */
  lemma {:induction false} SameIncreasing(a: seq<nat>, b: seq<nat>)
    requires Increasing(a) && Increasing(b)
    requires forall m :: m in a <==> m in b
    ensures a == b
  {
    hide Increasing;
    if a == [] {
      Memberless(b);
    } else if b == [] {
      Memberless(a);
    } else {
      var x, y := a[|a| - 1], b[|b| - 1];
      assert x in a && y in b;
      AllButGreatest(a, y);
      AllButGreatest(b, x);
      var a', b' := a[..|a| - 1], b[..|b| - 1];
      forall m: nat ensures m in a' <==> m in b' {
        AllButGreatest(a, m);
        AllButGreatest(b, m);
      }
      SameIncreasing(a', b');
      assert a == a' + [x] && b == b' + [y];
    }
  }

  /** The buckets of a list are those in its filled places, from the newest to the oldest. */
  lemma BucketsAreSlots(ls: seq<Level>, at: seq<nat>)
    requires Filled(Slots(ls), at)
    ensures HashesAt(Slots(ls), at, BucketsOf(ls))
  {
    hide BucketsOf;
    var places := FilledPlaces(ls);
    forall m: nat ensures m in places <==> m in at {
      assert m in places ==> m < |Slots(ls)| && Slots(ls)[m] != Zeros(32);
    }
    SameIncreasing(places, at);
  }

  lemma {:induction false} FilledPlaces(ls: seq<Level>) returns (at: seq<nat>)
    ensures Filled(Slots(ls), at) && HashesAt(Slots(ls), at, BucketsOf(ls))
  {
    if ls == [] {
      at := [];
    } else {
      var n := |ls| - 1;
      var before := FilledPlaces(ls[..n]);
      hide Filled, HashesAt;
      var mid := OnePlace(Slots(ls[..n]), before, BucketsOf(ls[..n]), ls[n].curr);
      at := OnePlace(Slots(ls[..n]) + [ls[n].curr], mid, BucketsOf(ls[..n]) + OneBucket(ls[n].curr), ls[n].snap);
    }
  }

  lemma NoPlaces(slots: seq<Bytes>)
    requires slots == []
    ensures Filled(slots, []) && HashesAt(slots, [], [])
  {
  }

  lemma OnePlace(slots: seq<Bytes>, before: seq<nat>, hashes: seq<Bytes>, h: Bytes) returns (at: seq<nat>)
    requires Filled(slots, before) && HashesAt(slots, before, hashes)
    ensures Filled(slots + [h], at)
    ensures HashesAt(slots + [h], at, hashes + OneBucket(h))
  {
    at := before + if h == Zeros(32) then [] else [|slots|];
    forall m | 0 <= m < |slots + [h]| && (slots + [h])[m] != Zeros(32) ensures m in at {
      if m < |slots| { assert m in before; } else { assert at[|before|] == m; }
    }
  }

  predicate Wide(ls: seq<Level>) {
    forall i :: 0 <= i < |ls| ==> |ls[i].curr| == |ls[i].snap| == 32
  }

  ghost predicate IsDigest(digest: Bytes -> Bytes) {
    forall b :: |digest(b)| == 32
  }

  /** Nothing else hashes to a list or to one of its levels. */
  ghost predicate Bound(digest: Bytes -> Bytes, ls: seq<Level>) {
    && NoOther(digest, LevelDigests(digest, ls))
    && forall i :: 0 <= i < |ls| ==> NoOther(digest, ls[i].curr + ls[i].snap)
  }

  lemma {:induction false} LevelDigestsLength(digest: Bytes -> Bytes, ls: seq<Level>)
    requires IsDigest(digest)
    ensures |LevelDigests(digest, ls)| == 32 * |ls|
  {
    if ls != [] { LevelDigestsLength(digest, ls[..|ls| - 1]); }
  }

  /** The list's hash covers the levels in order, and of each level curr before snap. */
  lemma {:induction false} LevelDigestAt(digest: Bytes -> Bytes, ls: seq<Level>, i: nat)
    requires IsDigest(digest) && i < |ls|
    ensures |LevelDigests(digest, ls)| == 32 * |ls|
    ensures LevelDigests(digest, ls)[32 * i..32 * i + 32] == digest(ls[i].curr + ls[i].snap)
    decreases |ls|
  {
    LevelDigestsLength(digest, ls);
    var n := |ls| - 1;
    LevelDigestsLength(digest, ls[..n]);
    if i < n { LevelDigestAt(digest, ls[..n], i); }
  }

  /** From protocol 23 on the hash is itself a digest over the two lists' hashes, the live list's first. */
  lemma HashWidth(digest: Bytes -> Bytes, has: ArchiveState)
    requires IsDigest(digest)
    ensures |BucketListHash(digest, has)| == 32
    ensures has.protocol23 ==>
              exists both: Bytes :: && digest(both) == BucketListHash(digest, has) && |both| == 64
                                    && both[..32] == digest(LevelDigests(digest, has.live))
                                    && both[32..] == digest(LevelDigests(digest, has.hot))
  {
    var a, b := ListHash(digest, has.live), ListHash(digest, has.hot);
    SplitAt(a, b);
    assert has.protocol23 ==> digest(a + b) == BucketListHash(digest, has);
  }

  /** The level digests determine the levels. */
  lemma {:induction false} LevelsDetermined(digest: Bytes -> Bytes, ls: seq<Level>, ms: seq<Level>)
    requires IsDigest(digest) && Wide(ls) && Wide(ms)
    requires forall i :: 0 <= i < |ms| ==> NoOther(digest, ms[i].curr + ms[i].snap)
    requires LevelDigests(digest, ls) == LevelDigests(digest, ms)
    ensures ls == ms
    decreases |ms|
  {
    LevelDigestsLength(digest, ls);
    LevelDigestsLength(digest, ms);
    if ms != [] {
      var l, m, n := ls[|ls| - 1], ms[|ms| - 1], |ms| - 1;
      LevelDigestsLength(digest, ls[..n]);
      LevelDigestsLength(digest, ms[..n]);
      ConcatCancel(LevelDigests(digest, ls[..n]), digest(l.curr + l.snap), LevelDigests(digest, ms[..n]),
          digest(m.curr + m.snap));
      assert l.curr + l.snap == m.curr + m.snap;
      ConcatCancel(l.curr, l.snap, m.curr, m.snap);
      LevelsDetermined(digest, ls[..n], ms[..n]);
      assert ls == ls[..n] + [l] && ms == ms[..n] + [m];
    }
  }

  lemma ListDetermined(digest: Bytes -> Bytes, ls: seq<Level>, ms: seq<Level>)
    requires IsDigest(digest) && Wide(ls) && Wide(ms) && Bound(digest, ms)
    requires ListHash(digest, ls) == ListHash(digest, ms)
    ensures ls == ms
  {
    LevelsDetermined(digest, ls, ms);
  }

  /** A trusted bucket list hash determines the bucket hashes of both lists. The protocol flag is not
      hashed; what keeps it from being confused is that a live list does not have two levels. */
  lemma HeaderDetermines(digest: Bytes -> Bytes, has: ArchiveState, truth: ArchiveState)
    requires IsDigest(digest) && Wide(has.live) && Wide(truth.live) && Wide(has.hot) && Wide(truth.hot)
    requires Bound(digest, truth.live) && |truth.live| != 2
    requires truth.protocol23 ==> Bound(digest, truth.hot)
    requires truth.protocol23 ==> NoOther(digest, ListHash(digest, truth.live) + ListHash(digest, truth.hot))
    requires BucketListHash(digest, has) == BucketListHash(digest, truth)
    ensures has.protocol23 == truth.protocol23 && has.live == truth.live && (truth.protocol23 ==> has.hot == truth.hot)
  {
    LevelDigestsLength(digest, truth.live);
    LevelDigestsLength(digest, has.live);
    var a, b, c, d := ListHash(digest, has.live), ListHash(digest, has.hot), ListHash(digest, truth.live),
        ListHash(digest, truth.hot);
    assert |a| == |b| == |c| == |d| == 32;
    if has.protocol23 && truth.protocol23 {
      ConcatCancel(a, b, c, d);
      ListDetermined(digest, has.live, truth.live);
      ListDetermined(digest, has.hot, truth.hot);
    } else if !has.protocol23 && !truth.protocol23 {
      ListDetermined(digest, has.live, truth.live);
    } else if has.protocol23 {
    } else {
      OnlyTwoLevels(digest, has.live, truth, c + d);
    }
  }

  /** An older state that hashes like a newer one has two levels, of which the first is the preimage
      of the newer live list. */
  lemma OnlyTwoLevels(digest: Bytes -> Bytes, ls: seq<Level>, truth: ArchiveState, top: Bytes)
    requires IsDigest(digest) && Wide(ls) && Bound(digest, truth.live)
    requires top == ListHash(digest, truth.live) + ListHash(digest, truth.hot) && LevelDigests(digest, ls) == top
    ensures |truth.live| == 2
  {
    LevelDigestsLength(digest, ls);
    LevelDigestsLength(digest, truth.live);
    var first := ls[..1];
    assert ls[..|ls| - 1] == first && first[..0] == [];
    assert LevelDigests(digest, first) == [] + digest(ls[0].curr + ls[0].snap);
    ConcatCancel(LevelDigests(digest, first), digest(ls[1].curr + ls[1].snap), ListHash(digest, truth.live),
        ListHash(digest, truth.hot));
    assert digest(ls[0].curr + ls[0].snap) == digest(LevelDigests(digest, truth.live));
    assert ls[0].curr + ls[0].snap == LevelDigests(digest, truth.live);
  }

  function ListOf(u: Config, has: ArchiveState): (ls: seq<Level>) {
    if u.list == Live then has.live else has.hot
  }

  /** What VerifyBucketList promises: if the bucket list hash of the archive's state is the one a
      trusted header commits to, a consumer that reaches io.EOF has the state of the committed
      bucket list, whatever the archive serves. `truth` is what the header was made from, `contents`
      its buckets from curr of level 0, the newest, to snap of the last level, the oldest, `at` the
      places that hold one. */
  lemma TrustedHeader(u: Config, has: ArchiveState, truth: ArchiveState, at: seq<nat>, contents: seq<Bytes>,
                      bs: seq<BucketFile>, universe: set<LedgerKey>, p: Plan, states: seq<State>, steps: seq<Action>,
                      n: nat, i: nat)
    requires IsDigest(u.digest) && Wide(has.live) && Wide(truth.live) && Wide(has.hot) && Wide(truth.hot)
    requires Bound(u.digest, truth.live) && |truth.live| != 2
    requires truth.protocol23 ==> Bound(u.digest, truth.hot)
    requires truth.protocol23 ==> NoOther(u.digest, ListHash(u.digest, truth.live) + ListHash(u.digest, truth.hot))
    requires BucketListHash(u.digest, has) == BucketListHash(u.digest, truth)
    requires u.validate && (u.list == HotArchive ==> truth.protocol23)
    requires Filled(Slots(ListOf(u, truth)), at) && |contents| == |bs| == |at|
    requires forall j :: 0 <= j < |bs| ==>
               && u.digest(contents[j]) == Slots(ListOf(u, truth))[at[j]]
               && NoOther(u.digest, contents[j]) && Holds(u.decode, contents[j], bs[j])
    requires ListSized(bs) && Readable(u.list, bs) && Coherent(u.filters) && Separated(universe) && Within(bs, universe)
    requires u.list == Live ==> forall j, k :: 0 <= j < |bs| && u.filters.key(k) ==> RuleAt(bs, j, k)
    requires Streamed(u, BucketsOf(ListOf(u, has)), p.buckets) && IsRun(p, states, steps) && n < |states|
    requires i < |states[n].calls| && states[n].calls[i].answer.EndOfFile?
    ensures Agrees(u.filters, Delivered(states[n].calls[..i]), bs)
  {
    hide Bound, NoOther, Readable, Coherent, Separated, Within, Agrees, RuleAt, Holds, Streamed, IsRun,
        BucketListHash, BucketsOf, Filled;
    HeaderDetermines(u.digest, has, truth);
    BucketsAreSlots(ListOf(u, truth), at);
    EofDeliversCommitted(u, contents, bs, universe, BucketsOf(ListOf(u, truth)), p, states, steps, n, i);
  }
}
