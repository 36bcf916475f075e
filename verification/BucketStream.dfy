/** Reading a bucket as a stream of framed XDR records, with the running hash and the retry
    protocol that splices hash states when a bucket has to be reopened.

    The hash state is the byte string absorbed so far; SHA-256 is any function of it. */
module BucketStream {
  import opened Common

  /** What one opening of a bucket serves: its bytes, the offset at which reads fail, how many bytes a
      read after Close still delivers before it ends (None when it fails), and whether Close fails. */
  datatype Source = Source(content: Bytes, failAt: Option<nat>, afterClose: Option<nat>, closeFails: bool) {
    /** Bytes that can be delivered before the end or the failure. */
    function Limit(): (n: nat)
      ensures n <= |content|
    {
      if failAt.Some? && failAt.value < |content| then failAt.value else |content|
    }
    /** The source ends in a read error rather than in a clean end of file. */
    predicate Breaks() {
      failAt.Some? && failAt.value <= |content|
    }
    /** io.Copy of the rest, from offset `pos` on: the bytes delivered, None when the copy fails. */
    function Drain(pos: nat, closed: bool): (rest: Option<Bytes>)
      requires pos <= Limit()
      ensures rest.Some? ==> pos + |rest.value| <= Limit() && rest.value == content[pos..pos + |rest.value|]
    {
      if closed then
        if afterClose.None? then None
        else Some(content[pos..if pos + afterClose.value <= Limit() then pos + afterClose.value else Limit()])
      else if Breaks() then None
      else Some(content[pos..Limit()])
    }
  }

  /** One call of GetXdrStreamForHash. */
  datatype Opening = Refused | Opened(source: Source)

  /** The result of reading one record; a record keeps the payload it was decoded from. */
  datatype Outcome<T> = Record(value: T, payload: Bytes) | Eof | Failed

  /** DecodeBytes: the value and how many bytes it took, or an error. */
  type Decoder<!T> = Bytes -> Option<(T, nat)>

  const MAX_RECORD: int := 0x400_0000
  const MAX_RETRIES: int := 3
  const LAST_FRAGMENT: int := 0x8000_0000

  /** A record on the wire: the length word with the last-fragment bit, then the payload. */
  function Frame(payload: Bytes): (b: Bytes)
    requires |payload| < LAST_FRAGMENT
    ensures |b| == 4 + |payload|
  {
    PutU32(LAST_FRAGMENT + |payload|) + payload
  }

  /** The length word: the last-fragment bit over a length of 31 bits (section 11 of RFC 5531). */
  lemma FrameHeader(payload: Bytes)
    requires |payload| < LAST_FRAGMENT
    ensures |payload| < 0x8000_0000 && GetU32(Frame(payload)) == 0x8000_0000 + |payload|
    ensures Frame(payload)[4..] == payload
  {
    PutGetU32(LAST_FRAGMENT + |payload|, payload);
  }

  /** Stream.ReadOne as a function of the source and the offset: the outcome and the new offset. */
  function ReadFrame<T>(decode: Decoder<T>, src: Source, pos: nat): (r: (Outcome<T>, nat))
    requires pos <= src.Limit()
    ensures pos <= r.1 <= src.Limit()
  {
    var limit := src.Limit();
    if limit - pos < 4 then
      if pos == limit && !src.Breaks() then (Eof, pos) else (Failed, limit)
    else
      var w := GetU32(src.content[pos..]);
      if w < LAST_FRAGMENT then (Failed, pos + 4)
      else
        var n := w - LAST_FRAGMENT;
        if n == 0 then (Eof, pos + 4)
        else if n > MAX_RECORD then (Failed, pos + 4)
        else if limit - (pos + 4) < n then (Failed, limit)
        else
          var payload := src.content[pos + 4..pos + 4 + n];
          var d := decode(payload);
          (if d.Some? && d.value.1 == n then Record(d.value.0, payload) else Failed, pos + 4 + n)
  }

  /** A record read at `pos` is exactly the frame that stands there. */
  lemma RecordIsFrame<T>(decode: Decoder<T>, src: Source, pos: nat)
    requires pos <= src.Limit()
    ensures var r := ReadFrame(decode, src, pos);
            r.0.Record? ==>
              && 0 < |r.0.payload| <= 0x400_0000
              && decode(r.0.payload) == Some((r.0.value, |r.0.payload|))
              && src.content[pos..r.1] == Frame(r.0.payload)
    ensures var r := ReadFrame(decode, src, pos);
            r.0.Eof? ==>
              || (r.1 == pos == |src.content|)
              || src.content[pos..r.1] == Frame([])
  {
    var r := ReadFrame(decode, src, pos);
    if src.Limit() - pos >= 4 {
      var tail := src.content[pos..];
      GetPutU32(tail);
      var n := GetU32(tail) - LAST_FRAGMENT;
      assert tail[..4] == src.content[pos..pos + 4];
      if r.0.Record? {
        assert src.content[pos..r.1] == src.content[pos..pos + 4] + src.content[pos + 4..r.1];
      } else if r.0.Eof? {
        assert src.content[pos..r.1] == src.content[pos..pos + 4] + [];
      }
    }
  }

  /** The archive and the context, as far as a bucket reader meets them: what each opening will
      serve and what each look at the context will say. Both are arbitrary. */
  class World {
    const openings: nat -> Opening
    const ctxDone: nat -> bool
    var opens: nat
    var polled: nat

    constructor (openings: nat -> Opening, ctxDone: nat -> bool)
      ensures this.openings == openings && this.ctxDone == ctxDone && opens == 0 && polled == 0
    {
      this.openings, this.ctxDone := openings, ctxDone;
      opens, polled := 0, 0;
    }

    method Open() returns (o: Opening)
      modifies this`opens
      ensures o == openings(old(opens)) && opens == old(opens) + 1
    {
      o := openings(opens);
      opens := opens + 1;
    }

    method Done() returns (d: bool)
      modifies this`polled
      ensures d == ctxDone(old(polled)) && polled == old(polled) + 1
    {
      d := ctxDone(polled);
      polled := polled + 1;
    }
  }

  class Stream {
    var source: Source
    var pos: nat
    var hash: Bytes
    var boundaryOffset: nat
    var boundaryState: Bytes
    var closed: bool

    /** The offset is the number of bytes hashed, at the cursor and at the last boundary. */
    ghost predicate Valid()
      reads this
    {
      pos <= source.Limit() && |hash| == pos && |boundaryState| == boundaryOffset
    }

    /** NewStream. */
    constructor (source: Source)
      ensures Valid() && !closed && this.source == source && pos == 0 && hash == [] && boundaryState == []
    {
      this.source := source;
      pos, hash, boundaryOffset, boundaryState, closed := 0, [], 0, [], false;
    }

    method Close()
      modifies this`closed
      ensures closed
    {
      closed := true;
    }

    /** ReadOne: remember the boundary, then read through the hash. Every way to stop short of a
        record, and the end of file, closes the stream or leaves it to the caller to close. */
    method ReadOne<T>(decode: Decoder<T>) returns (r: Outcome<T>)
      requires Valid()
      modifies this
      ensures Valid() && source == old(source)
      ensures boundaryOffset == old(pos) && boundaryState == old(hash)
      ensures (r, pos) == ReadFrame(decode, source, old(pos))
      ensures hash == old(hash) + source.content[old(pos)..pos]
      ensures r.Record? ==> closed == old(closed)
      ensures !r.Record? ==> closed
    {
      boundaryOffset, boundaryState := pos, hash;
      var read := ReadFrame(decode, source, pos);
      hash := hash + source.content[pos..read.1];
      pos := read.1;
      r := read.0;
      if !r.Record? {
        Close();
      }
    }

    /** ResumeFrom: skip to the failed record and continue the failed stream's hash from there. */
    method ResumeFrom(prev: Stream) returns (ok: bool)
      requires Valid() && prev.Valid() && prev != this && pos == 0
      modifies this
      ensures Valid() && source == old(source) && closed == old(closed)
      ensures ok == (prev.boundaryOffset <= source.Limit())
      ensures ok ==> pos == prev.boundaryOffset && hash == prev.boundaryState
    {
      if prev.boundaryOffset > source.Limit() {
        hash := hash + source.content[pos..source.Limit()];
        pos := source.Limit();
        return false;
      }
      pos := prev.boundaryOffset;
      hash := prev.boundaryState;
      ok := true;
    }

    /** `*stream = *retryStream`. */
    method Become(other: Stream)
      requires other.Valid()
      modifies this
      ensures Valid() && source == other.source && pos == other.pos && hash == other.hash
      ensures boundaryOffset == other.boundaryOffset && boundaryState == other.boundaryState && closed == other.closed
    {
      source, pos, hash := other.source, other.pos, other.hash;
      boundaryOffset, boundaryState, closed := other.boundaryOffset, other.boundaryState, other.closed;
    }

    /** ValidateHash: absorb what is left, open or closed, and compare the digest of everything. */
    method ValidateHash(digest: Bytes -> Bytes, expected: Bytes) returns (ok: bool)
      requires Valid()
      modifies this`hash, this`pos
      ensures Valid() && old(pos) <= pos
      ensures hash == old(hash) + source.content[old(pos)..pos]
      ensures ok <==> source.Drain(old(pos), closed).Some? && digest(hash) == expected
      ensures source.Drain(old(pos), closed).Some? ==> pos == old(pos) + |source.Drain(old(pos), closed).value|
    {
      var drained := source.Drain(pos, closed);
      if drained.None? {
        assert hash + source.content[pos..pos] == hash;
        return false;
      }
      hash := hash + drained.value;
      pos := pos + |drained.value|;
      ok := digest(hash) == expected;
    }
  }

  /** Every opening that serves anything serves the bytes `c`. */
  ghost predicate AllServe(w: World, c: Bytes) {
    forall i: nat :: w.openings(i).Opened? ==> w.openings(i).source.content == c
  }

  /** Every opening serves at most as many bytes as an int64 offset can count. */
  ghost predicate Bounded(w: World) {
    forall i: nat :: w.openings(i).Opened? ==> |w.openings(i).source.content| <= MAX_INT64
  }

  ghost predicate NeverDone(w: World) {
    forall i: nat :: !w.ctxDone(i)
  }

  /** What a reopening gives that has to go on at offset `pos`: nothing if it is refused or breaks off
      before, and the frame there otherwise. */
  function Served<T>(decode: Decoder<T>, o: Opening, pos: nat): (r: Outcome<T>) {
    if o.Opened? && pos <= o.source.Limit() then ReadFrame(decode, o.source, pos).0 else Failed
  }

  /** The openings from `at` to `end` give nothing for offset `pos`. */
  ghost predicate NothingServed<T>(world: World, decode: Decoder<T>, pos: nat, at: nat, end: nat) {
    forall i: nat :: at <= i < end ==> Served(decode, world.openings(i), pos).Failed?
  }

  /** The outcome of retrying from opening `at` on: that of the first of three reopenings that gives
      anything, or a failure after all three. */
  ghost predicate RetriedWell<T>(world: World, decode: Decoder<T>, pos: nat, at: nat, r: Outcome<T>, opens: nat) {
    if r.Failed? then opens == at + 3 && NothingServed(world, decode, pos, at, opens)
    else
      && at < opens <= at + 3 && NothingServed(world, decode, pos, at, opens - 1)
      && r == Served(decode, world.openings(opens - 1), pos)
  }

  /** Before attempt number `attempts`: after a failure all openings so far gave nothing, and otherwise all
      but the last one, whose source `src` is to be read next. */
  ghost predicate Retrying<T>(world: World, decode: Decoder<T>, pos: nat, at: nat, src: Source, err: bool, opens: nat) {
    && at <= opens
    && (err || opens == at ==> NothingServed(world, decode, pos, at, opens))
    && (!err && opens > at ==>
          NothingServed(world, decode, pos, at, opens - 1) && world.openings(opens - 1) == Opened(src))
  }

  lemma NothingYet<T>(world: World, decode: Decoder<T>, pos: nat, at: nat, src: Source)
    ensures Retrying(world, decode, pos, at, src, false, at)
  {
  }

  /** A read that fails makes the last opening one more that gave nothing; one that does not is the answer. */
  lemma ReadTried<T>(world: World, decode: Decoder<T>, pos: nat, at: nat, src: Source, opens: nat, r: Outcome<T>)
    requires Retrying(world, decode, pos, at, src, false, opens) && pos <= src.Limit()
    requires r == ReadFrame(decode, src, pos).0
    ensures r.Failed? ==> Retrying(world, decode, pos, at, src, true, opens)
    ensures !r.Failed? && at < opens <= at + 3 ==> RetriedWell(world, decode, pos, at, r, opens)
  {
  }

  /** So does a reopening that cannot go on. */
  lemma OpenTried<T>(world: World, decode: Decoder<T>, pos: nat, at: nat, src: Source, opens: nat, src': Source,
                     ok: bool)
    requires Retrying(world, decode, pos, at, src, true, opens)
    requires var o := world.openings(opens);
             ok == (o.Opened? && pos <= o.source.Limit()) && (ok ==> o == Opened(src'))
    ensures Retrying(world, decode, pos, at, src', !ok, opens + 1)
  {
  }

  lemma AllTried<T>(world: World, decode: Decoder<T>, pos: nat, at: nat, src: Source, r: Outcome<T>)
    requires Retrying(world, decode, pos, at, src, true, at + 3) && r.Failed?
    ensures RetriedWell(world, decode, pos, at, r, at + 3)
  {
  }

  /** readBucketRecord. On success the hash has grown by exactly the frame of the record returned;
      at the end of file by nothing, or by the empty frame that ended the bucket. This holds
      whatever the reopened streams serve. If they all serve the same bytes, the hash is the
      prefix of those bytes up to the cursor. At most MAX_RETRIES reopenings are made. A read that would not fail is
      not retried, and one that fails is answered by the first of three reopenings that has an answer. */
  method ReadBucketRecord<T>(world: World, stream: Stream, decode: Decoder<T>, ghost c: Bytes) returns (r: Outcome<T>)
    requires stream.Valid()
    modifies world, stream
    ensures stream.Valid()
    ensures old(world.opens) <= world.opens <= old(world.opens) + MAX_RETRIES
    ensures r.Record? ==>
              && 0 < |r.payload| <= MAX_RECORD && decode(r.payload) == Some((r.value, |r.payload|))
              && stream.hash == old(stream.hash) + Frame(r.payload)
    ensures r.Eof? ==>
              || (stream.hash == old(stream.hash) && stream.pos == |stream.source.content|)
              || stream.hash == old(stream.hash) + Frame([])
    ensures AllServe(world, c) && old(stream.source.content == c && stream.hash <= c) ==>
              stream.source.content == c && (!r.Failed? ==> stream.hash <= c)
    ensures r.Eof? ==> stream.closed
    ensures Bounded(world) && old(|stream.source.content|) <= MAX_INT64 ==> |stream.source.content| <= MAX_INT64
    ensures NeverDone(world) && !ReadFrame(decode, old(stream.source), old(stream.pos)).0.Failed? ==>
              && stream.source == old(stream.source)
              && (r, stream.pos) == ReadFrame(decode, stream.source, old(stream.pos))
              && stream.hash == old(stream.hash) + stream.source.content[old(stream.pos)..stream.pos]
              && world.opens == old(world.opens)
    ensures NeverDone(world) && ReadFrame(decode, old(stream.source), old(stream.pos)).0.Failed? ==>
              RetriedWell(world, decode, old(stream.pos), old(world.opens), r, world.opens)
  {
    ghost var start, first := stream.hash, ReadFrame(decode, stream.source, stream.pos);
    ghost var pos, at := stream.pos, world.opens;
    var attempts := 0;
    var err := false;
    r := Failed;
    NothingYet(world, decode, pos, at, stream.source);
    hide Retrying, RetriedWell;
    while true
      invariant stream.Valid() && 0 <= attempts <= MAX_RETRIES
      invariant if err then stream.boundaryState == start else stream.hash == start
      invariant world.opens == at + attempts
      invariant if err then stream.boundaryOffset == pos else stream.pos == pos
      invariant Retrying(world, decode, pos, at, stream.source, err, world.opens)
      invariant AllServe(world, c) && old(stream.source.content == c && stream.hash <= c) ==> stream.source.content == c
      invariant Bounded(world) && old(|stream.source.content|) <= MAX_INT64 ==> |stream.source.content| <= MAX_INT64
      invariant !err && attempts == 0 ==> stream.source == old(stream.source) && stream.pos == old(stream.pos)
      invariant err || attempts > 0 ==> first.0.Failed?
      decreases MAX_RETRIES - attempts
    {
      hide ReadFrame, Frame;
      var done := world.Done();
      if done {
        return Failed;
      }
      if !err {
        r := ReadAtBoundary(stream, decode, c);
        ReadTried(world, decode, pos, at, stream.source, world.opens, r);
        if !r.Failed? {
          return;
        }
        err := true;
      }
      if attempts >= MAX_RETRIES {
        AllTried(world, decode, pos, at, stream.source, Outcome<T>.Failed);
        return Failed;
      }
      ghost var tried := stream.source;
      var ok := Reopen(world, stream, c);
      OpenTried(world, decode, pos, at, tried, world.opens - 1, stream.source, ok);
      attempts := attempts + 1;
      if ok { err := false; }
    }
  }

  /** One ReadOne at the boundary: what it absorbs is the frame it returns. */
  method ReadAtBoundary<T>(stream: Stream, decode: Decoder<T>, ghost c: Bytes) returns (r: Outcome<T>)
    requires stream.Valid()
    modifies stream
    ensures stream.Valid() && stream.source == old(stream.source)
    ensures stream.boundaryState == old(stream.hash) && stream.boundaryOffset == old(stream.pos)
    ensures (r, stream.pos) == ReadFrame(decode, stream.source, old(stream.pos))
    ensures stream.hash == old(stream.hash) + stream.source.content[old(stream.pos)..stream.pos]
    ensures r.Record? ==>
              && 0 < |r.payload| <= MAX_RECORD && decode(r.payload) == Some((r.value, |r.payload|))
              && stream.hash == old(stream.hash) + Frame(r.payload)
    ensures r.Eof? ==>
              && stream.closed
              && ((stream.hash == old(stream.hash) && stream.pos == |stream.source.content|)
                  || stream.hash == old(stream.hash) + Frame([]))
    ensures stream.source.content == c && old(stream.hash) <= c && !r.Failed? ==> stream.hash <= c
  {
    ghost var pos, hash := stream.pos, stream.hash;
    r := stream.ReadOne(decode);
    RecordIsFrame(decode, stream.source, pos);
    PrefixGrows(c, hash, stream.source.content, pos, stream.pos);
    assert stream.source.content[pos..pos] == [];
  }

  /** Close the stream, open the bucket again, and splice. On failure the stream keeps its boundary. */
  method Reopen(world: World, stream: Stream, ghost c: Bytes) returns (ok: bool)
    requires stream.Valid()
    modifies world`opens, stream
    ensures stream.Valid() && world.opens == old(world.opens) + 1
    ensures var o := world.openings(old(world.opens));
            ok == (o.Opened? && old(stream.boundaryOffset) <= o.source.Limit()) && (ok ==> o == Opened(stream.source))
    ensures ok ==> stream.hash == old(stream.boundaryState) && stream.pos == old(stream.boundaryOffset)
    ensures !ok ==>
              stream.boundaryState == old(stream.boundaryState) && stream.boundaryOffset == old(stream.boundaryOffset)
    ensures AllServe(world, c) && old(stream.source.content) == c ==> stream.source.content == c
    ensures Bounded(world) && old(|stream.source.content|) <= MAX_INT64 ==> |stream.source.content| <= MAX_INT64
  {
    stream.Close();
    var o := world.Open();
    if o.Refused? {
      return false;
    }
    var retry := new Stream(o.source);
    ok := retry.ResumeFrom(stream);
    if !ok {
      retry.Close();
      return;
    }
    stream.Become(retry);
  }

  lemma PrefixGrows(c: Bytes, hash: Bytes, content: Bytes, i: nat, j: nat)
    requires i <= j <= |content| && |hash| == i
    ensures content == c && hash <= c ==> hash + content[i..j] <= c
  {
    if content == c && hash <= c {
      assert hash == c[..i] && c[..i] + c[i..j] == c[..j];
    }
  }

  // ---------------------------------------------------------------- whole buckets

  predicate Framable(ps: seq<Bytes>) {
    forall i :: 0 <= i < |ps| ==> 0 < |ps[i]| <= 0x400_0000
  }

  /** The records laid end to end, as a bucket file holds them. */
  function Frames(ps: seq<Bytes>): (b: Bytes)
    requires Framable(ps)
  {
    if ps == [] then [] else Frames(ps[..|ps| - 1]) + Frame(ps[|ps| - 1])
  }

  /** A bucket iterator's reads, up to `calls` of them: what has been absorbed when it stops is
      exactly the frames of the records it returned, in order, and after the end of file at most
      the empty frame that marked it. When every opening serves `c` those frames are the first
      records of `c`, and a clean end of file means they are all of it. */
  method ReadRecords<T>(world: World, stream: Stream, decode: Decoder<T>, calls: nat, ghost c: Bytes)
      returns (payloads: seq<Bytes>, values: seq<T>, last: Outcome<T>)
    requires stream.Valid() && stream.hash == []
    modifies world, stream
    ensures stream.Valid() && Framable(payloads) && |values| == |payloads| <= calls
    ensures forall i :: 0 <= i < |values| ==> decode(payloads[i]) == Some((values[i], |payloads[i]|))
    ensures world.opens <= old(world.opens) + MAX_RETRIES * (|payloads| + 1)
    ensures last.Record? ==> stream.hash == Frames(payloads)
    ensures last.Eof? ==>
              || (stream.hash == Frames(payloads) && stream.pos == |stream.source.content|)
              || stream.hash == Frames(payloads) + Frame([])
    ensures AllServe(world, c) && old(stream.source.content) == c ==>
              stream.source.content == c && Frames(payloads) <= c && (last.Eof? ==> stream.hash <= c)
  {
    payloads, values := [], [];
    last := Failed;
    for k := 0 to calls
      invariant stream.Valid() && Framable(payloads) && |values| == |payloads| == k
      invariant forall i :: 0 <= i < |values| ==> decode(payloads[i]) == Some((values[i], |payloads[i]|))
      invariant world.opens <= old(world.opens) + MAX_RETRIES * k
      invariant if k == 0 then last.Failed? else last.Record?
      invariant stream.hash == Frames(payloads)
      invariant AllServe(world, c) && old(stream.source.content) == c ==> stream.source.content == c && stream.hash <= c
    {
      last := ReadBucketRecord(world, stream, decode, c);
      if !last.Record? {
        return;
      }
      ghost var before := payloads;
      payloads, values := payloads + [last.payload], values + [last.value];
      assert payloads[..|payloads| - 1] == before;
    }
  }

  /** Frames delimit themselves: the bytes of a bucket determine its sequence of records. So reads
      that were interrupted and resumed return the same records as reads that were not. */
  lemma {:induction false} FramesUnique(c: Bytes, ps: seq<Bytes>, qs: seq<Bytes>)
    requires Framable(ps) && Framable(qs) && |ps| <= |qs|
    requires Frames(ps) <= c && Frames(qs) <= c
    ensures ps == qs[..|ps|]
    decreases |qs|
  {
    hide Frame;
    if |qs| > |ps| {
      var q := qs[..|qs| - 1];
      PrefixSlice(Frames(q), Frame(qs[|qs| - 1]), c);
      FramesUnique(c, ps, q);
      assert q[..|ps|] == qs[..|ps|];
    } else if ps != [] {
      var p, q, x, y := ps[..|ps| - 1], qs[..|qs| - 1], ps[|ps| - 1], qs[|qs| - 1];
      assert Frames(ps) == Frames(p) + Frame(x) && Frames(qs) == Frames(q) + Frame(y);
      hide Frames;
      PrefixSlice(Frames(p), Frame(x), c);
      PrefixSlice(Frames(q), Frame(y), c);
      FramesUnique(c, p, q);
      LastFrameUnique(c, p, q, x, y);
      assert ps == p + [x] && qs == q + [y];
    }
  }

  lemma LastFrameUnique(c: Bytes, p: seq<Bytes>, q: seq<Bytes>, x: Bytes, y: Bytes)
    requires Framable(p) && Framable(q) && |x| <= MAX_RECORD && |y| <= MAX_RECORD && |p| == |q| && p == q[..|p|]
    requires Frames(p) <= c && Frame(x) <= c[|Frames(p)|..]
    requires Frames(q) <= c && Frame(y) <= c[|Frames(q)|..]
    ensures x == y
  {
    assert p == q;
    FrameUnique(c[|Frames(p)|..], x, y);
  }

  lemma PrefixSlice(a: Bytes, x: Bytes, c: Bytes)
    requires a + x <= c
    ensures a <= c && x <= c[|a|..]
  {
    assert (a + x)[..|a|] == a && (a + x)[|a|..] == x;
  }

  lemma FrameUnique(c: Bytes, x: Bytes, y: Bytes)
    requires |x| <= MAX_RECORD && |y| <= MAX_RECORD && Frame(x) <= c && Frame(y) <= c
    ensures x == y
  {
    PutGetU32(LAST_FRAGMENT + |x|, x);
    PutGetU32(LAST_FRAGMENT + |y|, y);
    assert GetU32(Frame(x)) == GetU32(c) == GetU32(Frame(y));
    ConcatCancel(PutU32(LAST_FRAGMENT + |x|), x, PutU32(LAST_FRAGMENT + |y|), y);
  }
}
