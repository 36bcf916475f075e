/** The StrKey codec: version byte, payload and checksum in canonical unpadded base32 (section 6 of
    RFC 4648), with the payload lengths SEP-23 prescribes. The checksum is any function. */
module StrKey {
  import opened Common

  datatype KeyError = InvalidVersion | TooLong | TooShort | NotBase32 | NonCanonical | BadChecksum | BadLength
      | BadPadding | PayloadTooLarge

  /** CRC16 over version and payload, as an arbitrary 16-bit function of the bytes. */
  type Checksum = f: Bytes -> int | forall b :: 0 <= f(b) < 0x1_0000 witness (b: Bytes) => 0

  const MAX_PAYLOAD: int := 100
  const MAX_ENCODED: int := 165

  // ---------------------------------------------------------------- bits

  function Pow2(w: nat): (p: nat)
    ensures p >= 1
  {
    if w == 0 then 1 else 2 * Pow2(w - 1)
  }

  /** The `w` low bits of `n`, most significant first. */
  function BitsOf(n: nat, w: nat): (b: seq<bool>)
    ensures |b| == w
    decreases w
  {
    if w == 0 then [] else BitsOf(n / 2, w - 1) + [n % 2 == 1]
  }

  function NumOf(b: seq<bool>): (n: nat)
    ensures n < Pow2(|b|)
  {
    if b == [] then 0 else 2 * NumOf(b[..|b| - 1]) + if b[|b| - 1] then 1 else 0
  }

  lemma {:induction false} NumBits(n: nat, w: nat)
    requires n < Pow2(w)
    ensures NumOf(BitsOf(n, w)) == n
    decreases w
  {
    if w > 0 {
      NumBits(n / 2, w - 1);
      var b := BitsOf(n, w);
      assert b[..|b| - 1] == BitsOf(n / 2, w - 1);
    }
  }

  lemma {:induction false} BitsNum(b: seq<bool>)
    ensures BitsOf(NumOf(b), |b|) == b
  {
    if b != [] {
      var init := b[..|b| - 1];
      BitsNum(init);
      assert NumOf(b) / 2 == NumOf(init);
      assert b == init + [b[|b| - 1]];
    }
  }

  /** n·w, by adding w n times. */
  function Times(n: nat, w: nat): (m: nat)
    ensures w == 5 ==> m == 5 * n
    ensures w == 8 ==> m == 8 * n
  {
    if n == 0 then 0 else Times(n - 1, w) + w
  }

  /** All the numbers' bits, end to end. */
  function Flatten(xs: seq<nat>, w: nat): (b: seq<bool>)
    ensures |b| == Times(|xs|, w)
  {
    if xs == [] then [] else Flatten(xs[..|xs| - 1], w) + BitsOf(xs[|xs| - 1], w)
  }

  /** Groups of `w` bits as numbers. */
  function Chunk(b: seq<bool>, w: nat, n: nat): (xs: seq<nat>)
    requires |b| == Times(n, w)
    ensures |xs| == n && forall i :: 0 <= i < n ==> xs[i] < Pow2(w)
    decreases n
  {
    if n == 0 then [] else Chunk(b[..Times(n - 1, w)], w, n - 1) + [NumOf(b[Times(n - 1, w)..])]
  }

  lemma {:induction false} ChunkFlatten(xs: seq<nat>, w: nat)
    requires forall i :: 0 <= i < |xs| ==> xs[i] < Pow2(w)
    ensures Chunk(Flatten(xs, w), w, |xs|) == xs
  {
    hide BitsOf, NumOf, Pow2;
    if xs != [] {
      var n := |xs|;
      var init, last := xs[..n - 1], xs[n - 1];
      SplitAt(Flatten(init, w), BitsOf(last, w));
      ChunkFlatten(init, w);
      NumBits(last, w);
      assert xs == init + [last];
    }
  }

  lemma {:induction false} FlattenChunk(b: seq<bool>, w: nat, n: nat)
    requires |b| == Times(n, w)
    ensures Flatten(Chunk(b, w, n), w) == b
    decreases n
  {
    hide BitsOf, NumOf, Pow2;
    if n > 0 {
      var cut := Times(n - 1, w);
      var head, tail := b[..cut], b[cut..];
      FlattenChunk(head, w, n - 1);
      BitsNum(tail);
      var xs := Chunk(b, w, n);
      assert xs[..n - 1] == Chunk(head, w, n - 1) && xs[n - 1] == NumOf(tail);
      assert Flatten(xs, w) == Flatten(xs[..n - 1], w) + BitsOf(xs[n - 1], w);
      hide Chunk, Flatten, Times;
      assert b == head + tail;
    }
  }

  // ---------------------------------------------------------------- base32

  /** Characters of an unpadded encoding of `n` bytes: encoding.EncodedLen. */
  function EncodedLen(n: nat): (m: nat)
    ensures 5 * m - 4 <= 8 * n <= 5 * m
  {
    (8 * n + 4) / 5
  }

  function Falses(n: nat): (b: seq<bool>)
    ensures |b| == n && forall i :: 0 <= i < n ==> !b[i]
  {
    seq(n, i => false)
  }

  /** The alphabet ABCDEFGHIJKLMNOPQRSTUVWXYZ234567. */
  function Letter(x: nat): (ch: byte)
    requires x < 32
    ensures Index(ch) == x
  {
    if x < 26 then 'A' as int + x else '2' as int + (x - 26)
  }

  /** decodingTable; 0xff marks a byte outside the alphabet. */
  function Index(ch: byte): (x: nat) {
    if 'A' as int <= ch <= 'Z' as int then ch - 'A' as int
    else if '2' as int <= ch <= '7' as int then ch - '2' as int + 26
    else 0xff
  }

  lemma LetterOfIndex(ch: byte)
    requires Index(ch) != 0xff
    ensures Index(ch) < 32 && Letter(Index(ch)) == ch
  {
  }

  /** The letters are those of section 6 of RFC 4648, in order. */
  lemma Alphabet(x: nat)
    requires x < 32
    ensures Letter(x) == "ABCDEFGHIJKLMNOPQRSTUVWXYZ234567"[x] as int
  {
  }

  function AsNats(b: Bytes): (xs: seq<nat>)
    ensures |xs| == |b| && forall i :: 0 <= i < |b| ==> xs[i] == b[i]
  {
    seq(|b|, i requires 0 <= i < |b| => b[i])
  }

  function Indices(s: Bytes): (xs: seq<nat>)
    ensures |xs| == |s| && forall i :: 0 <= i < |s| ==> xs[i] == Index(s[i])
  {
    seq(|s|, i requires 0 <= i < |s| => Index(s[i]))
  }

  /** base32 without padding: the bits of the bytes, zero-filled on the right, five at a time. */
  function Base32(raw: Bytes): (s: Bytes)
    ensures |s| == EncodedLen(|raw|)
  {
    var m := EncodedLen(|raw|);
    var bits := Flatten(AsNats(raw), 8) + Falses(5 * m - 8 * |raw|);
    var xs := Chunk(bits, 5, m);
    assert Pow2(5) == 32 by { Pow2Small(); }
    seq(m, i requires 0 <= i < m => Letter(xs[i]))
  }

  lemma Pow2Small()
    ensures Pow2(1) == 2 && Pow2(2) == 4 && Pow2(3) == 8 && Pow2(4) == 16 && Pow2(5) == 32 && Pow2(8) == 256
  {
    assert Pow2(3) == 2 * Pow2(2) && Pow2(4) == 2 * Pow2(3) && Pow2(5) == 2 * Pow2(4);
    assert Pow2(6) == 2 * Pow2(5) && Pow2(7) == 2 * Pow2(6) && Pow2(8) == 2 * Pow2(7);
  }

  predicate InAlphabet(s: Bytes) {
    forall i :: 0 <= i < |s| ==> Index(s[i]) != 0xff
  }

  /** Go's decoder on characters of the alphabet: whole bytes are kept, the bits left over dropped. */
  function Unbase32(s: Bytes): (raw: Bytes)
    ensures |raw| == 5 * |s| / 8
  {
    var n := 5 * |s| / 8;
    var bits := Flatten(Indices(s), 5)[..8 * n];
    var xs := Chunk(bits, 8, n);
    Pow2Small();
    seq(n, i requires 0 <= i < n => xs[i])
  }

  /** The bits after the last whole byte are zero. */
  ghost predicate CleanTail(s: Bytes) {
    Flatten(Indices(s), 5)[8 * (5 * |s| / 8)..] == Falses(5 * |s| % 8)
  }

  /** The characters of Base32(raw) carry the bits of `raw` and then zeros. */
  lemma BaseBits(raw: Bytes)
    ensures InAlphabet(Base32(raw))
    ensures Flatten(Indices(Base32(raw)), 5) == Flatten(AsNats(raw), 8) + Falses(5 * EncodedLen(|raw|) - 8 * |raw|)
  {
    hide BitsOf, NumOf, Pow2, Flatten, Chunk, Letter;
    var m, s := EncodedLen(|raw|), Base32(raw);
    var bits := Flatten(AsNats(raw), 8) + Falses(5 * m - 8 * |raw|);
    var xs := Chunk(bits, 5, m);
    Pow2Small();
    assert Indices(s) == xs;
    FlattenChunk(bits, 5, m);
  }

  lemma BaseSizes(n: nat)
    ensures 5 * EncodedLen(n) / 8 == n && 5 * EncodedLen(n) % 8 == 5 * EncodedLen(n) - 8 * n
    ensures 5 * EncodedLen(n) % 8 < 5
  {
  }

  lemma UnbaseBase(raw: Bytes)
    ensures InAlphabet(Base32(raw)) && CleanTail(Base32(raw))
    ensures 5 * |Base32(raw)| / 8 == |raw| && 5 * |Base32(raw)| % 8 < 5
    ensures Unbase32(Base32(raw)) == raw
  {
    hide BitsOf, NumOf, Pow2, Flatten, Chunk, Letter, Index, Base32, EncodedLen;
    BaseSizes(|raw|);
    BaseBits(raw);
    var head := Flatten(AsNats(raw), 8);
    var tail := Falses(5 * EncodedLen(|raw|) - 8 * |raw|);
    SplitAt(head, tail);
    Pow2Small();
    ChunkFlatten(AsNats(raw), 8);
  }

  lemma BaseUnbase(s: Bytes)
    requires InAlphabet(s) && CleanTail(s) && 5 * |s| % 8 < 5
    ensures EncodedLen(5 * |s| / 8) == |s| && Base32(Unbase32(s)) == s
  {
    hide BitsOf, NumOf, Pow2, Flatten, Chunk, Letter;
    var n, raw := 5 * |s| / 8, Unbase32(s);
    var all := Flatten(Indices(s), 5);
    var kept := all[..8 * n];
    Pow2Small();
    assert AsNats(raw) == Chunk(kept, 8, n);
    FlattenChunk(kept, 8, n);
    assert kept + Falses(5 * |s| - 8 * n) == all;
    forall i | 0 <= i < |s| ensures Indices(s)[i] < 32 { LetterOfIndex(s[i]); }
    ChunkFlatten(Indices(s), 5);
    forall i | 0 <= i < |s| ensures Base32(raw)[i] == s[i] { LetterOfIndex(s[i]); }
  }

  /** The mask test of decodeString: `x & (2^l - 1)` is `x % 2^l`, zero when the low `l` bits are. */
  lemma {:induction false} LowBits(x: nat, w: nat, l: nat)
    requires l <= w
    ensures x % Pow2(l) == 0 <==> BitsOf(x, w)[w - l..] == Falses(l)
    decreases w
  {
    if l > 0 {
      LowBits(x / 2, w - 1, l - 1);
      EvenMultiple(x, Pow2(l - 1));
      var low := BitsOf(x / 2, w - 1)[w - l..];
      assert BitsOf(x, w)[w - l..] == low + [x % 2 == 1];
      assert Falses(l) == Falses(l - 1) + [false];
      if low + [x % 2 == 1] == Falses(l - 1) + [false] {
        ConcatCancel(low, [x % 2 == 1], Falses(l - 1), [false]);
      }
    } else {
      assert Falses(0) == [];
    }
  }

  lemma EvenMultiple(x: nat, p: nat)
    requires p >= 1
    ensures x % (2 * p) == 0 <==> x % 2 == 0 && x / 2 % p == 0
  {
    if x % (2 * p) == 0 {
      var q := x / (2 * p);
      assert x == 2 * p * q;
      assert x == 2 * (p * q);
      assert x / 2 == p * q;
      MultipleOf(p, q);
    }
    if x % 2 == 0 && x / 2 % p == 0 {
      var q := x / 2 / p;
      assert x / 2 == p * q;
      assert x == 2 * p * q;
      MultipleOf(2 * p, q);
    }
  }

  lemma MultipleOf(p: nat, q: nat)
    requires p >= 1
    ensures p * q % p == 0
  {
    var r, k := p * q % p, p * q / p;
    assert p * q == p * k + r;
    assert r == p * (q - k);
    if q - k >= 1 { MulMono(1, q - k, p); }
    if q - k <= -1 { MulMono(q - k, -1, p); }
  }

  lemma TailIsLowBits(s: Bytes)
    requires |s| > 0 && InAlphabet(s) && 5 * |s| % 8 < 5
    ensures CleanTail(s) <==> Index(s[|s| - 1]) % Pow2(5 * |s| % 8) == 0
  {
    hide BitsOf, Pow2, Chunk, Index, Falses;
    var xs, l, n := Indices(s), 5 * |s| % 8, |s|;
    LetterOfIndex(s[n - 1]);
    LowBits(xs[n - 1], 5, l);
    var head, tail := Flatten(xs[..n - 1], 5), BitsOf(xs[n - 1], 5);
    assert Flatten(xs, 5) == head + tail && |head| == 5 * n - 5;
    hide Flatten;
    assert 8 * (5 * n / 8) == 5 * n - l;
    DropInto(head, tail, 5 - l);
  }

  lemma DropInto<T>(a: seq<T>, b: seq<T>, k: nat)
    requires k <= |b|
    ensures (a + b)[|a| + k..] == b[k..]
  {
  }

  // ---------------------------------------------------------------- the codec

  const ACCOUNT: byte := 48
  const SEED: byte := 144
  const MUXED: byte := 96
  const HASH_TX: byte := 152
  const HASH_X: byte := 184
  const SIGNED_PAYLOAD: byte := 120
  const CONTRACT: byte := 16
  const LIQUIDITY_POOL: byte := 88
  const CLAIMABLE: byte := 8
  const MUXED_CONTRACT: byte := 176

  const HEADER: int := 36

  predicate ValidVersion(v: byte) {
    v == ACCOUNT || v == MUXED || v == SEED || v == HASH_TX || v == HASH_X || v == SIGNED_PAYLOAD
    || v == CONTRACT || v == LIQUIDITY_POOL || v == CLAIMABLE || v == MUXED_CONTRACT
  }

  /** SEP-23's layout of a signed payload: key, length, content and zero padding. */
  ghost predicate IsSignedPayload(p: Bytes) {
    exists key: Bytes, content: Bytes :: SignedLayout(p, key, content)
  }

  ghost predicate SignedLayout(p: Bytes, key: Bytes, content: Bytes) {
    |key| == 32 && 1 <= |content| <= 64
    && p == key + PutU32(|content|) + content + Zeros(Padding(|content|))
  }

  function Padding(n: nat): (k: nat)
    ensures k < 4 && (n + k) % 4 == 0
  {
    (4 - n % 4) % 4
  }

  /** What SEP-23 prescribes for each kind of key. */
  ghost predicate PayloadOk(v: byte, p: Bytes) {
    if v == CLAIMABLE then |p| == 33
    else if v == MUXED || v == MUXED_CONTRACT then |p| == 40
    else if v == SIGNED_PAYLOAD then IsSignedPayload(p)
    else ValidVersion(v) && |p| == 32
  }

  function CheckSignedPayload(p: Bytes): (r: Result<(), KeyError>) {
    if |p| < HEADER then Err(BadLength) else
    var declared := GetU32(p[32..HEADER]);
    if declared < 1 || declared > 64 then Err(BadLength) else
    var padded := (declared + 3) / 4 * 4;
    if |p| != HEADER + padded then Err(BadLength)
    else if forall i :: HEADER + declared <= i < |p| ==> p[i] == 0 then Ok(())
    else Err(BadPadding)
  }

  method CheckSignedPayloadScan(p: Bytes) returns (r: Result<(), KeyError>)
    ensures r == CheckSignedPayload(p)
    ensures r.Ok? <==> IsSignedPayload(p)
  {
    SignedPayloadExactly(p);
    if |p| < HEADER { return Err(BadLength); }
    var declared := GetU32(p[32..HEADER]);
    if declared < 1 || declared > 64 { return Err(BadLength); }
    var padded := (declared + 3) / 4 * 4;
    if |p| != HEADER + padded { return Err(BadLength); }
    for k := HEADER + declared to |p|
      invariant forall i :: HEADER + declared <= i < k ==> p[i] == 0
    {
      if p[k] != 0 { return Err(BadPadding); }
    }
    return Ok(());
  }

  lemma SignedPayloadExactly(p: Bytes)
    ensures CheckSignedPayload(p).Ok? <==> IsSignedPayload(p)
  {
    hide PutU32, GetU32;
    if CheckSignedPayload(p).Ok? {
      PassesIsSigned(p);
    }
    if IsSignedPayload(p) {
      var key: Bytes, content: Bytes :| SignedLayout(p, key, content);
      SignedPayloadPasses(p, key, content);
    }
  }

  lemma PaddedLength(n: nat)
    ensures (n + 3) / 4 * 4 == n + Padding(n)
  {
  }

  lemma PassesIsSigned(p: Bytes)
    requires CheckSignedPayload(p).Ok?
    ensures IsSignedPayload(p)
  {
    hide PutU32, GetU32, Padding;
    var n := GetU32(p[32..HEADER]);
    var key, word, content, pad := p[..32], p[32..HEADER], p[HEADER..HEADER + n], p[HEADER + n..];
    PaddedLength(n);
    GetPutU32(word);
    assert word[..4] == word;
    assert pad == Zeros(Padding(n));
    assert p == key + word + content + pad;
    assert SignedLayout(p, key, content);
  }

  lemma SignedPayloadPasses(p: Bytes, key: Bytes, content: Bytes)
    requires SignedLayout(p, key, content)
    ensures CheckSignedPayload(p).Ok?
  {
    hide PutU32, GetU32, Padding;
    var n := |content|;
    PaddedLength(n);
    assert p[32..HEADER] == PutU32(n) + [];
    PutGetU32(n, []);
  }

  function CheckPayloadLength(v: byte, p: Bytes): (r: Result<(), KeyError>)
    ensures r.Ok? ==> ValidVersion(v)
  {
    if v == SIGNED_PAYLOAD then CheckSignedPayload(p)
    else if !ValidVersion(v) then Err(InvalidVersion)
    else
      var expected :=
        if v == CLAIMABLE then 33 else if v == MUXED || v == MUXED_CONTRACT then 40 else 32;
      if |p| != expected then Err(BadLength) else Ok(())
  }

  lemma PayloadExactly(v: byte, p: Bytes)
    ensures CheckPayloadLength(v, p).Ok? <==> PayloadOk(v, p)
    ensures PayloadOk(v, p) ==> ValidVersion(v) && |p| <= MAX_PAYLOAD
  {
    SignedPayloadExactly(p);
  }

  /** The packed form: version, payload and the checksum, low byte first. */
  function Pack(crc: Checksum, v: byte, p: Bytes): (raw: Bytes)
    ensures |raw| == |p| + 3
  {
    var c := crc([v] + p);
    [v] + p + [c % 0x100, c / 0x100]
  }

  /** Where the parts of the packed form are, and that the checksum has its low byte first. */
  lemma PackLayout(crc: Checksum, v: byte, p: Bytes)
    ensures var raw, n := Pack(crc, v, p), |p|;
            var lo: int, hi: int := raw[n + 1], raw[n + 2];
            raw[0] == v && raw[1..n + 1] == p && crc([v] + p) == lo + 0x100 * hi
  {
  }

  /** binary.LittleEndian.Uint16. */
  function GetU16(lo: int, hi: int): int {
    lo + 0x100 * hi
  }

  function Encode(crc: Checksum, v: byte, p: Bytes): (r: Result<Bytes, KeyError>) {
    if !ValidVersion(v) then Err(InvalidVersion)
    else if |p| > MAX_PAYLOAD then Err(PayloadTooLarge)
    else Ok(Base32(Pack(crc, v, p)))
  }

  function DecodeString(s: Bytes): (r: Result<Bytes, KeyError>)
    ensures r.Ok? ==> |r.value| >= 3
  {
    if |s| > MAX_ENCODED then Err(TooLong)
    else if |s| < 5 then Err(TooShort)
    else if !InAlphabet(s) then Err(NotBase32)
    else
      var leftover := 5 * |s| % 8;
      if leftover >= 5 then Err(NonCanonical)
      else if leftover > 0 && Index(s[|s| - 1]) % Pow2(leftover) != 0 then Err(NonCanonical)
      else Ok(Unbase32(s))
  }

  /** decodeString with its character scan. */
  method DecodeStringScan(s: Bytes) returns (r: Result<Bytes, KeyError>)
    ensures r == DecodeString(s)
    ensures r.Ok? ==> Base32(r.value) == s
  {
    ghost var spec := DecodeString(s);
    if spec.Ok? { DecodeStringExactly(s, spec.value); }
    hide Base32, Unbase32, Index, Pow2;
    if |s| > MAX_ENCODED { return Err(TooLong); }
    if |s| < 5 { return Err(TooShort); }
    for k := 0 to |s|
      invariant InAlphabet(s[..k])
    {
      if Index(s[k]) == 0xff { return Err(NotBase32); }
      assert s[..k + 1] == s[..k] + [s[k]];
    }
    assert s[..|s|] == s;
    var leftover := 5 * |s| % 8;
    if leftover >= 5 { return Err(NonCanonical); }
    if leftover > 0 && Index(s[|s| - 1]) % Pow2(leftover) != 0 { return Err(NonCanonical); }
    return Ok(Unbase32(s));
  }

  /** decodeString accepts exactly the encodings of 3 to 103 bytes, and inverts them. */
  lemma DecodeStringExactly(s: Bytes, raw: Bytes)
    ensures DecodeString(s) == Ok(raw) <==> Base32(raw) == s && 3 <= |raw| <= 103
  {
    hide Base32, Unbase32, CleanTail, Index, InAlphabet;
    if DecodeString(s) == Ok(raw) {
      TailClean(s);
      BaseUnbase(s);
    }
    if Base32(raw) == s && 3 <= |raw| <= 103 {
      UnbaseBase(raw);
      TailClean(s);
    }
  }

  lemma TailClean(s: Bytes)
    requires |s| > 0 && InAlphabet(s) && 5 * |s| % 8 < 5
    ensures CleanTail(s) <==> (5 * |s| % 8 == 0 || Index(s[|s| - 1]) % Pow2(5 * |s| % 8) == 0)
  {
    hide CleanTail, Index, InAlphabet;
    TailIsLowBits(s);
  }

  function DecodeAny(crc: Checksum, s: Bytes): (r: Result<(byte, Bytes), KeyError>) {
    var raw :- DecodeString(s);
    var n := |raw| - 2;
    var v, vp, p, sum := raw[0], raw[..n], raw[1..n], GetU16(raw[n], raw[n + 1]);
    if !ValidVersion(v) then Err(InvalidVersion)
    else if crc(vp) != sum then Err(BadChecksum)
    else
      var _ :- CheckPayloadLength(v, p);
      Ok((v, p))
  }

  function Decode(crc: Checksum, expected: byte, s: Bytes): (r: Result<Bytes, KeyError>) {
    if !ValidVersion(expected) then Err(InvalidVersion) else
    var raw :- DecodeString(s);
    if |raw| < 3 then Err(TooShort) else
    var n := |raw| - 2;
    var v, vp, p, sum := raw[0], raw[..n], raw[1..n], GetU16(raw[n], raw[n + 1]);
    if v != expected then Err(InvalidVersion)
    else if crc(vp) != sum then Err(BadChecksum)
    else
      var _ :- CheckPayloadLength(v, p);
      Ok(p)
  }

  /** The raw bytes that pass the tests after decodeString are the packed legal payloads. */
  lemma PackExactly(crc: Checksum, raw: Bytes, v: byte, p: Bytes)
    requires |raw| >= 3
    ensures raw == Pack(crc, v, p)
       <==> raw[0] == v && raw[1..|raw| - 2] == p
            && crc(raw[..|raw| - 2]) == GetU16(raw[|raw| - 2], raw[|raw| - 1])
  {
    var n := |raw| - 2;
    if raw == Pack(crc, v, p) {
      assert raw[..n] == [v] + p && raw[1..n] == p;
    }
    if raw[0] == v && raw[1..n] == p && crc(raw[..n]) == GetU16(raw[n], raw[n + 1]) {
      assert raw[..n] == [v] + p;
      var lo: int, hi: int := raw[n], raw[n + 1];
      assert (lo + 0x100 * hi) % 0x100 == lo && (lo + 0x100 * hi) / 0x100 == hi;
      assert raw == raw[..n] + [raw[n], raw[n + 1]];
    }
  }

  /** Accepted strings and legal (version, payload) pairs are in bijection, for any checksum. */
  lemma DecodeAnyExactly(crc: Checksum, s: Bytes, v: byte, p: Bytes)
    ensures DecodeAny(crc, s) == Ok((v, p)) <==> PayloadOk(v, p) && Encode(crc, v, p) == Ok(s)
  {
    hide Base32, DecodeString, PayloadOk, CheckPayloadLength, Pack;
    PayloadExactly(v, p);
    if DecodeAny(crc, s) == Ok((v, p)) {
      var raw := DecodeString(s).value;
      DecodeStringExactly(s, raw);
      PackExactly(crc, raw, v, p);
    }
    if PayloadOk(v, p) && Encode(crc, v, p) == Ok(s) {
      var raw := Pack(crc, v, p);
      DecodeStringExactly(s, raw);
      PackExactly(crc, raw, v, p);
    }
  }

  /** Decode accepts exactly what DecodeAny accepts with the expected version. */
  lemma DecodeIsDecodeAny(crc: Checksum, expected: byte, s: Bytes, p: Bytes)
    ensures Decode(crc, expected, s) == Ok(p) <==> DecodeAny(crc, s) == Ok((expected, p))
  {
    hide DecodeString, CheckPayloadLength;
  }

  /** Encode does not check the layout, so some of its outputs do not decode: exactly the illegal payloads. */
  lemma EncodeThenDecode(crc: Checksum, v: byte, p: Bytes)
    requires Encode(crc, v, p).Ok?
    ensures PayloadOk(v, p) ==> DecodeAny(crc, Encode(crc, v, p).value) == Ok((v, p))
    ensures !PayloadOk(v, p) ==> DecodeAny(crc, Encode(crc, v, p).value).Err?
  {
    hide Base32, Pack, PayloadOk, DecodeAny;
    var s := Encode(crc, v, p).value;
    DecodeAnyExactly(crc, s, v, p);
    if DecodeAny(crc, s).Ok? {
      var (w, q) := DecodeAny(crc, s).value;
      DecodeAnyExactly(crc, s, w, q);
      assert Base32(Pack(crc, w, q)) == Base32(Pack(crc, v, p));
      UnbaseBase(Pack(crc, w, q));
      UnbaseBase(Pack(crc, v, p));
      PackUnique(crc, v, p, w, q);
    }
  }

  /** An empty account id encodes, and what it encodes to is refused. */
  lemma EmptyAccountEncodes(crc: Checksum)
    ensures Encode(crc, ACCOUNT, []).Ok? && DecodeAny(crc, Encode(crc, ACCOUNT, []).value).Err?
  {
    hide DecodeAny, Base32;
    EncodeThenDecode(crc, ACCOUNT, []);
  }

  lemma PackUnique(crc: Checksum, v: byte, p: Bytes, w: byte, q: Bytes)
    requires Pack(crc, v, p) == Pack(crc, w, q)
    ensures v == w && p == q
  {
    PackExactly(crc, Pack(crc, v, p), v, p);
    PackExactly(crc, Pack(crc, v, p), w, q);
  }

  // ---------------------------------------------------------------- the first letter

  lemma {:induction false} TimesAtLeast(n: nat, w: nat)
    requires n >= 1
    ensures Times(n, w) >= w
  {
    if n > 1 { TimesAtLeast(n - 1, w); }
  }

  lemma {:induction false} FlattenHead(xs: seq<nat>, w: nat)
    requires xs != []
    ensures |Flatten(xs, w)| >= w && Flatten(xs, w)[..w] == BitsOf(xs[0], w)
  {
    hide BitsOf;
    TimesAtLeast(|xs|, w);
    var init, last := xs[..|xs| - 1], xs[|xs| - 1];
    if init == [] {
      assert Flatten(init, w) == [];
    } else {
      FlattenHead(init, w);
    }
  }

  lemma {:induction false} ChunkHead(b: seq<bool>, w: nat, n: nat)
    requires n >= 1 && |b| == Times(n, w)
    ensures |b| >= w && Chunk(b, w, n)[0] == NumOf(b[..w])
    decreases n
  {
    hide NumOf, Pow2;
    TimesAtLeast(n, w);
    if n == 1 {
      assert Times(0, w) == 0 && b[0..] == b && b[..w] == b;
    } else {
      var cut := Times(n - 1, w);
      ChunkHead(b[..cut], w, n - 1);
      assert b[..cut][..w] == b[..w];
    }
  }

  /** The five high bits of a byte. */
  lemma TopBits(v: nat)
    requires v < 256
    ensures NumOf(BitsOf(v, 8)[..5]) == v / 8
  {
    hide NumOf, BitsOf, Pow2;
    DropLowBit(v, 8);
    DropLowBit(v / 2, 7);
    DropLowBit(v / 2 / 2, 6);
    var b := BitsOf(v, 8);
    assert b[..7][..6][..5] == b[..5];
    Pow2Small();
    assert v / 2 / 2 / 2 == v / 8;
    NumBits(v / 8, 5);
  }

  lemma DropLowBit(v: nat, w: nat)
    requires w >= 1
    ensures BitsOf(v, w)[..w - 1] == BitsOf(v / 2, w - 1)
  {
  }

  lemma FirstLetter(raw: Bytes)
    requires raw != []
    ensures |Base32(raw)| >= 1 && Base32(raw)[0] == Letter(raw[0] / 8)
  {
    hide BitsOf, NumOf, Flatten, Chunk, Letter, Pow2;
    var m := EncodedLen(|raw|);
    var head := Flatten(AsNats(raw), 8);
    var bits := head + Falses(5 * m - 8 * |raw|);
    FlattenHead(AsNats(raw), 8);
    ChunkHead(bits, 5, m);
    TopBits(raw[0]);
    assert bits[..5] == head[..8][..5];
  }

  /** An encoded key starts with the letter its kind is known by. */
  lemma KeyLetter(crc: Checksum, v: byte, p: Bytes)
    requires Encode(crc, v, p).Ok?
    ensures var c := Encode(crc, v, p).value;
            && |c| >= 1 && v == 8 * Index(c[0])
            && c[0] in [71, 83, 77, 84, 88, 80, 67, 87, 76, 66]
            && (v == ACCOUNT ==> c[0] == 'G' as int) && (v == SEED ==> c[0] == 'S' as int)
            && (v == MUXED ==> c[0] == 'M' as int) && (v == HASH_TX ==> c[0] == 'T' as int)
            && (v == HASH_X ==> c[0] == 'X' as int) && (v == SIGNED_PAYLOAD ==> c[0] == 'P' as int)
            && (v == CONTRACT ==> c[0] == 'C' as int) && (v == MUXED_CONTRACT ==> c[0] == 'W' as int)
            && (v == LIQUIDITY_POOL ==> c[0] == 'L' as int) && (v == CLAIMABLE ==> c[0] == 'B' as int)
  {
    hide Base32;
    FirstLetter(Pack(crc, v, p));
  }
}
