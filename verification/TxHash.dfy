/** Transaction hashes: the zero-copy hasher over envelope views and the decoding path, which must
    hash the same bytes. */
module TxHash {
  import opened Common
  import opened XdrSchema
  import opened XdrMinSize
  import opened XdrViews
  import opened XdrViewProofs
  import opened XdrAccess

  /** SHA-256, as an arbitrary function to 32 bytes. */
  type Digest = f: Bytes -> Bytes | forall b :: |f(b)| == 32 witness (b: Bytes) => Zeros(32)

  /** The digest, and which passphrases strings.TrimSpace leaves empty. */
  datatype Crypto = Crypto(sha: Digest, blank: Bytes -> bool)

  datatype HashError = EmptyPassphrase | InvalidEnvelopeType | ViewFailed(view: ViewError)

  const TX_V0: int := 0
  const TX: int := 2
  const FEE_BUMP: int := 5

  /** The members of EnvelopeType are 0 to 10. */
  const LAST_ENVELOPE_TYPE: int := 10

  const ENVELOPE := "TransactionEnvelope"
  const V0_ENVELOPE := "TransactionV0Envelope"
  const V1_ENVELOPE := "TransactionV1Envelope"
  const FEE_BUMP_ENVELOPE := "FeeBumpTransactionEnvelope"
  const TRANSACTION_V0 := "TransactionV0"
  const TRANSACTION := "Transaction"
  const FEE_BUMP_TRANSACTION := "FeeBumpTransaction"
  const V0_EXT := "TransactionV0Ext"
  const V1_EXT := "TransactionExt"
  const MUXED_ACCOUNT := "MuxedAccount"
  const PRECONDITIONS := "Preconditions"
  const PAYLOAD := "TransactionSignaturePayload"
  const TAGGED := "TransactionSignaturePayloadTaggedTransaction"

  const SIGNATURES := VarArray(Ref("DecoratedSignature"), 20)
  const OPERATIONS := VarArray(Ref("Operation"), 100)
  const V0_FIELDS := [OpaqueFixed(32), Scalar(Uint), Scalar(Hyper), Optional(Ref("TimeBounds")), Ref("Memo"),
      OPERATIONS, Ref(V0_EXT)]
  const V1_FIELDS := [Ref(MUXED_ACCOUNT), Scalar(Uint), Scalar(Hyper), Ref(PRECONDITIONS), Ref("Memo"), OPERATIONS,
      Ref(V1_EXT)]

  predicate Defines(s: Schema, name: string, def: Def) {
    name in s.defs && s.defs[name].def == def
  }

  /** The part of Stellar-transaction.x that hashing depends on; all other types are arbitrary. */
  ghost predicate TxSchema(s: Schema) {
    && Accepted(s)
    && Defines(s, ENVELOPE, UnionDef([Arm([TX_V0], Some(Ref(V0_ENVELOPE))), Arm([TX], Some(Ref(V1_ENVELOPE))),
        Arm([FEE_BUMP], Some(Ref(FEE_BUMP_ENVELOPE)))]))
    && Defines(s, V0_ENVELOPE, StructDef([Ref(TRANSACTION_V0), SIGNATURES]))
    && Defines(s, V1_ENVELOPE, StructDef([Ref(TRANSACTION), SIGNATURES]))
    && Defines(s, FEE_BUMP_ENVELOPE, StructDef([Ref(FEE_BUMP_TRANSACTION), SIGNATURES]))
    && FEE_BUMP_TRANSACTION in s.defs
    && TxDefs(s)
    && Defines(s, PAYLOAD, StructDef([OpaqueFixed(32), Ref(TAGGED)]))
    && Defines(s, TAGGED, UnionDef([Arm([TX], Some(Ref(TRANSACTION))),
        Arm([FEE_BUMP], Some(Ref(FEE_BUMP_TRANSACTION)))]))
  }

  ghost predicate TxDefs(s: Schema) {
    && Defines(s, TRANSACTION_V0, StructDef(V0_FIELDS))
    && Defines(s, TRANSACTION, StructDef(V1_FIELDS))
    && Defines(s, V0_EXT, UnionDef([Arm([0], None)]))
    && Defines(s, V1_EXT, UnionDef([Arm([0], None), Arm([1], Some(Ref("SorobanTransactionData")))]))
    && Defines(s, MUXED_ACCOUNT, UnionDef([Arm([0], Some(OpaqueFixed(32))),
        Arm([0x100], Some(Ref("MuxedAccountMed25519")))]))
    && Defines(s, PRECONDITIONS, UnionDef([Arm([0], None), Arm([1], Some(Ref("TimeBounds"))),
        Arm([2], Some(Ref("PreconditionsV2")))]))
  }

  // ---------------------------------------------------------------- the decoding path

  /** NewPreconditionsWithTimeBounds. */
  function Conditions(timeBounds: Value): (v: Value) {
    if timeBounds.VPresent? then VUnion(1, timeBounds.inner) else VUnion(0, VVoid)
  }

  /** The Transaction that HashTransactionV0 builds out of a TransactionV0. */
  function Converted(v0: Value): (v1: Value)
    requires v0.VSeq? && |v0.items| == 7
  {
    var f := v0.items;
    VSeq([VUnion(0, f[0]), f[1], f[2], Conditions(f[3]), f[4], f[5], VUnion(0, VVoid)])
  }

  /** The payload value whose encoding is hashed. */
  function PayloadOf(networkId: Bytes, env: Value): (v: Value)
    requires env.VUnion? && env.arm.VSeq? && |env.arm.items| == 2
    requires env.disc == TX_V0 ==> env.arm.items[0].VSeq? && |env.arm.items[0].items| == 7
  {
    var tx := env.arm.items[0];
    VSeq([VBytes(networkId), if env.disc == TX_V0 then VUnion(TX, Converted(tx)) else VUnion(env.disc, tx)])
  }

  lemma EnvelopeShape(s: Schema, env: Value)
    requires TxSchema(s) && WellTyped(s, Ref(ENVELOPE), env)
    ensures env.VUnion? && (env.disc == TX_V0 || env.disc == TX || env.disc == FEE_BUMP)
    ensures WellTyped(s, Body(env.disc), env.arm)
    ensures env.arm.VSeq? && |env.arm.items| == 2 && WellTyped(s, Inner(env.disc), env.arm.items[0])
    ensures env.disc == TX_V0 ==> env.arm.items[0].VSeq? && |env.arm.items[0].items| == 7
    ensures Encode(s, Ref(ENVELOPE), env) == PutU32(env.disc) + Encode(s, Body(env.disc), env.arm)
  {
    ThreeArms(s.defs[ENVELOPE].def.arms, env.disc);
    assert WellTyped(s, Body(env.disc), env.arm);
    BodyShape(s, env.disc, env.arm);
    hide WellTyped;
    if env.disc == TX_V0 {
      V0Shape(s, env.arm.items[0]);
    }
  }

  lemma BodyShape(s: Schema, disc: int, body: Value)
    requires TxSchema(s) && WellTyped(s, Body(disc), body)
    ensures body.VSeq? && |body.items| == 2
    ensures WellTyped(s, Inner(disc), body.items[0])
    ensures IsStruct(s, Body(disc).name) && Fields(s, Body(disc).name) == [Inner(disc), SIGNATURES]
    ensures forall j :: 0 <= j < 2 ==> WellTyped(s, Fields(s, Body(disc).name)[j], body.items[j])
    ensures TypeOk(s, Inner(disc))
  {
    assert DefOk(s, Body(disc).name);
    var fs := Fields(s, Body(disc).name);
    assert fs[0] == Inner(disc);
  }

  function Body(disc: int): (t: Type) {
    Ref(if disc == TX_V0 then V0_ENVELOPE else if disc == TX then V1_ENVELOPE else FEE_BUMP_ENVELOPE)
  }

  function Inner(disc: int): (t: Type) {
    Ref(if disc == TX_V0 then TRANSACTION_V0 else if disc == TX then TRANSACTION else FEE_BUMP_TRANSACTION)
  }

  lemma ThreeArms(arms: seq<Arm>, disc: int)
    requires |arms| == 3 && |arms[0].cases| == |arms[1].cases| == |arms[2].cases| == 1
    ensures disc == arms[0].cases[0] ==> ArmIndex(arms, disc) == Some(0)
    ensures disc == arms[1].cases[0] != arms[0].cases[0] ==> ArmIndex(arms, disc) == Some(1)
    ensures disc == arms[2].cases[0] && disc != arms[0].cases[0] && disc != arms[1].cases[0] ==>
              ArmIndex(arms, disc) == Some(2)
    ensures ArmIndex(arms, disc).Some? ==>
              disc == arms[0].cases[0] || disc == arms[1].cases[0] || disc == arms[2].cases[0]
  {
  }

  lemma TwoArms(arms: seq<Arm>, disc: int)
    requires |arms| == 2 && |arms[0].cases| == |arms[1].cases| == 1
    ensures disc == arms[0].cases[0] ==> ArmIndex(arms, disc) == Some(0)
    ensures disc == arms[1].cases[0] != arms[0].cases[0] ==> ArmIndex(arms, disc) == Some(1)
  {
  }

  lemma V0Shape(s: Schema, v: Value)
    requires TxDefs(s) && WellTyped(s, Ref(TRANSACTION_V0), v)
    ensures v.VSeq? && |v.items| == 7
    ensures forall j :: 0 <= j < 7 ==> WellTyped(s, V0_FIELDS[j], v.items[j])
    ensures Encode(s, Ref(TRANSACTION_V0), v) == EncodeFields(s, V0_FIELDS, v, 0)
  {
  }

  // ---------------------------------------------------------------- the conversion

  /** Structs whose fields encode alike from `i` on have like tails. */
  lemma {:induction false} SameTail(s: Schema, fs: seq<Type>, v: Value, gs: seq<Type>, w: Value, i: nat)
    requires v.VSeq? && w.VSeq? && |fs| == |gs| == |v.items| == |w.items| && i <= |fs|
    requires forall j :: 0 <= j < |fs| ==> WellTyped(s, fs[j], v.items[j]) && WellTyped(s, gs[j], w.items[j])
    requires forall j :: i <= j < |fs| ==> Encode(s, fs[j], v.items[j]) == Encode(s, gs[j], w.items[j])
    ensures EncodeFields(s, fs, v, i) == EncodeFields(s, gs, w, i)
    decreases |fs| - i
  {
    hide Encode, WellTyped;
    if i < |fs| { SameTail(s, fs, v, gs, w, i + 1); }
  }

  lemma ConditionsEncode(s: Schema, t: Value)
    requires TxDefs(s) && WellTyped(s, Optional(Ref("TimeBounds")), t)
    ensures WellTyped(s, Ref(PRECONDITIONS), Conditions(t))
    ensures Encode(s, Ref(PRECONDITIONS), Conditions(t)) == Encode(s, Optional(Ref("TimeBounds")), t)
  {
    ThreeArms(s.defs[PRECONDITIONS].def.arms, Conditions(t).disc);
  }

  lemma ExtEncode(s: Schema, e: Value)
    requires TxDefs(s) && WellTyped(s, Ref(V0_EXT), e)
    ensures WellTyped(s, Ref(V1_EXT), VUnion(0, VVoid))
    ensures Encode(s, Ref(V1_EXT), VUnion(0, VVoid)) == Encode(s, Ref(V0_EXT), e) == PutU32(0)
  {
    TwoArms(s.defs[V1_EXT].def.arms, 0);
  }

  lemma AccountEncode(s: Schema, k: Value)
    requires TxDefs(s) && WellTyped(s, OpaqueFixed(32), k)
    ensures WellTyped(s, Ref(MUXED_ACCOUNT), VUnion(0, k))
    ensures Encode(s, Ref(MUXED_ACCOUNT), VUnion(0, k)) == PutU32(0) + Encode(s, OpaqueFixed(32), k)
  {
    TwoArms(s.defs[MUXED_ACCOUNT].def.arms, 0);
  }

  /** Converting a V0 transaction puts the four-byte key type in front of its encoding and changes
      nothing else, whatever its time bounds, memo and operations are. */
  lemma V0Conversion(s: Schema, v: Value)
    requires TxDefs(s) && WellTyped(s, Ref(TRANSACTION_V0), v)
    ensures v.VSeq? && |v.items| == 7
    ensures WellTyped(s, Ref(TRANSACTION), Converted(v))
    ensures Encode(s, Ref(TRANSACTION), Converted(v)) == Zeros(4) + Encode(s, Ref(TRANSACTION_V0), v)
  {
    V0Shape(s, v);
    ConvertedFields(s, v);
    AccountEncode(s, v.items[0]);
    V1FromFields(s, Converted(v), v);
    V0Head(s, v);
  }

  /** Past the account, the fields of the conversion encode as those of the original. */
  lemma ConvertedFields(s: Schema, v: Value)
    requires TxDefs(s) && v.VSeq? && |v.items| == 7
    requires forall j :: 0 <= j < 7 ==> WellTyped(s, V0_FIELDS[j], v.items[j])
    ensures WellTyped(s, Ref(MUXED_ACCOUNT), Converted(v).items[0])
    ensures WellTyped(s, Ref(PRECONDITIONS), Converted(v).items[3]) && WellTyped(s, Ref(V1_EXT), Converted(v).items[6])
    ensures forall j :: 0 <= j < 7 ==> WellTyped(s, V1_FIELDS[j], Converted(v).items[j])
    ensures forall j :: 1 <= j < 7 ==>
              Encode(s, V0_FIELDS[j], v.items[j]) == Encode(s, V1_FIELDS[j], Converted(v).items[j])
  {
    var f, w := v.items, Converted(v);
    assert WellTyped(s, V0_FIELDS[0], f[0]) && WellTyped(s, V0_FIELDS[3], f[3]) && WellTyped(s, V0_FIELDS[6], f[6]);
    AccountEncode(s, f[0]);
    ConditionsEncode(s, f[3]);
    ExtEncode(s, f[6]);
    hide Encode, WellTyped;
    forall j | 0 <= j < 7
      ensures WellTyped(s, V1_FIELDS[j], w.items[j])
      ensures j > 0 ==> Encode(s, V0_FIELDS[j], f[j]) == Encode(s, V1_FIELDS[j], w.items[j])
    {
      assert WellTyped(s, V0_FIELDS[j], f[j]);
      if j == 0 || j == 3 || j == 6 {
      } else {
        assert j == 1 || j == 2 || j == 4 || j == 5;
      }
    }
  }

  lemma V0Head(s: Schema, v: Value)
    requires v.VSeq? && |v.items| == 7
    requires forall j :: 0 <= j < 7 ==> WellTyped(s, V0_FIELDS[j], v.items[j])
    requires forall j :: 0 <= j < 7 ==> WellTyped(s, V1_FIELDS[j], Converted(v).items[j])
    requires forall j :: 1 <= j < 7 ==>
               Encode(s, V0_FIELDS[j], v.items[j]) == Encode(s, V1_FIELDS[j], Converted(v).items[j])
    requires Encode(s, V1_FIELDS[0], Converted(v).items[0]) == PutU32(0) + Encode(s, V0_FIELDS[0], v.items[0])
    ensures EncodeFields(s, V1_FIELDS, Converted(v), 0) == Zeros(4) + EncodeFields(s, V0_FIELDS, v, 0)
  {
    hide Encode, WellTyped;
    var w := Converted(v);
    SameTail(s, V0_FIELDS, v, V1_FIELDS, w, 1);
    var x, tail := Encode(s, V0_FIELDS[0], v.items[0]), EncodeFields(s, V0_FIELDS, v, 1);
    assert EncodeFields(s, V0_FIELDS, v, 0) == x + tail;
    assert EncodeFields(s, V1_FIELDS, w, 0) == (PutU32(0) + x) + tail;
    assert PutU32(0) == Zeros(4);
    assert (Zeros(4) + x) + tail == Zeros(4) + (x + tail);
  }

  lemma V1FromFields(s: Schema, w: Value, v: Value)
    requires TxDefs(s) && w.VSeq? && |w.items| == 7
    requires forall j :: 0 <= j < 7 ==> WellTyped(s, V1_FIELDS[j], w.items[j])
    ensures WellTyped(s, Ref(TRANSACTION), w)
    ensures Encode(s, Ref(TRANSACTION), w) == EncodeFields(s, V1_FIELDS, w, 0)
  {
  }

  // ---------------------------------------------------------------- both paths

  /** The preimage of the decoding path: the encoded signature payload. */
  ghost function DecodedPreimage(s: Schema, networkId: Bytes, env: Value): (b: Bytes)
    requires TxSchema(s) && WellTyped(s, Ref(ENVELOPE), env) && |networkId| == 32
  {
    EnvelopeShape(s, env);
    PayloadEncodes(s, networkId, env);
    Encode(s, Ref(PAYLOAD), PayloadOf(networkId, env))
  }

  /** HashTransactionInEnvelope. */
  ghost function HashTransactionInEnvelope(s: Schema, c: Crypto, env: Value, passphrase: Bytes)
      : (r: Result<Bytes, HashError>)
    requires TxSchema(s) && WellTyped(s, Ref(ENVELOPE), env)
  {
    if c.blank(passphrase) then Err(EmptyPassphrase)
    else Ok(c.sha(DecodedPreimage(s, c.sha(passphrase), env)))
  }

  /** What the decoding path hashes, in bytes. */
  lemma PayloadEncodes(s: Schema, networkId: Bytes, env: Value)
    requires TxSchema(s) && WellTyped(s, Ref(ENVELOPE), env) && |networkId| == 32
    requires env.VUnion? && env.arm.VSeq? && |env.arm.items| == 2
    requires env.disc == TX_V0 ==> env.arm.items[0].VSeq? && |env.arm.items[0].items| == 7
    ensures WellTyped(s, Ref(PAYLOAD), PayloadOf(networkId, env))
    ensures WellTyped(s, Inner(env.disc), env.arm.items[0])
    ensures Encode(s, Ref(PAYLOAD), PayloadOf(networkId, env))
         == networkId + PutU32(if env.disc == TX_V0 then TX else env.disc)
            + ((if env.disc == TX_V0 then Zeros(4) else []) + Encode(s, Inner(env.disc), env.arm.items[0]))
  {
    hide WellTyped, Encode;
    EnvelopeShape(s, env);
    var tx := env.arm.items[0];
    if env.disc == TX_V0 {
      V0Conversion(s, tx);
      TaggedEncodes(s, networkId, TX, Converted(tx));
    } else {
      TaggedEncodes(s, networkId, env.disc, tx);
    }
  }

  /** The tag in the preimage: ENVELOPE_TYPE_TX (2) for both transaction envelopes, ENVELOPE_TYPE_TX_FEE_BUMP
      (5) for fee bumps. */
  lemma PreimageTag(s: Schema, networkId: Bytes, env: Value)
    requires TxSchema(s) && WellTyped(s, Ref(ENVELOPE), env) && |networkId| == 32
    ensures env.VUnion? && (env.disc == 0 || env.disc == 2 || env.disc == 5)
    ensures networkId + [0, 0, 0, if env.disc == 5 then 5 else 2] <= DecodedPreimage(s, networkId, env)
  {
    hide WellTyped, Encode;
    EnvelopeShape(s, env);
    PayloadEncodes(s, networkId, env);
    assert PutU32(2) == [0, 0, 0, 2] && PutU32(5) == [0, 0, 0, 5];
  }

  lemma TaggedEncodes(s: Schema, networkId: Bytes, tag: int, tx: Value)
    requires TxSchema(s) && |networkId| == 32 && (tag == TX || tag == FEE_BUMP) && WellTyped(s, Inner(tag), tx)
    ensures WellTyped(s, Ref(PAYLOAD), VSeq([VBytes(networkId), VUnion(tag, tx)]))
    ensures Encode(s, Ref(PAYLOAD), VSeq([VBytes(networkId), VUnion(tag, tx)]))
         == networkId + PutU32(tag) + Encode(s, Inner(tag), tx)
  {
    TagEncodes(s, tag, tx);
    var v := VSeq([VBytes(networkId), VUnion(tag, tx)]);
    var fs := [OpaqueFixed(32), Ref(TAGGED)];
    assert WellTyped(s, fs[0], v.items[0]) && WellTyped(s, fs[1], v.items[1]);
    assert Encode(s, fs[0], v.items[0]) == networkId + Zeros(0);
    PayloadFields(s, v);
    hide WellTyped, Encode;
    PairEncodes(s, fs, v);
    var x, t, tx' := networkId, PutU32(tag), Encode(s, Inner(tag), tx);
    assert x + (t + tx') == x + t + tx';
  }

  lemma PayloadFields(s: Schema, v: Value)
    requires TxSchema(s) && v.VSeq? && |v.items| == 2
    requires WellTyped(s, OpaqueFixed(32), v.items[0]) && WellTyped(s, Ref(TAGGED), v.items[1])
    ensures forall j :: 0 <= j < 2 ==> WellTyped(s, [OpaqueFixed(32), Ref(TAGGED)][j], v.items[j])
    ensures WellTyped(s, Ref(PAYLOAD), v)
    ensures Encode(s, Ref(PAYLOAD), v) == EncodeFields(s, [OpaqueFixed(32), Ref(TAGGED)], v, 0)
  {
  }

  lemma TagEncodes(s: Schema, tag: int, tx: Value)
    requires TxSchema(s) && (tag == TX || tag == FEE_BUMP) && WellTyped(s, Inner(tag), tx)
    ensures WellTyped(s, Ref(TAGGED), VUnion(tag, tx))
    ensures Encode(s, Ref(TAGGED), VUnion(tag, tx)) == PutU32(tag) + Encode(s, Inner(tag), tx)
  {
    TwoArms(s.defs[TAGGED].def.arms, tag);
  }

  lemma PairEncodes(s: Schema, fs: seq<Type>, v: Value)
    requires v.VSeq? && |fs| == |v.items| == 2
    requires forall j :: 0 <= j < 2 ==> WellTyped(s, fs[j], v.items[j])
    ensures EncodeFields(s, fs, v, 0) == Encode(s, fs[0], v.items[0]) + Encode(s, fs[1], v.items[1])
  {
    hide Encode, WellTyped;
    assert EncodeFields(s, fs, v, 2) == [];
    assert EncodeFields(s, fs, v, 1) == Encode(s, fs[1], v.items[1]) + [];
  }

  /** The pieces of the view hasher: the tag and the slices written after it. */
  function ViewParts(s: Schema, b: Bytes): (r: Result<(int, seq<Bytes>), HashError>)
    requires TxSchema(s)
  {
    if |b| < 4 then Err(ViewFailed(ShortBuffer))
    else
      var typ := AsInt32(GetU32(b));
      if !(0 <= typ <= LAST_ENVELOPE_TYPE) then Err(ViewFailed(UnknownDiscriminant))
      else if typ != TX_V0 && typ != TX && typ != FEE_BUMP then Err(InvalidEnvelopeType)
      else
        BodyTypes(s, typ);
        match ArmAt(Arm([typ], Some(Body(typ))), b)
        case Err(e) => Err(ViewFailed(e))
        case Ok(body) =>
          match FieldAt(s, Body(typ).name, 0, body)
          case Err(e) => Err(ViewFailed(e))
          case Ok(tx) =>
            match Raw(s, Inner(typ), tx)
            case Err(e) => Err(ViewFailed(e))
            case Ok(raw) => Ok(Slices(typ, raw))
  }

  /** Bytes that name no envelope type, and envelopes that are not transactions, are refused as such. */
  lemma OtherEnvelopes(s: Schema, typ: int, rest: Bytes)
    requires TxSchema(s) && -0x8000_0000 <= typ <= MAX_INT32
    ensures typ < 0 || typ > 10 ==>
              ViewParts(s, PutU32(FromInt32(typ)) + rest) == Err(ViewFailed(UnknownDiscriminant))
    ensures 0 <= typ <= 10 && typ != 0 && typ != 2 && typ != 5 ==>
              ViewParts(s, PutU32(FromInt32(typ)) + rest) == Err(InvalidEnvelopeType)
  {
    PutGetU32(FromInt32(typ), rest);
  }

  /** The tag and slices for the raw bytes of a transaction: a V0 transaction goes as its conversion. */
  function Slices(typ: int, raw: Bytes): (r: (int, seq<Bytes>)) {
    if typ == TX_V0 then (TX, [Zeros(4), raw]) else (typ, [raw])
  }

  lemma BodyTypes(s: Schema, typ: int)
    requires TxSchema(s)
    ensures IsStruct(s, Body(typ).name) && Fields(s, Body(typ).name) == [Inner(typ), SIGNATURES]
    ensures TypeOk(s, Inner(typ))
  {
    assert DefOk(s, Body(typ).name);
  }

  function Join(parts: seq<Bytes>): (b: Bytes) {
    if parts == [] then [] else Join(parts[..|parts| - 1]) + parts[|parts| - 1]
  }

  /** TransactionViewHasher: a digest state and two scratch buffers, reused by every call. */
  class TransactionViewHasher {
    const crypto: Crypto
    const networkId: Bytes
    var absorbed: Bytes
    var tag: Bytes
    var out: Bytes

    constructor (crypto: Crypto, passphrase: Bytes)
      requires !crypto.blank(passphrase)
      ensures this.crypto == crypto && networkId == crypto.sha(passphrase)
    {
      this.crypto := crypto;
      networkId := crypto.sha(passphrase);
      absorbed, tag, out := [], Zeros(4), Zeros(32);
    }

    /** Whatever earlier calls left behind, the digest is of network id, tag and parts. */
    method Sum(typ: int, parts: seq<Bytes>) returns (r: Bytes)
      requires 0 <= typ < TWO32
      modifies this
      ensures r == out == crypto.sha(networkId + PutU32(typ) + Join(parts))
    {
      absorbed := [];
      absorbed := absorbed + networkId;
      tag := PutU32(typ);
      absorbed := absorbed + tag;
      for i := 0 to |parts|
        invariant absorbed == networkId + PutU32(typ) + Join(parts[..i])
      {
        assert parts[..i + 1][..i] == parts[..i];
        absorbed := absorbed + parts[i];
      }
      assert parts[..|parts|] == parts;
      out := crypto.sha(absorbed);
      return out;
    }

    method Hash(s: Schema, b: Bytes) returns (r: Result<Bytes, HashError>)
      requires TxSchema(s)
      modifies this
      ensures r == ViewHash(s, crypto, networkId, b)
    {
      var parts := ViewParts(s, b);
      match parts
      case Err(e) => return Err(e);
      case Ok((typ, slices)) =>
        var h := Sum(typ, slices);
        return Ok(h);
    }
  }

  function ViewHash(s: Schema, c: Crypto, networkId: Bytes, b: Bytes): (r: Result<Bytes, HashError>)
    requires TxSchema(s)
  {
    match ViewParts(s, b)
    case Err(e) => Err(e)
    case Ok((typ, parts)) => Ok(c.sha(networkId + PutU32(typ) + Join(parts)))
  }

  /** The slices the view hasher takes from an encoded envelope. */
  lemma PartsOfEncoding(s: Schema, env: Value, rest: Bytes)
    requires TxSchema(s) && WellTyped(s, Ref(ENVELOPE), env) && DepthOk(0, Need(s, Ref(ENVELOPE), env))
    ensures env.VUnion? && env.arm.VSeq? && |env.arm.items| == 2 && WellTyped(s, Inner(env.disc), env.arm.items[0])
    ensures ViewParts(s, Encode(s, Ref(ENVELOPE), env) + rest)
         == Ok(Slices(env.disc, Encode(s, Inner(env.disc), env.arm.items[0])))
  {
    hide Encode, WellTyped, TxSchema, Need, Accepted, TypeOk, DefOk, EncodeFields, Size;
    EnvelopeShape(s, env);
    EnvelopeDepth(s, env);
    BodyShape(s, env.disc, env.arm);
    var body, b := Encode(s, Body(env.disc), env.arm), Encode(s, Ref(ENVELOPE), env) + rest;
    PrefixWord(env.disc, body, rest, b);
    FieldOnEncode(s, Body(env.disc).name, env.arm, 0, rest);
    TxDepth(s, env.disc, env.arm);
    RawOnEncode(s, Inner(env.disc), env.arm.items[0], EncodeFields(s, Fields(s, Body(env.disc).name), env.arm, 1)
        + rest);
  }

  lemma EnvelopeDepth(s: Schema, env: Value)
    requires TxSchema(s) && WellTyped(s, Ref(ENVELOPE), env) && DepthOk(0, Need(s, Ref(ENVELOPE), env))
    requires env.VUnion? && WellTyped(s, Body(env.disc), env.arm)
    ensures DepthOk(0, Need(s, Body(env.disc), env.arm))
  {
    ThreeArms(s.defs[ENVELOPE].def.arms, env.disc);
  }

  lemma TxDepth(s: Schema, disc: int, body: Value)
    requires TxSchema(s) && WellTyped(s, Body(disc), body) && DepthOk(0, Need(s, Body(disc), body))
    requires body.VSeq? && |body.items| == 2 && WellTyped(s, Inner(disc), body.items[0])
    ensures DepthOk(0, Need(s, Inner(disc), body.items[0]))
  {
    BodyShape(s, disc, body);
    RowsOfStruct(s, Body(disc).name, body);
  }

  /** A hasher made for the passphrase, applied to the bytes. */
  function HashView(s: Schema, c: Crypto, b: Bytes, passphrase: Bytes): (r: Result<Bytes, HashError>)
    requires TxSchema(s)
  {
    if c.blank(passphrase) then Err(EmptyPassphrase) else ViewHash(s, c, c.sha(passphrase), b)
  }

  /** Hashing the wire bytes of any envelope gives the hash of the decoded envelope. */
  lemma ViewHashIsDecodedHash(s: Schema, c: Crypto, env: Value, rest: Bytes, passphrase: Bytes)
    requires TxSchema(s) && WellTyped(s, Ref(ENVELOPE), env) && DepthOk(0, Need(s, Ref(ENVELOPE), env))
    ensures HashView(s, c, Encode(s, Ref(ENVELOPE), env) + rest, passphrase)
         == HashTransactionInEnvelope(s, c, env, passphrase)
    ensures HashView(s, c, Encode(s, Ref(ENVELOPE), env) + rest, passphrase).Ok? <==> !c.blank(passphrase)
  {
    hide ViewParts, TxSchema, WellTyped, Encode, Need, DepthOk, Join, Slices;
    PartsOfEncoding(s, env, rest);
    EnvelopeShape(s, env);
    PayloadEncodes(s, c.sha(passphrase), env);
    SlicesJoin(env.disc, Encode(s, Inner(env.disc), env.arm.items[0]));
  }

  lemma SlicesJoin(typ: int, raw: Bytes)
    ensures Slices(typ, raw).0 == (if typ == TX_V0 then TX else typ)
    ensures Join(Slices(typ, raw).1) == (if typ == TX_V0 then Zeros(4) else []) + raw
  {
    JoinOne(raw);
    JoinTwo(Zeros(4), raw);
  }

  lemma JoinOne(x: Bytes)
    ensures Join([x]) == [] + x
  {
    assert [x][..0] == [];
  }

  lemma JoinTwo(x: Bytes, y: Bytes)
    ensures Join([x, y]) == x + y
  {
    JoinOne(x);
    assert [x, y][..1] == [x];
  }

  /** On bytes that pass full validation the view hasher cannot fail, and its answer is the hash of
      the one envelope they carry. */
  lemma ValidBytesHash(s: Schema, c: Crypto, b: Bytes, passphrase: Bytes) returns (env: Value)
    requires TxSchema(s) && Valid(s, Ref(ENVELOPE), b, 0).Ok?
    ensures WellTyped(s, Ref(ENVELOPE), env) && Encode(s, Ref(ENVELOPE), env) <= b
    ensures HashView(s, c, b, passphrase) == HashTransactionInEnvelope(s, c, env, passphrase)
  {
    hide HashView, HashTransactionInEnvelope, Encode, WellTyped, Valid;
    env := ValidIsEncoding(s, Ref(ENVELOPE), b, 0);
    var x := Encode(s, Ref(ENVELOPE), env);
    CarriesVerdict(s, Ref(ENVELOPE), b, 0, env);
    assert b == x + b[|x|..];
    ViewHashIsDecodedHash(s, c, env, b[|x|..], passphrase);
  }
}
