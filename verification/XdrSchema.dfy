/** XDR schemas as the view generator sees them after typedef resolution, the values they
    describe, and the encoder of RFC 4506 that the emitted views are measured against. */
module XdrSchema {
  import opened Common

  /** The fixed-width scalars (sections 4.1-4.7 of RFC 4506). Floats are carried as bit patterns. */
  datatype Kind = Int | Uint | Hyper | Uhyper | Bool | Float | Double

  /** A resolved ViewType. For opaques and variable arrays a `max` of 0 means "unbounded". */
  datatype Type =
    | Scalar(kind: Kind)
    | OpaqueFixed(size: nat)
    | OpaqueVar(max: nat)
    | Optional(elem: Type)
    | Array(elem: Type, count: nat)
    | VarArray(elem: Type, max: nat)
    | Ref(name: string)

  /** One union arm: the discriminants that select it and its body, None for a void arm. */
  datatype Arm = Arm(cases: seq<int>, body: Option<Type>)

  datatype Def =
    | StructDef(fields: seq<Type>)
    | UnionDef(arms: seq<Arm>)
    | EnumDef(members: seq<int>)

  /** A definition of the IR together with the fixed_size the IR records for it. */
  datatype DefWrap = DefWrap(def: Def, fixedSize: Option<nat>)

  /** A schema. `rank` orders the fixed-size definitions by containment: a type of fixed size
      cannot contain itself, so the types it is built from can be ranked below it. */
  datatype Schema = Schema(defs: map<string, DefWrap>, rank: map<string, nat>)

  datatype Value =
    | VNum(n: int)
    | VBytes(bytes: Bytes)
    | VAbsent
    | VPresent(inner: Value)
    | VSeq(items: seq<Value>)
    | VUnion(disc: int, arm: Value)
    | VVoid

  // ---------------------------------------------------------------- scalars

  function Width(k: Kind): (w: nat)
    ensures w == 4 || w == 8
  {
    match k
    case Hyper => 8
    case Uhyper => 8
    case Double => 8
    case _ => 4
  }

  predicate InRange(k: Kind, n: int) {
    match k
    case Int => -0x8000_0000 <= n <= MAX_INT32
    case Uint => 0 <= n < TWO32
    case Float => 0 <= n < TWO32
    case Bool => 0 <= n <= 1
    case Hyper => -0x8000_0000_0000_0000 <= n <= MAX_INT64
    case Uhyper => 0 <= n < TWO64
    case Double => 0 <= n < TWO64
  }

  /** The unsigned word a scalar is sent as: two's complement of its width. */
  function Word(k: Kind, n: int): (w: int)
    requires InRange(k, n)
    ensures 0 <= w < (if Width(k) == 4 then TWO32 else TWO64)
  {
    if n >= 0 then n else if Width(k) == 4 then n + TWO32 else n + TWO64
  }

  function EncodeScalar(k: Kind, n: int): (b: Bytes)
    requires InRange(k, n)
    ensures |b| == Width(k)
  {
    var w := Word(k, n);
    if Width(k) == 4 then PutU32(w) else PutU32(w / TWO32) + PutU32(w % TWO32)
  }

  /** The scalar a word stands for. */
  function DecodeScalar(k: Kind, b: Bytes): (n: int)
    requires |b| >= Width(k)
  {
    match k
    case Int => AsInt32(GetU32(b))
    case Hyper =>
      var w := GetU32(b) * TWO32 + GetU32(b[4..]);
      if w <= MAX_INT64 then w else w - TWO64
    case Uhyper => GetU32(b) * TWO32 + GetU32(b[4..])
    case Double => GetU32(b) * TWO32 + GetU32(b[4..])
    case _ => GetU32(b)
  }

  /** The number a byte string stands for, most significant byte first. */
  function BigEndianValue(b: Bytes): (n: nat) {
    if b == [] then 0 else 0x100 * BigEndianValue(b[..|b| - 1]) + b[|b| - 1]
  }

  /** A scalar is sent most significant byte first, in two's complement. */
  lemma ScalarBytes(k: Kind, n: int)
    requires InRange(k, n)
    ensures BigEndianValue(EncodeScalar(k, n)) == if n >= 0 then n else if Width(k) == 4 then n + TWO32 else n + TWO64
  {
    var w := Word(k, n);
    if Width(k) == 4 {
      WordValue([], w);
    } else {
      WordValue([], w / TWO32);
      WordValue(PutU32(w / TWO32), w % TWO32);
    }
  }

  lemma WordValue(head: Bytes, w: int)
    requires 0 <= w < TWO32
    ensures BigEndianValue(head + PutU32(w)) == TWO32 * BigEndianValue(head) + w
    ensures BigEndianValue(PutU32(w)) == w
  {
    FourBytes(head, PutU32(w));
    FourBytes([], PutU32(w));
    assert [] + PutU32(w) == PutU32(w);
    BigEndian(w);
  }

  lemma OneByte(head: Bytes, x: byte)
    ensures BigEndianValue(head + [x]) == 0x100 * BigEndianValue(head) + x
  {
    assert (head + [x])[..|head|] == head;
  }

  lemma FourBytes(head: Bytes, b: Bytes)
    requires |b| == 4
    ensures var b0: int, b1: int, b2: int, b3: int := b[0], b[1], b[2], b[3];
            BigEndianValue(head + b)
            == TWO32 * BigEndianValue(head) + b0 * 0x100_0000 + b1 * 0x1_0000 + b2 * 0x100 + b3
  {
    var x := head + [b[0]];
    var y := x + [b[1]];
    var z := y + [b[2]];
    assert head + b == z + [b[3]];
    OneByte(head, b[0]);
    OneByte(x, b[1]);
    OneByte(y, b[2]);
    OneByte(z, b[3]);
  }

  lemma ScalarRoundTrip(k: Kind, n: int, rest: Bytes)
    requires InRange(k, n)
    ensures DecodeScalar(k, EncodeScalar(k, n) + rest) == n
  {
    var w := Word(k, n);
    if Width(k) == 4 {
      PutGetU32(w, rest);
    } else {
      var hi, lo := PutU32(w / TWO32), PutU32(w % TWO32);
      assert hi + lo + rest == hi + (lo + rest);
      PutGetU32(w / TWO32, lo + rest);
      SplitAt(hi, lo + rest);
      PutGetU32(w % TWO32, rest);
    }
  }

  lemma ScalarInverse(k: Kind, b: Bytes)
    requires |b| >= Width(k)
    requires k.Bool? ==> GetU32(b) <= 1
    ensures InRange(k, DecodeScalar(k, b))
    ensures EncodeScalar(k, DecodeScalar(k, b)) == b[..Width(k)]
  {
    GetPutU32(b);
    if Width(k) == 8 {
      GetPutU32(b[4..]);
      var hi, lo := GetU32(b), GetU32(b[4..]);
      assert Word(k, DecodeScalar(k, b)) == hi * TWO32 + lo;
      assert (hi * TWO32 + lo) / TWO32 == hi && (hi * TWO32 + lo) % TWO32 == lo;
      assert b[..8] == b[..4] + b[4..][..4];
    }
  }

  // ---------------------------------------------------------------- padding

  /** Bytes of zero padding after `n` bytes of opaque data (section 4.9 of RFC 4506). */
  function Pad(n: nat): (p: nat)
    ensures p < 4 && (n + p) % 4 == 0
  {
    (4 - n % 4) % 4
  }

  // ---------------------------------------------------------------- unions

  /** Index of the first arm selected by `disc`, as the emitted switch picks it. */
  function ArmIndex(arms: seq<Arm>, disc: int): (r: Option<nat>)
    ensures r.Some? ==> r.value < |arms| && disc in arms[r.value].cases
    ensures r.None? <==> forall i :: 0 <= i < |arms| ==> disc !in arms[i].cases
  {
    if arms == [] then None
    else if disc in arms[0].cases then Some(0)
    else
      var rest := ArmIndex(arms[1..], disc);
      if rest.Some? then Some(1 + rest.value)
      else
        assert forall i :: 0 <= i < |arms| - 1 ==> arms[1..][i] == arms[i + 1];
        assert forall i :: 1 <= i < |arms| ==> arms[i] == arms[1..][i - 1];
        None
  }

  // ---------------------------------------------------------------- typing

  /** `v` is a value of type `t`. Variable lengths stop at MaxInt32: the views read every
      length and count through safeUint32ToInt, which refuses anything larger. */
  ghost predicate WellTyped(s: Schema, t: Type, v: Value)
    decreases v
  {
    match t
    case Scalar(k) => v.VNum? && InRange(k, v.n)
    case OpaqueFixed(n) => v.VBytes? && |v.bytes| == n
    case OpaqueVar(max) => v.VBytes? && |v.bytes| <= MAX_INT32 && (max > 0 ==> |v.bytes| <= max)
    case Optional(e) => v.VAbsent? || (v.VPresent? && WellTyped(s, e, v.inner))
    case Array(e, n) => v.VSeq? && |v.items| == n && forall i :: 0 <= i < n ==> WellTyped(s, e, v.items[i])
    case VarArray(e, max) =>
      && v.VSeq? && |v.items| <= MAX_INT32 && (max > 0 ==> |v.items| <= max)
      && forall i :: 0 <= i < |v.items| ==> WellTyped(s, e, v.items[i])
    case Ref(name) =>
      && name in s.defs
      && match s.defs[name].def
         case StructDef(fs) =>
           v.VSeq? && |v.items| == |fs| && forall i :: 0 <= i < |fs| ==> WellTyped(s, fs[i], v.items[i])
         case UnionDef(arms) =>
           && v.VUnion? && -0x8000_0000 <= v.disc <= MAX_INT32
           && var ix := ArmIndex(arms, v.disc);
              && ix.Some?
              && (if arms[ix.value].body.None? then v.arm.VVoid? else WellTyped(s, arms[ix.value].body.value, v.arm))
         case EnumDef(ms) => v.VNum? && v.n in ms && -0x8000_0000 <= v.n <= MAX_INT32
  }

  // ---------------------------------------------------------------- encoder

  /** The encoding of a value (section 4 of RFC 4506). */
  ghost function Encode(s: Schema, t: Type, v: Value): (b: Bytes)
    requires WellTyped(s, t, v)
    decreases v, 1, 0
  {
    match t
    case Scalar(k) => EncodeScalar(k, v.n)
    case OpaqueFixed(n) => v.bytes + Zeros(Pad(n))
    case OpaqueVar(_) => EncodeOpaque(v.bytes)
    case Optional(e) => if v.VAbsent? then PutU32(0) else PutU32(1) + Encode(s, e, v.inner)
    case Array(e, n) => EncodeElems(s, e, v, 0)
    case VarArray(e, _) => PutU32(|v.items|) + EncodeElems(s, e, v, 0)
    case Ref(name) =>
      match s.defs[name].def
      case StructDef(fs) => EncodeFields(s, fs, v, 0)
      case UnionDef(arms) =>
        var body := arms[ArmIndex(arms, v.disc).value].body;
        PutU32(FromInt32(v.disc)) + (if body.None? then [] else Encode(s, body.value, v.arm))
      case EnumDef(_) => PutU32(FromInt32(v.n))
  }

  /** Elements `i..` of an array, end to end (sections 4.12 and 4.13 of RFC 4506). */
  ghost function EncodeElems(s: Schema, e: Type, v: Value, i: nat): (b: Bytes)
    requires v.VSeq? && i <= |v.items|
    requires forall j :: 0 <= j < |v.items| ==> WellTyped(s, e, v.items[j])
    decreases v, 0, |v.items| - i
  {
    if i == |v.items| then [] else Encode(s, e, v.items[i]) + EncodeElems(s, e, v, i + 1)
  }

  /** Fields `i..` of a struct, end to end (section 4.14 of RFC 4506). */
  ghost function EncodeFields(s: Schema, fs: seq<Type>, v: Value, i: nat): (b: Bytes)
    requires v.VSeq? && |v.items| == |fs| && i <= |fs|
    requires forall j :: 0 <= j < |fs| ==> WellTyped(s, fs[j], v.items[j])
    decreases v, 0, |fs| - i
  {
    if i == |fs| then [] else Encode(s, fs[i], v.items[i]) + EncodeFields(s, fs, v, i + 1)
  }

  // ---------------------------------------------------------------- facts about encodings

  /** Every encoding is a whole number of four-byte blocks (section 3 of RFC 4506). */
  lemma {:induction false} EncodeAligned(s: Schema, t: Type, v: Value)
    requires WellTyped(s, t, v)
    ensures |Encode(s, t, v)| % 4 == 0
    decreases v, 1, 0
  {
    match t
    case Optional(e) =>
      if v.VPresent? {
        EncodeAligned(s, e, v.inner);
        SumAligned(4, |Encode(s, e, v.inner)|);
      }
    case Array(e, _) => ElemsAligned(s, e, v, 0);
    case VarArray(e, _) =>
      ElemsAligned(s, e, v, 0);
      SumAligned(4, |EncodeElems(s, e, v, 0)|);
    case Ref(name) =>
      match s.defs[name].def {
        case StructDef(fs) => FieldsAligned(s, fs, v, 0);
        case UnionDef(arms) =>
          var body := arms[ArmIndex(arms, v.disc).value].body;
          if body.Some? {
            EncodeAligned(s, body.value, v.arm);
            SumAligned(4, |Encode(s, body.value, v.arm)|);
          }
        case EnumDef(_) =>
      }
    case OpaqueVar(_) => SumAligned(4, |v.bytes| + Pad(|v.bytes|));
    case _ =>
  }

  lemma SumAligned(x: nat, y: nat)
    requires x % 4 == 0 && y % 4 == 0
    ensures (x + y) % 4 == 0
  {
  }

  lemma {:induction false} ElemsAligned(s: Schema, e: Type, v: Value, i: nat)
    requires v.VSeq? && i <= |v.items|
    requires forall j :: 0 <= j < |v.items| ==> WellTyped(s, e, v.items[j])
    ensures |EncodeElems(s, e, v, i)| % 4 == 0
    decreases v, 0, |v.items| - i
  {
    hide Encode, WellTyped;
    if i < |v.items| {
      EncodeAligned(s, e, v.items[i]);
      ElemsAligned(s, e, v, i + 1);
      SumAligned(|Encode(s, e, v.items[i])|, |EncodeElems(s, e, v, i + 1)|);
    }
  }

  lemma {:induction false} FieldsAligned(s: Schema, fs: seq<Type>, v: Value, i: nat)
    requires v.VSeq? && |v.items| == |fs| && i <= |fs|
    requires forall j :: 0 <= j < |fs| ==> WellTyped(s, fs[j], v.items[j])
    ensures |EncodeFields(s, fs, v, i)| % 4 == 0
    decreases v, 0, |fs| - i
  {
    hide Encode, WellTyped;
    if i < |fs| {
      EncodeAligned(s, fs[i], v.items[i]);
      FieldsAligned(s, fs, v, i + 1);
      SumAligned(|Encode(s, fs[i], v.items[i])|, |EncodeFields(s, fs, v, i + 1)|);
    }
  }

  function EncodeOpaque(x: Bytes): (b: Bytes)
    requires |x| < TWO32
    ensures |b| == 4 + |x| + Pad(|x|)
  {
    PutU32(|x|) + x + Zeros(Pad(|x|))
  }

  lemma OpaquePrefixFree(x: Bytes, r: Bytes, x': Bytes, r': Bytes)
    requires |x| < TWO32 && |x'| < TWO32
    requires EncodeOpaque(x) + r == EncodeOpaque(x') + r'
    ensures x == x' && r == r'
  {
    var z, z' := Zeros(Pad(|x|)), Zeros(Pad(|x'|));
    assert EncodeOpaque(x) + r == PutU32(|x|) + (x + z + r);
    assert EncodeOpaque(x') + r' == PutU32(|x'|) + (x' + z' + r');
    ConcatCancel(PutU32(|x|), x + z + r, PutU32(|x'|), x' + z' + r');
    PutGetU32(|x|, []);
    PutGetU32(|x'|, []);
    assert PutU32(|x|) + [] == PutU32(|x'|) + [];
    ConcatCancel(x + z, r, x' + z', r');
    ConcatCancel(x, z, x', z');
  }

  /** Encodings are prefix-free and injective: the bytes and the type determine both the value
      and where it ends, whatever follows it. */
  lemma {:induction false} EncodePrefixFree(s: Schema, t: Type, v: Value, r: Bytes, v': Value, r': Bytes)
    requires WellTyped(s, t, v) && WellTyped(s, t, v')
    requires Encode(s, t, v) + r == Encode(s, t, v') + r'
    ensures v == v' && r == r'
    decreases v, 1, 0
  {
    var b := Encode(s, t, v) + r;
    match t
    case Scalar(k) =>
      ConcatCancel(Encode(s, t, v), r, Encode(s, t, v'), r');
      ScalarRoundTrip(k, v.n, r);
      ScalarRoundTrip(k, v'.n, r');
    case OpaqueFixed(n) =>
      ConcatCancel(Encode(s, t, v), r, Encode(s, t, v'), r');
      ConcatCancel(v.bytes, Zeros(Pad(n)), v'.bytes, Zeros(Pad(n)));
    case OpaqueVar(_) => OpaquePrefixFree(v.bytes, r, v'.bytes, r');
    case Optional(e) =>
      var tail := if v.VPresent? then Encode(s, e, v.inner) else [];
      var tail' := if v'.VPresent? then Encode(s, e, v'.inner) else [];
      PrefixWord(if v.VPresent? then 1 else 0, tail, r, b);
      PrefixWord(if v'.VPresent? then 1 else 0, tail', r', b);
      if v.VPresent? { EncodePrefixFree(s, e, v.inner, r, v'.inner, r'); }
    case Array(e, _) => ElemsPrefixFree(s, e, v, r, v', r', 0);
    case VarArray(e, _) =>
      PrefixWord(|v.items|, EncodeElems(s, e, v, 0), r, b);
      PrefixWord(|v'.items|, EncodeElems(s, e, v', 0), r', b);
      ElemsPrefixFree(s, e, v, r, v', r', 0);
    case Ref(name) =>
      match s.defs[name].def {
        case StructDef(fs) => FieldsPrefixFree(s, fs, v, r, v', r', 0);
        case UnionDef(arms) =>
          var body := arms[ArmIndex(arms, v.disc).value].body;
          var body' := arms[ArmIndex(arms, v'.disc).value].body;
          PrefixWord(FromInt32(v.disc), if body.None? then [] else Encode(s, body.value, v.arm), r, b);
          PrefixWord(FromInt32(v'.disc), if body'.None? then [] else Encode(s, body'.value, v'.arm), r', b);
          assert v.disc == v'.disc;
          if body.Some? { EncodePrefixFree(s, body.value, v.arm, r, v'.arm, r'); }
        case EnumDef(_) =>
          PrefixWord(FromInt32(v.n), [], r, b);
          PrefixWord(FromInt32(v'.n), [], r', b);
      }
  }

  /** What a leading word and its tail become once the encoding is followed by more bytes. */
  lemma PrefixWord(w: int, tail: Bytes, r: Bytes, b: Bytes)
    requires 0 <= w < TWO32 && b == PutU32(w) + tail + r
    ensures |b| >= 4 && GetU32(b) == w && b[4..] == tail + r && b[..4] == PutU32(w)
  {
    assert b == PutU32(w) + (tail + r);
    PutGetU32(w, tail + r);
  }

  lemma {:induction false} ElemsPrefixFree(s: Schema, e: Type, v: Value, r: Bytes, v': Value, r': Bytes, i: nat)
    requires v.VSeq? && v'.VSeq? && |v.items| == |v'.items| && i <= |v.items|
    requires forall j :: 0 <= j < |v.items| ==> WellTyped(s, e, v.items[j])
    requires forall j :: 0 <= j < |v'.items| ==> WellTyped(s, e, v'.items[j])
    requires EncodeElems(s, e, v, i) + r == EncodeElems(s, e, v', i) + r'
    ensures v.items[i..] == v'.items[i..] && r == r'
    decreases v, 0, |v.items| - i
  {
    hide Encode, WellTyped;
    if i < |v.items| {
      var x, y := EncodeElems(s, e, v, i + 1) + r, EncodeElems(s, e, v', i + 1) + r';
      assert EncodeElems(s, e, v, i) + r == Encode(s, e, v.items[i]) + x;
      assert EncodeElems(s, e, v', i) + r' == Encode(s, e, v'.items[i]) + y;
      EncodePrefixFree(s, e, v.items[i], x, v'.items[i], y);
      ElemsPrefixFree(s, e, v, r, v', r', i + 1);
      assert v.items[i..] == [v.items[i]] + v.items[i + 1..];
      assert v'.items[i..] == [v'.items[i]] + v'.items[i + 1..];
    } else {
      assert [] + r == r && [] + r' == r';
    }
  }

  lemma {:induction false} FieldsPrefixFree(s: Schema, fs: seq<Type>, v: Value, r: Bytes, v': Value, r': Bytes, i: nat)
    requires v.VSeq? && v'.VSeq? && |v.items| == |fs| == |v'.items| && i <= |fs|
    requires forall j :: 0 <= j < |fs| ==> WellTyped(s, fs[j], v.items[j])
    requires forall j :: 0 <= j < |fs| ==> WellTyped(s, fs[j], v'.items[j])
    requires EncodeFields(s, fs, v, i) + r == EncodeFields(s, fs, v', i) + r'
    ensures v.items[i..] == v'.items[i..] && r == r'
    decreases v, 0, |fs| - i
  {
    hide Encode, WellTyped;
    if i < |fs| {
      var x, y := EncodeFields(s, fs, v, i + 1) + r, EncodeFields(s, fs, v', i + 1) + r';
      assert EncodeFields(s, fs, v, i) + r == Encode(s, fs[i], v.items[i]) + x;
      assert EncodeFields(s, fs, v', i) + r' == Encode(s, fs[i], v'.items[i]) + y;
      EncodePrefixFree(s, fs[i], v.items[i], x, v'.items[i], y);
      FieldsPrefixFree(s, fs, v, r, v', r', i + 1);
      assert v.items[i..] == [v.items[i]] + v.items[i + 1..];
      assert v'.items[i..] == [v'.items[i]] + v'.items[i + 1..];
    } else {
      assert [] + r == r && [] + r' == r';
    }
  }
}
