/** What the emitted view code promises, for every accepted schema. */
module XdrViewProofs {
  import opened Common
  import opened XdrSchema
  import opened XdrMinSize
  import opened XdrViews

  // ---------------------------------------------------------------- valid() implies size()

  /** The invariant stated beside the View interface, on every buffer: when valid() returns n,
      size() returns the same n and the n bytes are there. */
  lemma {:induction false} ValidImpliesSize(s: Schema, t: Type, b: Bytes, d: nat)
    requires Accepted(s) && TypeOk(s, t) && Valid(s, t, b, d).Ok?
    ensures Valid(s, t, b, d).value <= |b|
    ensures Size(s, t, b, d) == Valid(s, t, b, d)
    decreases Lv(s, t, d), Height(s, t), 2, 0
  {
    match t
    case Optional(e) =>
      if GetU32(b) == 1 { ValidImpliesSize(s, e, b[4..], d + 1); }
    case Array(e, n) => ValidImpliesSizeArray(s, t, b, d);
    case VarArray(e, max) => ValidImpliesSizeArray(s, t, b, d);
    case Ref(name) => ValidImpliesSizeNamed(s, name, b, d);
    case _ =>
  }

  lemma {:induction false} ValidImpliesSizeArray(s: Schema, t: Type, b: Bytes, d: nat)
    requires Accepted(s) && TypeOk(s, t) && (t.Array? || t.VarArray?) && Valid(s, t, b, d).Ok?
    ensures Valid(s, t, b, d).value <= |b|
    ensures Size(s, t, b, d) == Valid(s, t, b, d)
    decreases Lv(s, t, d), Height(s, t), 1, 0
  {
    if t.VarArray? {
      ValidImpliesSizeElems(s, t, ArrayCount(b, t.max).value, b, 4, d);
    } else {
      ValidImpliesSizeElems(s, t, t.count, b, 0, d);
    }
  }

  lemma {:induction false} ValidImpliesSizeNamed(s: Schema, name: string, b: Bytes, d: nat)
    requires Accepted(s) && name in s.defs && Valid(s, Ref(name), b, d).Ok?
    ensures Valid(s, Ref(name), b, d).value <= |b|
    ensures Size(s, Ref(name), b, d) == Valid(s, Ref(name), b, d)
    decreases Lv(s, Ref(name), d), Height(s, Ref(name)), 1, 0
  {
    assert DefOk(s, name);
    match s.defs[name].def
    case StructDef(fs) => ValidImpliesSizeFields(s, name, 0, b, 0, d);
    case UnionDef(arms) =>
      var ix := ArmIndex(arms, AsInt32(GetU32(b))).value;
      var body := arms[ix].body;
      if body.Some? {
        assert s.defs[name].fixedSize.Some? ==> FixedBelow(s, name, body.value);
        ValidImpliesSize(s, body.value, b[4..], d + 1);
      }
    case EnumDef(_) =>
  }

  /** On a field valid() accepts, the shortcuts advance exactly as size() would. */
  lemma ShortcutsAgree(s: Schema, t: Type, b: Bytes, off: nat, c: nat)
    requires Accepted(s) && TypeOk(s, t) && off <= |b|
    requires Valid(s, t, b[off..], c).Ok? && Valid(s, t, b[off..], c).value <= |b| - off
    requires Size(s, t, b[off..], c) == Valid(s, t, b[off..], c)
    ensures FieldStep(s, t, b, off, c) == Size(s, t, b[off..], c)
  {
    if VoidCase0(s, t) { assert DefOk(s, t.name); }
  }

  lemma {:induction false} ValidImpliesSizeElems(s: Schema, t: Type, k: nat, b: Bytes, off: nat, d: nat)
    requires Accepted(s) && TypeOk(s, t) && (t.Array? || t.VarArray?) && d <= MAX_DEPTH
    requires off <= |b| && ValidElems(s, t, k, b, off, d).Ok?
    ensures off <= ValidElems(s, t, k, b, off, d).value <= |b|
    ensures SizeElems(s, t.elem, k, b, off, d + 1) == ValidElems(s, t, k, b, off, d)
    ensures FixedSize(s, t.elem).Some? ==>
              ValidElems(s, t, k, b, off, d).value == off + k * FixedSize(s, t.elem).value
    decreases Lv(s, t, d), Height(s, t), 0, k
  {
    hide Valid;
    if k > 0 {
      ValidImpliesSize(s, t.elem, b[off..], d + 1);
      var sz := Valid(s, t.elem, b[off..], d + 1).value;
      ValidImpliesSizeElems(s, t, k - 1, b, off + sz, d);
      if FixedSize(s, t.elem).Some? { MulSucc(FixedSize(s, t.elem).value, k); }
    }
  }

  lemma {:induction false} ValidImpliesSizeFields(s: Schema, name: string, i: nat, b: Bytes, off: nat, d: nat)
    requires Accepted(s) && name in s.defs && s.defs[name].def.StructDef?
    requires i <= |s.defs[name].def.fields| && off <= |b|
    requires s.defs[name].fixedSize.None? ==> d <= MAX_DEPTH
    requires ValidFields(s, name, i, b, off, d).Ok?
    ensures off <= ValidFields(s, name, i, b, off, d).value <= |b|
    ensures DefOk(s, name) && SizeFields(s, s.defs[name].def.fields, i, b, off, d + 1)
        == ValidFields(s, name, i, b, off, d)
    ensures s.defs[name].fixedSize.Some? ==>
              ValidFields(s, name, i, b, off, d).value == off + SumFixed(s, s.defs[name].def.fields, i)
    decreases Lv(s, Ref(name), d), Height(s, Ref(name)), 0, |s.defs[name].def.fields| - i
  {
    hide Valid, Size;
    assert DefOk(s, name);
    var fs := s.defs[name].def.fields;
    if i < |fs| {
      assert s.defs[name].fixedSize.Some? ==> FixedBelow(s, name, fs[i]);
      ValidImpliesSize(s, fs[i], b[off..], d + 1);
      var sz := Valid(s, fs[i], b[off..], d + 1).value;
      ShortcutsAgree(s, fs[i], b, off, d + 1);
      ValidImpliesSizeFields(s, name, i + 1, b, off + sz, d);
    }
  }

  // ---------------------------------------------------------------- valid() on encodings

  function Max(x: nat, y: nat): (m: nat) {
    if x < y then y else x
  }

  /** Depth a container asks for around children that ask for `m`: a container that checks the
      depth always asks for itself, a fixed-size one only passes its children's demand on. */
  function Around(checks: bool, m: nat): (n: nat) {
    if checks || m > 0 then 1 + m else 0
  }

  /** How many levels of depth valid() needs for this value. */
  ghost function Need(s: Schema, t: Type, v: Value): (n: nat)
    requires WellTyped(s, t, v)
    decreases v, 1, 0
  {
    match t
    case Optional(e) => Around(true, if v.VAbsent? then 0 else Need(s, e, v.inner))
    case Array(e, _) => Around(true, NeedElems(s, e, v, 0))
    case VarArray(e, _) => Around(true, NeedElems(s, e, v, 0))
    case Ref(name) =>
      (match s.defs[name].def
       case StructDef(fs) => Around(s.defs[name].fixedSize.None?, NeedFields(s, fs, v, 0))
       case UnionDef(arms) =>
         var body := arms[ArmIndex(arms, v.disc).value].body;
         Around(s.defs[name].fixedSize.None?, if body.None? then 0 else Need(s, body.value, v.arm))
       case EnumDef(_) => 0)
    case _ => 0
  }

  ghost function NeedElems(s: Schema, e: Type, v: Value, i: nat): (n: nat)
    requires v.VSeq? && i <= |v.items|
    requires forall j :: 0 <= j < |v.items| ==> WellTyped(s, e, v.items[j])
    decreases v, 0, |v.items| - i
  {
    if i == |v.items| then 0 else Max(Need(s, e, v.items[i]), NeedElems(s, e, v, i + 1))
  }

  ghost function NeedFields(s: Schema, fs: seq<Type>, v: Value, i: nat): (n: nat)
    requires v.VSeq? && |v.items| == |fs| && i <= |fs|
    requires forall j :: 0 <= j < |fs| ==> WellTyped(s, fs[j], v.items[j])
    decreases v, 0, |fs| - i
  {
    if i == |fs| then 0 else Max(Need(s, fs[i], v.items[i]), NeedFields(s, fs, v, i + 1))
  }

  predicate DepthOk(d: nat, need: nat) {
    need == 0 || d + need <= 1501
  }

  function Verdict(d: nat, need: nat, n: nat): (r: Extent) {
    if DepthOk(d, need) then Ok(n) else Err(DepthExceeded)
  }

  /** On a buffer holding the encoding of a value followed by anything, valid() returns the length
      of that encoding if the value fits the depth limit, and the depth error otherwise. */
  lemma {:induction false} ValidOnEncode(s: Schema, t: Type, v: Value, rest: Bytes, d: nat)
    requires Accepted(s) && TypeOk(s, t) && WellTyped(s, t, v)
    ensures Valid(s, t, Encode(s, t, v) + rest, d) == Verdict(d, Need(s, t, v), |Encode(s, t, v)|)
    decreases v, 2, 0
  {
    match t
    case Optional(e) => ValidOptionalOnEncode(s, t, v, rest, d);
    case Array(_, _) => ValidArrayOnEncode(s, t, v, rest, d);
    case VarArray(_, _) => ValidArrayOnEncode(s, t, v, rest, d);
    case Ref(name) => ValidNamedOnEncode(s, name, v, rest, d);
    case _ => ValidLeafOnEncode(s, t, v, rest, d);
  }

  lemma ValidLeafOnEncode(s: Schema, t: Type, v: Value, rest: Bytes, d: nat)
    requires Accepted(s) && TypeOk(s, t) && WellTyped(s, t, v)
    requires t.Scalar? || t.OpaqueFixed? || t.OpaqueVar?
    ensures Valid(s, t, Encode(s, t, v) + rest, d) == Ok(|Encode(s, t, v)|)
  {
    match t
    case Scalar(k) => ValidScalar(k, v.n, rest);
    case OpaqueFixed(n) => assert (Encode(s, t, v) + rest)[n..n + Pad(n)] == Zeros(Pad(n));
    case OpaqueVar(_) => ValidOpaque(v.bytes, rest);
  }

  lemma {:induction false} ValidOptionalOnEncode(s: Schema, t: Type, v: Value, rest: Bytes, d: nat)
    requires Accepted(s) && TypeOk(s, t) && t.Optional? && WellTyped(s, t, v)
    ensures Valid(s, t, Encode(s, t, v) + rest, d) == Verdict(d, Need(s, t, v), |Encode(s, t, v)|)
    decreases v, 1, 0
  {
    var b := Encode(s, t, v) + rest;
    var tail := if v.VPresent? then Encode(s, t.elem, v.inner) else [];
    PrefixWord(if v.VPresent? then 1 else 0, tail, rest, b);
    if v.VPresent? { ValidOnEncode(s, t.elem, v.inner, rest, d + 1); }
  }

  lemma {:induction false} ValidArrayOnEncode(s: Schema, t: Type, v: Value, rest: Bytes, d: nat)
    requires Accepted(s) && TypeOk(s, t) && (t.Array? || t.VarArray?) && WellTyped(s, t, v)
    ensures Valid(s, t, Encode(s, t, v) + rest, d) == Verdict(d, Need(s, t, v), |Encode(s, t, v)|)
    decreases v, 1, 0
  {
    var b := Encode(s, t, v) + rest;
    if t.VarArray? { PrefixWord(|v.items|, EncodeElems(s, t.elem, v, 0), rest, b); }
    if d <= MAX_DEPTH {
      ValidElemsOnEncode(s, t, v, 0, if t.Array? then [] else PutU32(|v.items|), rest, b, d);
    }
  }

  lemma ValidScalar(k: Kind, n: int, rest: Bytes)
    requires InRange(k, n)
    ensures k.Bool? ==> GetU32(EncodeScalar(k, n) + rest) <= 1
  {
    if k.Bool? { PutGetU32(n, rest); }
  }

  lemma ValidOpaque(x: Bytes, rest: Bytes)
    requires |x| <= MAX_INT32
    ensures VarOpaqueValue(EncodeOpaque(x) + rest) == Ok(x)
    ensures VarOpaqueSize(EncodeOpaque(x) + rest) == Ok(|EncodeOpaque(x)|)
  {
    var b := EncodeOpaque(x) + rest;
    var z := Zeros(Pad(|x|));
    assert b == PutU32(|x|) + (x + z) + rest;
    PrefixWord(|x|, x + z, rest, b);
    assert b[4..4 + |x|] == x;
    assert b[4 + |x|..4 + |x| + Pad(|x|)] == z;
  }

  lemma {:induction false} ValidNamedOnEncode(s: Schema, name: string, v: Value, rest: Bytes, d: nat)
    requires Accepted(s) && WellTyped(s, Ref(name), v)
    ensures Valid(s, Ref(name), Encode(s, Ref(name), v) + rest, d)
         == Verdict(d, Need(s, Ref(name), v), |Encode(s, Ref(name), v)|)
    decreases v, 1, 1
  {
    var b := Encode(s, Ref(name), v) + rest;
    match s.defs[name].def
    case StructDef(fs) =>
      assert DefOk(s, name);
      if s.defs[name].fixedSize.Some? { FixedSizeExact(s, Ref(name), v); }
      if s.defs[name].fixedSize.Some? || d <= MAX_DEPTH { ValidFieldsOnEncode(s, name, v, 0, [], rest, b, d); }
    case UnionDef(arms) => ValidUnionOnEncode(s, name, v, rest, d);
    case EnumDef(_) =>
      PrefixWord(FromInt32(v.n), [], rest, b);
      assert AsInt32(GetU32(b)) == v.n;
  }

  lemma {:induction false} ValidUnionOnEncode(s: Schema, name: string, v: Value, rest: Bytes, d: nat)
    requires Accepted(s) && WellTyped(s, Ref(name), v) && s.defs[name].def.UnionDef?
    ensures Valid(s, Ref(name), Encode(s, Ref(name), v) + rest, d)
         == Verdict(d, Need(s, Ref(name), v), |Encode(s, Ref(name), v)|)
    decreases v, 1, 0
  {
    hide ArmIndex, PutU32, GetU32, MinWireSize, SumFixed, TypeOk;
    assert DefOk(s, name);
    var b := Encode(s, Ref(name), v) + rest;
    if s.defs[name].fixedSize.Some? { FixedSizeExact(s, Ref(name), v); }
    var arms := s.defs[name].def.arms;
    var ix := ArmIndex(arms, v.disc);
    var body := arms[ix.value].body;
    if body.None? {
      PrefixWord(FromInt32(v.disc), [], rest, b);
      assert ArmIndex(arms, AsInt32(GetU32(b))) == ix;
    } else {
      var inner := Encode(s, body.value, v.arm);
      PrefixWord(FromInt32(v.disc), inner, rest, b);
      assert ArmIndex(arms, AsInt32(GetU32(b))) == ix;
      ValidOnEncode(s, body.value, v.arm, rest, d + 1);
      assert Valid(s, body.value, b[4..], d + 1) == Verdict(d + 1, Need(s, body.value, v.arm), |inner|);
    }
  }

  lemma {:induction false} ValidElemsOnEncode(s: Schema, t: Type, v: Value, i: nat, pre: Bytes, rest: Bytes, b: Bytes,
      d: nat)
    requires Accepted(s) && TypeOk(s, t) && (t.Array? || t.VarArray?) && d <= MAX_DEPTH
    requires v.VSeq? && i <= |v.items|
    requires forall j :: 0 <= j < |v.items| ==> WellTyped(s, t.elem, v.items[j])
    requires b == pre + EncodeElems(s, t.elem, v, i) + rest
    ensures ValidElems(s, t, |v.items| - i, b, |pre|, d)
         == Verdict(d + 1, NeedElems(s, t.elem, v, i), |pre| + |EncodeElems(s, t.elem, v, i)|)
    decreases v, 0, |v.items| - i
  {
    hide Valid, Encode, WellTyped, Need;
    if i < |v.items| {
      var x, y := Encode(s, t.elem, v.items[i]), EncodeElems(s, t.elem, v, i + 1);
      Regroup(pre, x, y, rest, b);
      ValidOnEncode(s, t.elem, v.items[i], y + rest, d + 1);
      var first := Valid(s, t.elem, b[|pre|..], d + 1);
      assert first == Verdict(d + 1, Need(s, t.elem, v.items[i]), |x|);
      if first.Ok? {
        ValidElemsOnEncode(s, t, v, i + 1, pre + x, rest, b, d);
        assert |pre + x| == |pre| + first.value;
      }
    }
  }

  lemma {:induction false} ValidFieldsOnEncode(s: Schema, name: string, v: Value, i: nat, pre: Bytes, rest: Bytes,
      b: Bytes, d: nat)
    requires Accepted(s) && name in s.defs && s.defs[name].def.StructDef?
    requires v.VSeq? && |v.items| == |s.defs[name].def.fields| && i <= |v.items|
    requires forall j :: 0 <= j < |v.items| ==> WellTyped(s, s.defs[name].def.fields[j], v.items[j])
    requires s.defs[name].fixedSize.None? ==> d <= MAX_DEPTH
    requires b == pre + EncodeFields(s, s.defs[name].def.fields, v, i) + rest
    ensures ValidFields(s, name, i, b, |pre|, d)
         == Verdict(d + 1, NeedFields(s, s.defs[name].def.fields, v, i),
                    |pre| + |EncodeFields(s, s.defs[name].def.fields, v, i)|)
    decreases v, 0, |v.items| - i
  {
    hide Valid, Encode, WellTyped, Need;
    var fs := s.defs[name].def.fields;
    if i < |fs| {
      assert DefOk(s, name);
      var x, y := Encode(s, fs[i], v.items[i]), EncodeFields(s, fs, v, i + 1);
      Regroup(pre, x, y, rest, b);
      ValidOnEncode(s, fs[i], v.items[i], y + rest, d + 1);
      var first := Valid(s, fs[i], b[|pre|..], d + 1);
      assert first == Verdict(d + 1, Need(s, fs[i], v.items[i]), |x|);
      if first.Ok? {
        ValidFieldsOnEncode(s, name, v, i + 1, pre + x, rest, b, d);
        assert |pre + x| == |pre| + first.value;
      }
    }
  }

  /** Within the depth limit size() and valid() both return the length of the encoding. */
  lemma SizeOnEncode(s: Schema, t: Type, v: Value, rest: Bytes, d: nat)
    requires Accepted(s) && TypeOk(s, t) && WellTyped(s, t, v) && DepthOk(d, Need(s, t, v))
    ensures Valid(s, t, Encode(s, t, v) + rest, d) == Ok(|Encode(s, t, v)|)
    ensures Size(s, t, Encode(s, t, v) + rest, d) == Ok(|Encode(s, t, v)|)
  {
    ValidOnEncode(s, t, v, rest, d);
    ValidImpliesSize(s, t, Encode(s, t, v) + rest, d);
  }

  // ---------------------------------------------------------------- valid() accepts only encodings

  /** Whatever bytes valid() accepts are the encoding of some value of the type. */
  lemma {:induction false} ValidIsEncoding(s: Schema, t: Type, b: Bytes, d: nat) returns (v: Value)
    requires Accepted(s) && TypeOk(s, t) && Valid(s, t, b, d).Ok?
    ensures Valid(s, t, b, d).value <= |b|
    ensures WellTyped(s, t, v) && Encode(s, t, v) == b[..Valid(s, t, b, d).value]
    decreases Lv(s, t, d), Height(s, t), 2, 0
  {
    ValidImpliesSize(s, t, b, d);
    match t
    case Optional(e) =>
      GetPutU32(b);
      if GetU32(b) == 0 {
        v := VAbsent;
      } else {
        var x := ValidIsEncoding(s, e, b[4..], d + 1);
        v := VPresent(x);
        SliceJoin(b, 0, 4, 4 + |Encode(s, e, x)|);
      }
    case Array(_, _) => v := ArrayIsEncoding(s, t, b, d);
    case VarArray(_, _) => v := ArrayIsEncoding(s, t, b, d);
    case Ref(name) => v := NamedIsEncoding(s, name, b, d);
    case _ => v := LeafIsEncoding(s, t, b, d);
  }

  lemma LeafIsEncoding(s: Schema, t: Type, b: Bytes, d: nat) returns (v: Value)
    requires Accepted(s) && TypeOk(s, t) && Valid(s, t, b, d).Ok? && Valid(s, t, b, d).value <= |b|
    requires t.Scalar? || t.OpaqueFixed? || t.OpaqueVar?
    ensures WellTyped(s, t, v) && Encode(s, t, v) == b[..Valid(s, t, b, d).value]
  {
    match t
    case Scalar(k) =>
      ScalarInverse(k, b);
      v := VNum(DecodeScalar(k, b));
    case OpaqueFixed(n) =>
      v := VBytes(b[..n]);
      assert b[..n] + b[n..n + Pad(n)] == b[..n + Pad(n)];
    case OpaqueVar(_) =>
      v := VBytes(VarOpaqueValue(b).value);
      OpaqueInverse(b);
  }

  lemma {:induction false} ArrayIsEncoding(s: Schema, t: Type, b: Bytes, d: nat) returns (v: Value)
    requires Accepted(s) && TypeOk(s, t) && (t.Array? || t.VarArray?)
    requires Valid(s, t, b, d).Ok? && Valid(s, t, b, d).value <= |b|
    ensures WellTyped(s, t, v) && Encode(s, t, v) == b[..Valid(s, t, b, d).value]
    decreases Lv(s, t, d), Height(s, t), 1, 0
  {
    if t.Array? {
      v := ElemsAreEncodings(s, t, t.count, b, 0, d, []);
    } else {
      GetPutU32(b);
      v := ElemsAreEncodings(s, t, GetU32(b), b, 4, d, []);
      SliceJoin(b, 0, 4, Valid(s, t, b, d).value);
    }
  }

  lemma OpaqueInverse(b: Bytes)
    requires VarOpaqueValue(b).Ok?
    ensures VarOpaqueSize(b).Ok? && VarOpaqueSize(b).value <= |b|
    ensures EncodeOpaque(VarOpaqueValue(b).value) == b[..VarOpaqueSize(b).value]
  {
    GetPutU32(b);
    var n := GetU32(b);
    assert b[..4] + b[4..4 + n] + b[4 + n..4 + n + Pad(n)] == b[..4 + n + Pad(n)];
  }

  lemma PrefixStep<T>(items: seq<T>, acc: seq<T>, x: T)
    requires acc + [x] <= items
    ensures acc <= items && items[|acc|] == x
  {
    assert items[|acc|] == (acc + [x])[|acc|];
  }

  lemma SliceJoin(b: Bytes, i: nat, j: nat, k: nat)
    requires i <= j <= k <= |b|
    ensures b[i..][..j - i] + b[j..k] == b[i..k]
    ensures b[i..j] + b[j..k] == b[i..j] + b[j..][..k - j] == b[i..k]
    ensures i == 0 ==> b[i..j] == b[..j] && b[i..k] == b[..k]
  {
  }

  lemma {:induction false} NamedIsEncoding(s: Schema, name: string, b: Bytes, d: nat) returns (v: Value)
    requires Accepted(s) && name in s.defs && Valid(s, Ref(name), b, d).Ok?
    requires Valid(s, Ref(name), b, d).value <= |b|
    ensures WellTyped(s, Ref(name), v) && Encode(s, Ref(name), v) == b[..Valid(s, Ref(name), b, d).value]
    decreases Lv(s, Ref(name), d), Height(s, Ref(name)), 1, 0
  {
    assert DefOk(s, name);
    match s.defs[name].def
    case StructDef(fs) =>
      v := FieldsAreEncodings(s, name, 0, b, 0, d, []);
      assert b[0..Valid(s, Ref(name), b, d).value] == b[..Valid(s, Ref(name), b, d).value];
    case UnionDef(arms) =>
      GetPutU32(b);
      var disc := AsInt32(GetU32(b));
      var body := arms[ArmIndex(arms, disc).value].body;
      if body.None? {
        v := VUnion(disc, VVoid);
      } else {
        assert s.defs[name].fixedSize.Some? ==> FixedBelow(s, name, body.value);
        var x := ValidIsEncoding(s, body.value, b[4..], d + 1);
        v := VUnion(disc, x);
        SliceJoin(b, 0, 4, 4 + |Encode(s, body.value, x)|);
      }
    case EnumDef(_) =>
      GetPutU32(b);
      v := VNum(AsInt32(GetU32(b)));
  }

  lemma {:induction false} ElemsAreEncodings(s: Schema, t: Type, k: nat, b: Bytes, off: nat, d: nat,
      acc: seq<Value>) returns (v: Value)
    requires Accepted(s) && TypeOk(s, t) && (t.Array? || t.VarArray?) && d <= MAX_DEPTH
    requires off <= |b| && ValidElems(s, t, k, b, off, d).Ok?
    requires forall j :: 0 <= j < |acc| ==> WellTyped(s, t.elem, acc[j])
    ensures v.VSeq? && |v.items| == |acc| + k && acc <= v.items
    ensures forall j :: 0 <= j < |v.items| ==> WellTyped(s, t.elem, v.items[j])
    ensures off <= ValidElems(s, t, k, b, off, d).value <= |b|
    ensures EncodeElems(s, t.elem, v, |acc|) == b[off..ValidElems(s, t, k, b, off, d).value]
    decreases Lv(s, t, d), Height(s, t), 0, k
  {
    hide Valid, Encode, WellTyped;
    if k == 0 {
      v := VSeq(acc);
    } else {
      var x := ValidIsEncoding(s, t.elem, b[off..], d + 1);
      var mid := off + Valid(s, t.elem, b[off..], d + 1).value;
      v := ElemsAreEncodings(s, t, k - 1, b, mid, d, acc + [x]);
      PrefixStep(v.items, acc, x);
      SliceJoin(b, off, mid, ValidElems(s, t, k - 1, b, mid, d).value);
    }
  }

  lemma {:induction false} FieldsAreEncodings(s: Schema, name: string, i: nat, b: Bytes, off: nat, d: nat,
      acc: seq<Value>) returns (v: Value)
    requires Accepted(s) && name in s.defs && s.defs[name].def.StructDef?
    requires i == |acc| <= |s.defs[name].def.fields| && off <= |b|
    requires s.defs[name].fixedSize.None? ==> d <= MAX_DEPTH
    requires ValidFields(s, name, i, b, off, d).Ok?
    requires forall j :: 0 <= j < i ==> WellTyped(s, s.defs[name].def.fields[j], acc[j])
    ensures v.VSeq? && |v.items| == |s.defs[name].def.fields| && acc <= v.items
    ensures forall j :: 0 <= j < |v.items| ==> WellTyped(s, s.defs[name].def.fields[j], v.items[j])
    ensures off <= ValidFields(s, name, i, b, off, d).value <= |b|
    ensures EncodeFields(s, s.defs[name].def.fields, v, i) == b[off..ValidFields(s, name, i, b, off, d).value]
    decreases Lv(s, Ref(name), d), Height(s, Ref(name)), 0, |s.defs[name].def.fields| - i
  {
    hide Valid, Encode, WellTyped;
    var fs := s.defs[name].def.fields;
    if i == |fs| {
      v := VSeq(acc);
    } else {
      assert DefOk(s, name);
      assert s.defs[name].fixedSize.Some? ==> FixedBelow(s, name, fs[i]);
      var x := ValidIsEncoding(s, fs[i], b[off..], d + 1);
      var mid := off + Valid(s, fs[i], b[off..], d + 1).value;
      v := FieldsAreEncodings(s, name, i + 1, b, mid, d, acc + [x]);
      PrefixStep(v.items, acc, x);
      SliceJoin(b, off, mid, ValidFields(s, name, i + 1, b, mid, d).value);
    }
  }

  /** `b` starts with the encoding of `v`, and `v` fits the depth limit at depth `d`. */
  ghost predicate Carries(s: Schema, t: Type, b: Bytes, d: nat, v: Value) {
    WellTyped(s, t, v) && Encode(s, t, v) <= b && DepthOk(d, Need(s, t, v))
  }

  /** ValidateFull characterised: a buffer passes exactly when it starts with the encoding of a
      value that fits the depth limit. */
  lemma ValidExactly(s: Schema, t: Type, b: Bytes, d: nat)
    requires Accepted(s) && TypeOk(s, t)
    ensures Valid(s, t, b, d).Ok? <==> exists v :: Carries(s, t, b, d, v)
  {
    if Valid(s, t, b, d).Ok? {
      var v := ValidIsEncoding(s, t, b, d);
      CarriesVerdict(s, t, b, d, v);
      assert Carries(s, t, b, d, v);
    }
    forall v | Carries(s, t, b, d, v)
      ensures Valid(s, t, b, d).Ok?
    {
      CarriesVerdict(s, t, b, d, v);
    }
  }

  lemma CarriesVerdict(s: Schema, t: Type, b: Bytes, d: nat, v: Value)
    requires Accepted(s) && TypeOk(s, t) && WellTyped(s, t, v) && Encode(s, t, v) <= b
    ensures Valid(s, t, b, d).Ok? <==> DepthOk(d, Need(s, t, v))
  {
    var rest := b[|Encode(s, t, v)|..];
    assert b == Encode(s, t, v) + rest;
    ValidOnEncode(s, t, v, rest, d);
  }

  /** A buffer carries at most one value of a type. */
  lemma CarriesUnique(s: Schema, t: Type, b: Bytes, d: nat, v: Value, v': Value)
    requires Carries(s, t, b, d, v) && Carries(s, t, b, d, v')
    ensures v == v'
  {
    hide Encode, WellTyped, Need, DepthOk;
    var rest, rest' := b[|Encode(s, t, v)|..], b[|Encode(s, t, v')|..];
    assert b == Encode(s, t, v) + rest == Encode(s, t, v') + rest';
    EncodePrefixFree(s, t, v, rest, v', rest');
  }
}
