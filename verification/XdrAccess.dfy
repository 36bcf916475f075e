/** Navigation over views: Raw(), struct field accessors, Fields(), union arm accessors and the
    array methods, with the loops the generator emits, and where each of them lands. */
module XdrAccess {
  import opened Common
  import opened XdrSchema
  import opened XdrMinSize
  import opened XdrViews
  import opened XdrViewProofs

  type View = Result<Bytes, ViewError>

  /** A struct's Fields() bundle: the node and its fields, all trimmed to their extents. */
  datatype Bundle = Bundle(node: Bytes, fields: seq<Bytes>)

  ghost predicate IsStruct(s: Schema, name: string) {
    Accepted(s) && name in s.defs && s.defs[name].def.StructDef? && DefOk(s, name)
  }

  function Fields(s: Schema, name: string): (fs: seq<Type>)
    requires name in s.defs && s.defs[name].def.StructDef?
  {
    s.defs[name].def.fields
  }

  // ---------------------------------------------------------------- specifications

  /** viewRaw. */
  function Raw(s: Schema, t: Type, b: Bytes): (r: View)
    requires Accepted(s) && TypeOk(s, t)
  {
    var sz :- Size(s, t, b, 0);
    if sz > |b| then Err(ShortBuffer) else Ok(b[..sz])
  }

  /** Raw() never returns less than the value measured. */
  lemma RawIsWhole(s: Schema, t: Type, b: Bytes, r: Bytes)
    requires Accepted(s) && TypeOk(s, t)
    ensures Raw(s, t, b) == Ok(r) <==> r <= b && Size(s, t, b, 0) == Ok(|r|)
  {
    hide Size;
    assert r <= b ==> b[..|r|] == r;
  }

  /** The accessor of field `i`: skip the fields before it, return the rest of the buffer. */
  function FieldAt(s: Schema, name: string, i: nat, b: Bytes): (r: View)
    requires IsStruct(s, name) && i < |Fields(s, name)|
  {
    var fixed := s.defs[name].fixedSize;
    if fixed.Some? && |b| < fixed.value then Err(ShortBuffer)
    else if i == 0 then Ok(b)
    else
      var off :- SizeFields(s, Fields(s, name)[..i], 0, b, 0, 0);
      Ok(b[off..])
  }

  /** The accessor of a union arm. */
  function ArmAt(arm: Arm, b: Bytes): (r: View) {
    if |b| < 4 then Err(ShortBuffer)
    else if AsInt32(GetU32(b)) !in arm.cases then Err(WrongDiscriminant)
    else Ok(b[4..])
  }

  /** Fields(): one walk that cuts out fields `i..` from `off`. */
  function Locate(s: Schema, fs: seq<Type>, i: nat, b: Bytes, off: nat, cut: seq<Bytes>): (r: Result<Bundle, ViewError>)
    requires Accepted(s) && i <= |fs| && off <= |b|
    requires forall j :: 0 <= j < |fs| ==> TypeOk(s, fs[j])
    decreases |fs| - i
  {
    if i == |fs| then Ok(Bundle(b[..off], cut))
    else
      var sz :- FieldStep(s, fs[i], b, off, 0);
      if off + sz > |b| then Err(ShortBuffer)
      else Locate(s, fs, i + 1, b, off + sz, cut + [b[off..off + sz]])
  }

  /** All(): `k` elements of type `e` cut out from `off`. */
  function Cut(s: Schema, e: Type, k: nat, b: Bytes, off: nat, cut: seq<Bytes>): (r: Result<seq<Bytes>, ViewError>)
    requires Accepted(s) && TypeOk(s, e)
    decreases k
  {
    if k == 0 then Ok(cut)
    else if FixedSize(s, e).None? && off >= |b| then Err(ShortBuffer)
    else
      var sz :- if off > |b| then Err(ShortBuffer) else Size(s, e, b[off..], 0);
      if off + sz > |b| then Err(ShortBuffer)
      else Cut(s, e, k - 1, b, off + sz, cut + [b[off..off + sz]])
  }

  // ---------------------------------------------------------------- emitted loops

  /** The emitted size() of a struct: straight-line updates of `off`, shortcuts included. */
  method StructSize(s: Schema, name: string, b: Bytes, d: nat) returns (r: Extent)
    requires IsStruct(s, name)
    ensures r == Size(s, Ref(name), b, d)
  {
    if s.defs[name].fixedSize.Some? {
      return Ok(s.defs[name].fixedSize.value);
    }
    if d > MAX_DEPTH {
      return Err(DepthExceeded);
    }
    r := Traverse(s, Fields(s, name), b, d + 1);
  }

  /** emitSizeTraversal. */
  method Traverse(s: Schema, fs: seq<Type>, b: Bytes, c: nat) returns (r: Extent)
    requires Accepted(s) && forall j :: 0 <= j < |fs| ==> TypeOk(s, fs[j])
    ensures r == SizeFields(s, fs, 0, b, 0, c)
  {
    var off := 0;
    for i := 0 to |fs|
      invariant off >= 0
      invariant SizeFields(s, fs, i, b, off, c) == SizeFields(s, fs, 0, b, 0, c)
    {
      var fixed := FixedSize(s, fs[i]);
      if fixed.Some? {
        off := off + fixed.value;
      } else {
        if off > |b| {
          return Err(ShortBuffer);
        }
        if VoidCase0(s, fs[i]) && |b| - off >= 4 && GetU32(b[off..]) == 0 {
          off := off + 4;
        } else {
          var sz := Size(s, fs[i], b[off..], c);
          if sz.Err? {
            return sz;
          }
          off := off + sz.value;
          if !VoidCase0(s, fs[i]) && off > |b| {
            return Err(ShortBuffer);
          }
        }
      }
    }
    r := if off > |b| then Err(ShortBuffer) else Ok(off);
  }

  /** The emitted accessor of field `i`. */
  method Field(s: Schema, name: string, i: nat, b: Bytes) returns (r: View)
    requires IsStruct(s, name) && i < |Fields(s, name)|
    ensures r == FieldAt(s, name, i, b)
  {
    var fixed := s.defs[name].fixedSize;
    if fixed.Some? && |b| < fixed.value {
      return Err(ShortBuffer);
    }
    if i == 0 {
      return Ok(b);
    }
    var off := Traverse(s, Fields(s, name)[..i], b, 0);
    r := if off.Err? then Err(off.error) else Ok(b[off.value..]);
  }

  /** The emitted locate helper: constant offsets for a fixed-size struct, a walk otherwise. */
  method LocateFields(s: Schema, name: string, b: Bytes) returns (r: Result<Bundle, ViewError>)
    requires IsStruct(s, name)
    ensures s.defs[name].fixedSize.Some? && |b| < s.defs[name].fixedSize.value ==> r == Err(ShortBuffer)
    ensures !(s.defs[name].fixedSize.Some? && |b| < s.defs[name].fixedSize.value) ==>
              r == Locate(s, Fields(s, name), 0, b, 0, [])
  {
    if s.defs[name].fixedSize.Some? {
      if |b| < s.defs[name].fixedSize.value {
        return Err(ShortBuffer);
      }
      r := LocateFixed(s, name, b);
    } else {
      r := LocateWalk(s, Fields(s, name), b);
    }
  }

  method LocateFixed(s: Schema, name: string, b: Bytes) returns (r: Result<Bundle, ViewError>)
    requires IsStruct(s, name) && s.defs[name].fixedSize.Some? && s.defs[name].fixedSize.value <= |b|
    ensures r == Locate(s, Fields(s, name), 0, b, 0, [])
  {
    hide TypeOk, Size, MinWireSize, Resolves;
    var fs := Fields(s, name);
    var cut: seq<Bytes> := [];
    var off, total := 0, s.defs[name].fixedSize.value;
    assert forall j :: 0 <= j < |fs| ==> FixedBelow(s, name, fs[j]);
    for i := 0 to |fs|
      invariant 0 <= off && off + SumFixed(s, fs, i) == total <= |b|
      invariant Locate(s, fs, i, b, off, cut) == Locate(s, fs, 0, b, 0, [])
    {
      var size := FixedSize(s, fs[i]).value;
      cut := cut + [b[off..off + size]];
      off := off + size;
    }
    return Ok(Bundle(b[..total], cut));
  }

  method LocateWalk(s: Schema, fs: seq<Type>, b: Bytes) returns (r: Result<Bundle, ViewError>)
    requires Accepted(s) && forall j :: 0 <= j < |fs| ==> TypeOk(s, fs[j])
    ensures r == Locate(s, fs, 0, b, 0, [])
  {
    hide Size, FieldStep, Accepted, TypeOk;
    var cut: seq<Bytes> := [];
    var off := 0;
    for i := 0 to |fs|
      invariant 0 <= off <= |b|
      invariant Locate(s, fs, i, b, off, cut) == Locate(s, fs, 0, b, 0, [])
    {
      var step := FieldStep(s, fs[i], b, off, 0);
      if step.Err? {
        return Err(step.error);
      }
      if off + step.value > |b| {
        return Err(ShortBuffer);
      }
      cut := cut + [b[off..off + step.value]];
      off := off + step.value;
    }
    r := Ok(Bundle(b[..off], cut));
  }

  /** arrayTraverse, over any per-element extent function. */
  method ArrayTraverse(data: Bytes, count: nat, startOff: nat, fn: Bytes -> Extent) returns (r: Extent)
    ensures r == Steps(data, count, startOff, fn)
  {
    var off := startOff;
    var k := 0;
    while k < count
      invariant 0 <= k <= count && off >= 0
      invariant Steps(data, count - k, off, fn) == Steps(data, count, startOff, fn)
    {
      if off > |data| {
        return Err(ShortBuffer);
      }
      var sz := fn(data[off..]);
      if sz.Err? {
        return sz;
      }
      off := off + sz.value;
      k := k + 1;
    }
    r := Ok(off);
  }

  function Steps(data: Bytes, k: nat, off: nat, fn: Bytes -> Extent): (r: Extent)
    decreases k
  {
    if k == 0 then Ok(off)
    else if off > |data| then Err(ShortBuffer)
    else
      var sz :- fn(data[off..]);
      Steps(data, k - 1, off + sz, fn)
  }

  /** The closure form and the recursive size() of an array are the same traversal. */
  lemma {:induction false} StepsIsSizeElems(s: Schema, e: Type, k: nat, b: Bytes, off: nat, c: nat, fn: Bytes -> Extent)
    requires Accepted(s) && TypeOk(s, e)
    requires forall x: Bytes :: fn(x) == Size(s, e, x, c)
    ensures Steps(b, k, off, fn) == SizeElems(s, e, k, b, off, c)
    decreases k
  {
    hide Size, TypeOk, Accepted;
    if k > 0 && off <= |b| {
      var sz := Size(s, e, b[off..], c);
      if sz.Ok? { StepsIsSizeElems(s, e, k - 1, b, off + sz.value, c, fn); }
    }
  }

  /** Count() and All() of a variable array. */
  method ArrayAll(s: Schema, t: Type, b: Bytes) returns (r: Result<seq<Bytes>, ViewError>)
    requires Accepted(s) && TypeOk(s, t) && (t.Array? || t.VarArray?)
    ensures r == AllOf(s, t, b)
  {
    var count := if t.VarArray? then ArrayCountChecked(b, t.max, MinElemWidth(s, t.elem)) else Ok(t.count);
    if count.Err? {
      return Err(count.error);
    }
    var start := if t.VarArray? then 4 else 0;
    if FixedSize(s, t.elem).Some? {
      r := CutFixed(s, t.elem, count.value, b, start);
    } else {
      r := CutWalk(s, t.elem, count.value, b, start);
    }
  }

  /** The loop emitted for elements of fixed size. */
  method CutFixed(s: Schema, e: Type, count: nat, b: Bytes, start: nat) returns (r: Result<seq<Bytes>, ViewError>)
    requires Accepted(s) && TypeOk(s, e) && FixedSize(s, e).Some? && start <= |b|
    ensures r == Cut(s, e, count, b, start, [])
  {
    hide Size;
    var w, off := FixedSize(s, e).value, start;
    var cut: seq<Bytes> := [];
    for k := 0 to count
      invariant 0 <= off <= |b|
      invariant Cut(s, e, count - k, b, off, cut) == Cut(s, e, count, b, start, [])
    {
      SizeOfFixed(s, e, b[off..], 0);
      if off + w > |b| {
        return Err(ShortBuffer);
      }
      cut := cut + [b[off..off + w]];
      off := off + w;
    }
    r := Ok(cut);
  }

  /** The loop emitted for elements of variable size. */
  method CutWalk(s: Schema, e: Type, count: nat, b: Bytes, start: nat) returns (r: Result<seq<Bytes>, ViewError>)
    requires Accepted(s) && TypeOk(s, e) && FixedSize(s, e).None? && start <= |b|
    ensures r == Cut(s, e, count, b, start, [])
  {
    hide Size;
    var off := start;
    var cut: seq<Bytes> := [];
    for k := 0 to count
      invariant 0 <= off <= |b|
      invariant Cut(s, e, count - k, b, off, cut) == Cut(s, e, count, b, start, [])
    {
      if off >= |b| {
        return Err(ShortBuffer);
      }
      var sz := Size(s, e, b[off..], 0);
      if sz.Err? {
        return Err(sz.error);
      }
      if off + sz.value > |b| {
        return Err(ShortBuffer);
      }
      cut := cut + [b[off..off + sz.value]];
      off := off + sz.value;
    }
    r := Ok(cut);
  }

  lemma SizeOfFixed(s: Schema, e: Type, b: Bytes, d: nat)
    requires Accepted(s) && TypeOk(s, e) && FixedSize(s, e).Some?
    ensures Size(s, e, b, d) == Ok(FixedSize(s, e).value)
  {
  }

  function AllOf(s: Schema, t: Type, b: Bytes): (r: Result<seq<Bytes>, ViewError>)
    requires Accepted(s) && TypeOk(s, t) && (t.Array? || t.VarArray?)
  {
    if t.VarArray? then
      var n :- ArrayCountChecked(b, t.max, MinElemWidth(s, t.elem));
      Cut(s, t.elem, n, b, 4, [])
    else Cut(s, t.elem, t.count, b, 0, [])
  }

  /** At(i). */
  function At(s: Schema, t: Type, i: int, b: Bytes): (r: View)
    requires Accepted(s) && TypeOk(s, t) && (t.Array? || t.VarArray?)
  {
    var n :- if t.VarArray? then ArrayCount(b, t.max) else Ok(t.count);
    var start := if t.VarArray? then 4 else 0;
    if i < 0 || i >= n then Err(IndexOutOfRange)
    else if FixedSize(s, t.elem).Some? then
      var w := FixedSize(s, t.elem).value;
      if start + i * w + w > |b| then Err(ShortBuffer) else Ok(b[start + i * w..])
    else
      var off :- SizeElems(s, t.elem, i, b, start, 0);
      if off >= |b| then Err(ShortBuffer) else Ok(b[off..])
  }

  // ---------------------------------------------------------------- where they land

  /** Raw() of a view holding a value is the value's encoding, whatever follows it. */
  lemma RawOnEncode(s: Schema, t: Type, v: Value, rest: Bytes)
    requires Accepted(s) && TypeOk(s, t) && WellTyped(s, t, v) && DepthOk(0, Need(s, t, v))
    ensures Raw(s, t, Encode(s, t, v) + rest) == Ok(Encode(s, t, v))
  {
    SizeOnEncode(s, t, v, rest, 0);
    SplitAt(Encode(s, t, v), rest);
  }

  lemma ArmOnEncode(s: Schema, name: string, v: Value, rest: Bytes)
    requires WellTyped(s, Ref(name), v) && s.defs[name].def.UnionDef?
    ensures var arms := s.defs[name].def.arms;
            var arm := arms[ArmIndex(arms, v.disc).value];
            && ArmAt(arm, Encode(s, Ref(name), v) + rest)
               == Ok((if arm.body.None? then [] else Encode(s, arm.body.value, v.arm)) + rest)
            && forall other :: other in arms && v.disc !in other.cases ==>
                 ArmAt(other, Encode(s, Ref(name), v) + rest) == Err(WrongDiscriminant)
  {
    var arms := s.defs[name].def.arms;
    var body := arms[ArmIndex(arms, v.disc).value].body;
    PrefixWord(FromInt32(v.disc), if body.None? then [] else Encode(s, body.value, v.arm), rest,
               Encode(s, Ref(name), v) + rest);
  }

  /** One step of a walk over an encoding: the shortcuts land at the end of the field. */
  lemma StepOnEncode(s: Schema, t: Type, v: Value, pre: Bytes, rest: Bytes, b: Bytes, c: nat)
    requires Accepted(s) && TypeOk(s, t) && WellTyped(s, t, v) && DepthOk(c, Need(s, t, v))
    requires |pre| <= |b| && b[|pre|..] == Encode(s, t, v) + rest
    ensures FieldStep(s, t, b, |pre|, c) == Size(s, t, b[|pre|..], c) == Ok(|Encode(s, t, v)|)
  {
    hide Encode, WellTyped, Need, Size, Valid, FieldStep;
    SizeOnEncode(s, t, v, rest, c);
    ShortcutsAgree(s, t, b, |pre|, c);
  }

  ghost predicate Rows(s: Schema, fs: seq<Type>, v: Value, c: nat) {
    && v.VSeq? && |v.items| == |fs|
    && forall j :: 0 <= j < |fs| ==>
         TypeOk(s, fs[j]) && WellTyped(s, fs[j], v.items[j]) && DepthOk(c, Need(s, fs[j], v.items[j]))
  }

  lemma {:induction false} NeedFieldsBounds(s: Schema, fs: seq<Type>, v: Value, i: nat, c: nat)
    requires v.VSeq? && |v.items| == |fs| && i <= |fs|
    requires forall j :: 0 <= j < |fs| ==> WellTyped(s, fs[j], v.items[j])
    requires DepthOk(c, NeedFields(s, fs, v, i))
    ensures forall j :: i <= j < |fs| ==> DepthOk(c, Need(s, fs[j], v.items[j]))
    decreases |fs| - i
  {
    hide Need, WellTyped;
    if i < |fs| { NeedFieldsBounds(s, fs, v, i + 1, c); }
  }

  lemma RowsOfStruct(s: Schema, name: string, v: Value)
    requires IsStruct(s, name) && WellTyped(s, Ref(name), v) && DepthOk(0, Need(s, Ref(name), v))
    ensures Rows(s, Fields(s, name), v, 0)
    ensures Encode(s, Ref(name), v) == EncodeFields(s, Fields(s, name), v, 0)
  {
    NeedFieldsBounds(s, Fields(s, name), v, 0, 0);
  }

  /** Walking past the fields before `n` lands where field `n` starts. */
  lemma {:induction false} OffsetOnEncode(s: Schema, fs: seq<Type>, v: Value, n: nat, i: nat, pre: Bytes, rest: Bytes,
      b: Bytes, c: nat)
    requires Accepted(s) && Rows(s, fs, v, c) && i <= n <= |fs|
    requires b == pre + EncodeFields(s, fs, v, i) + rest
    ensures var r := SizeFields(s, fs[..n], i, b, |pre|, c);
            r.Ok? && b[r.value..] == EncodeFields(s, fs, v, n) + rest
    decreases n - i
  {
    hide Encode, WellTyped, Need, FieldStep;
    if i < n {
      var x, y := Encode(s, fs[i], v.items[i]), EncodeFields(s, fs, v, i + 1);
      Regroup(pre, x, y, rest, b);
      StepOnEncode(s, fs[i], v.items[i], pre, y + rest, b, c);
      OffsetOnEncode(s, fs, v, n, i + 1, pre + x, rest, b, c);
      assert |pre + x| == |pre| + |x|;
    } else {
      Regroup(pre, EncodeFields(s, fs, v, n), [], rest, b);
      assert [] + rest == rest;
    }
  }

  /** Each accessor starts exactly at its field's encoding. */
  lemma FieldOnEncode(s: Schema, name: string, v: Value, i: nat, rest: Bytes)
    requires IsStruct(s, name) && WellTyped(s, Ref(name), v) && DepthOk(0, Need(s, Ref(name), v))
    requires i < |Fields(s, name)| == |v.items|
    ensures FieldAt(s, name, i, Encode(s, Ref(name), v) + rest)
         == Ok(Encode(s, Fields(s, name)[i], v.items[i]) + (EncodeFields(s, Fields(s, name), v, i + 1) + rest))
  {
    RowsOfStruct(s, name, v);
    if s.defs[name].fixedSize.Some? { FixedSizeExact(s, Ref(name), v); }
    hide Encode, WellTyped, Need, SizeFields, TypeOk, DefOk, EncodeFields;
    var fs := Fields(s, name);
    var b := Encode(s, Ref(name), v) + rest;
    assert b == [] + EncodeFields(s, fs, v, 0) + rest;
    OffsetOnEncode(s, fs, v, i, 0, [], rest, b, 0);
    HeadOfFields(s, fs, v, i, rest);
  }

  lemma HeadOfFields(s: Schema, fs: seq<Type>, v: Value, i: nat, rest: Bytes)
    requires v.VSeq? && |v.items| == |fs| && i < |fs|
    requires forall j :: 0 <= j < |fs| ==> WellTyped(s, fs[j], v.items[j])
    ensures EncodeFields(s, fs, v, i) + rest == Encode(s, fs[i], v.items[i]) + (EncodeFields(s, fs, v, i + 1) + rest)
  {
    hide Encode, WellTyped;
    var x, y := Encode(s, fs[i], v.items[i]), EncodeFields(s, fs, v, i + 1);
    assert (x + y) + rest == x + (y + rest);
  }

  /** The encodings of the fields `i..`, one by one. */
  ghost function FieldEncodings(s: Schema, fs: seq<Type>, v: Value, i: nat): (r: seq<Bytes>)
    requires v.VSeq? && |v.items| == |fs| && i <= |fs|
    requires forall j :: 0 <= j < |fs| ==> WellTyped(s, fs[j], v.items[j])
    ensures |r| == |fs| - i
    ensures forall j :: i <= j < |fs| ==> r[j - i] == Encode(s, fs[j], v.items[j])
    decreases |fs| - i
  {
    if i == |fs| then [] else [Encode(s, fs[i], v.items[i])] + FieldEncodings(s, fs, v, i + 1)
  }

  lemma {:induction false} LocateOnEncode(s: Schema, fs: seq<Type>, v: Value, i: nat, pre: Bytes, rest: Bytes,
      b: Bytes, cut: seq<Bytes>)
    requires Accepted(s) && Rows(s, fs, v, 0) && i <= |fs|
    requires b == pre + EncodeFields(s, fs, v, i) + rest
    ensures Locate(s, fs, i, b, |pre|, cut)
         == Ok(Bundle(pre + EncodeFields(s, fs, v, i), cut + FieldEncodings(s, fs, v, i)))
    decreases |fs| - i
  {
    hide Encode, WellTyped, Need, FieldStep;
    if i < |fs| {
      var x, y := Encode(s, fs[i], v.items[i]), EncodeFields(s, fs, v, i + 1);
      Regroup(pre, x, y, rest, b);
      StepOnEncode(s, fs[i], v.items[i], pre, y + rest, b, 0);
      assert b[|pre|..|pre| + |x|] == b[|pre|..][..|x|] == x;
      LocateOnEncode(s, fs, v, i + 1, pre + x, rest, b, cut + [x]);
      assert (cut + [x]) + FieldEncodings(s, fs, v, i + 1) == cut + FieldEncodings(s, fs, v, i);
      assert (pre + x) + y == pre + (x + y);
    } else {
      assert b[..|pre|] == pre == pre + [] && cut + [] == cut;
    }
  }

  /** Fields() cuts the encoding of a struct into exactly the encodings of its fields. */
  lemma FieldsBundleOnEncode(s: Schema, name: string, v: Value, rest: Bytes)
    requires IsStruct(s, name) && WellTyped(s, Ref(name), v) && DepthOk(0, Need(s, Ref(name), v))
    ensures Locate(s, Fields(s, name), 0, Encode(s, Ref(name), v) + rest, 0, [])
         == Ok(Bundle(Encode(s, Ref(name), v), FieldEncodings(s, Fields(s, name), v, 0)))
  {
    var fs := Fields(s, name);
    RowsOfStruct(s, name, v);
    var b := Encode(s, Ref(name), v) + rest;
    assert b == [] + EncodeFields(s, fs, v, 0) + rest;
    LocateOnEncode(s, fs, v, 0, [], rest, b, []);
    assert [] + FieldEncodings(s, fs, v, 0) == FieldEncodings(s, fs, v, 0);
    assert [] + EncodeFields(s, fs, v, 0) == EncodeFields(s, fs, v, 0);
  }

  // ---------------------------------------------------------------- arrays

  ghost function ElemEncodings(s: Schema, e: Type, v: Value, i: nat): (r: seq<Bytes>)
    requires v.VSeq? && i <= |v.items|
    requires forall j :: 0 <= j < |v.items| ==> WellTyped(s, e, v.items[j])
    ensures |r| == |v.items| - i
    ensures forall j :: i <= j < |v.items| ==> r[j - i] == Encode(s, e, v.items[j])
    decreases |v.items| - i
  {
    hide Encode, WellTyped;
    if i == |v.items| then [] else [Encode(s, e, v.items[i])] + ElemEncodings(s, e, v, i + 1)
  }

  lemma {:induction false} NeedElemsBounds(s: Schema, e: Type, v: Value, i: nat, c: nat)
    requires v.VSeq? && i <= |v.items|
    requires forall j :: 0 <= j < |v.items| ==> WellTyped(s, e, v.items[j])
    requires DepthOk(c, NeedElems(s, e, v, i))
    ensures forall j :: i <= j < |v.items| ==> DepthOk(c, Need(s, e, v.items[j]))
    decreases |v.items| - i
  {
    hide Need, WellTyped;
    if i < |v.items| { NeedElemsBounds(s, e, v, i + 1, c); }
  }

  ghost predicate Items(s: Schema, e: Type, v: Value) {
    && TypeOk(s, e) && MinWireSize(s, e, {}) > 0 && v.VSeq?
    && forall j :: 0 <= j < |v.items| ==> WellTyped(s, e, v.items[j]) && DepthOk(0, Need(s, e, v.items[j]))
  }

  /** One element of an array encoding, where the walk stands at it. */
  lemma ElemAt(s: Schema, e: Type, v: Value, i: nat, pre: Bytes, rest: Bytes, b: Bytes)
    requires Accepted(s) && Items(s, e, v) && i < |v.items|
    requires b == pre + EncodeElems(s, e, v, i) + rest
    ensures var x := Encode(s, e, v.items[i]);
            && b == (pre + x) + EncodeElems(s, e, v, i + 1) + rest && |pre + x| == |pre| + |x| <= |b| && |x| >= 1
            && b[|pre|..] == x + (EncodeElems(s, e, v, i + 1) + rest) && b[|pre|..|pre| + |x|] == x
            && FieldStep(s, e, b, |pre|, 0) == Size(s, e, b[|pre|..], 0) == Ok(|x|)
  {
    hide Encode, WellTyped, Need, Size, MinWireSize, FixedSize, TypeOk, EncodeElems, Accepted, FieldStep, DepthOk;
    var x, y := Encode(s, e, v.items[i]), EncodeElems(s, e, v, i + 1);
    ElemsHead(s, e, v, i);
    Regroup(pre, x, y, rest, b);
    HeadOf(b, |pre|, x, y + rest);
    StepOnEncode(s, e, v.items[i], pre, y + rest, b, 0);
    MinWireSizeLowerBound(s, e, {}, v.items[i]);
  }

  lemma ElemsHead(s: Schema, e: Type, v: Value, i: nat)
    requires v.VSeq? && i < |v.items| && forall j :: 0 <= j < |v.items| ==> WellTyped(s, e, v.items[j])
    ensures EncodeElems(s, e, v, i) == Encode(s, e, v.items[i]) + EncodeElems(s, e, v, i + 1)
  {
    hide Encode, WellTyped;
  }

  lemma HeadOf<T>(b: seq<T>, at: nat, x: seq<T>, tail: seq<T>)
    requires at <= |b| && b[at..] == x + tail
    ensures at + |x| <= |b| && b[at..at + |x|] == x
  {
    assert b[at..at + |x|] == b[at..][..|x|];
  }

  lemma {:induction false} CutOnEncode(s: Schema, e: Type, v: Value, i: nat, pre: Bytes, rest: Bytes, b: Bytes,
                                       cut: seq<Bytes>)
    requires Accepted(s) && Items(s, e, v) && i <= |v.items|
    requires b == pre + EncodeElems(s, e, v, i) + rest
    ensures Cut(s, e, |v.items| - i, b, |pre|, cut) == Ok(cut + ElemEncodings(s, e, v, i))
    decreases |v.items| - i
  {
    hide Encode, WellTyped, Need, Size, MinWireSize, FixedSize, TypeOk, Accepted, EncodeElems;
    if i < |v.items| {
      var x := Encode(s, e, v.items[i]);
      ElemAt(s, e, v, i, pre, rest, b);
      CutOnEncode(s, e, v, i + 1, pre + x, rest, b, cut + [x]);
      assert (cut + [x]) + ElemEncodings(s, e, v, i + 1) == cut + ElemEncodings(s, e, v, i);
    } else {
      assert cut + [] == cut;
    }
  }

  lemma ItemsOfArray(s: Schema, t: Type, v: Value)
    requires Accepted(s) && TypeOk(s, t) && (t.Array? || t.VarArray?)
    requires WellTyped(s, t, v) && DepthOk(0, Need(s, t, v))
    ensures Items(s, t.elem, v)
    ensures t.Array? ==> |v.items| == t.count && Encode(s, t, v) == EncodeElems(s, t.elem, v, 0)
    ensures t.VarArray? ==> |v.items| <= MAX_INT32 && (t.max > 0 ==> |v.items| <= t.max)
    ensures t.VarArray? ==> Encode(s, t, v) == PutU32(|v.items|) + EncodeElems(s, t.elem, v, 0)
  {
    NeedElemsBounds(s, t.elem, v, 0, 0);
  }

  /** Count(): the check against the buffer never rejects a well-formed array. */
  lemma CountOnEncode(s: Schema, e: Type, max: nat, v: Value, rest: Bytes, b: Bytes)
    requires Accepted(s) && Items(s, e, v) && |v.items| <= MAX_INT32 && (max > 0 ==> |v.items| <= max)
    requires b == PutU32(|v.items|) + EncodeElems(s, e, v, 0) + rest
    ensures ArrayCount(b, max) == ArrayCountChecked(b, max, MinElemWidth(s, e)) == Ok(|v.items|)
  {
    hide Encode, WellTyped, Need, MinWireSize, EncodeElems, TypeOk, MinElemWidth;
    PrefixWord(|v.items|, EncodeElems(s, e, v, 0), rest, b);
    ElemsAtLeastCount(s, e, v, 0);
    DivisionBound(|v.items|, |b| - 4, MinElemWidth(s, e));
  }

  /** All() returns exactly the element encodings; in particular the count check passes. */
  lemma AllOnEncode(s: Schema, t: Type, v: Value, rest: Bytes)
    requires Accepted(s) && TypeOk(s, t) && (t.Array? || t.VarArray?)
    requires WellTyped(s, t, v) && DepthOk(0, Need(s, t, v))
    ensures Items(s, t.elem, v) && AllOf(s, t, Encode(s, t, v) + rest) == Ok(ElemEncodings(s, t.elem, v, 0))
  {
    hide Encode, WellTyped, Need, EncodeElems, ElemEncodings, Items, AllOf, TypeOk;
    ItemsOfArray(s, t, v);
    var b, elems := Encode(s, t, v) + rest, EncodeElems(s, t.elem, v, 0);
    if t.Array? {
      assert b == [] + elems + rest;
      AllAfter(s, t, v, [], rest, b);
    } else {
      assert b == PutU32(|v.items|) + elems + rest;
      CountOnEncode(s, t.elem, t.max, v, rest, b);
      AllAfter(s, t, v, PutU32(|v.items|), rest, b);
    }
  }

  lemma AllAfter(s: Schema, t: Type, v: Value, head: Bytes, rest: Bytes, b: Bytes)
    requires Accepted(s) && TypeOk(s, t) && (t.Array? || t.VarArray?) && Items(s, t.elem, v)
    requires b == head + EncodeElems(s, t.elem, v, 0) + rest
    requires t.Array? ==> head == [] && |v.items| == t.count
    requires t.VarArray? ==> |head| == 4 && ArrayCountChecked(b, t.max, MinElemWidth(s, t.elem)) == Ok(|v.items|)
    ensures AllOf(s, t, b) == Ok(ElemEncodings(s, t.elem, v, 0))
  {
    hide EncodeElems, ElemEncodings, ArrayCountChecked, MinElemWidth, Cut, WellTyped, Need;
    CutOnEncode(s, t.elem, v, 0, head, rest, b, []);
    assert [] + ElemEncodings(s, t.elem, v, 0) == ElemEncodings(s, t.elem, v, 0);
  }

  /** `n` element sizes from element `i` add up to where element `i + n` starts. */
  lemma {:induction false} SizeElemsOnEncode(s: Schema, e: Type, v: Value, i: nat, n: nat, pre: Bytes, rest: Bytes,
      b: Bytes)
    requires Accepted(s) && Items(s, e, v) && i + n < |v.items|
    requires b == pre + EncodeElems(s, e, v, i) + rest
    ensures var r := SizeElems(s, e, n, b, |pre|, 0);
            && r.Ok? && r.value < |b|
            && b[r.value..] == Encode(s, e, v.items[i + n]) + (EncodeElems(s, e, v, i + n + 1) + rest)
            && (FixedSize(s, e).Some? ==> r.value == |pre| + n * FixedSize(s, e).value)
    decreases n
  {
    hide Encode, WellTyped, Need, Size, MinWireSize, FixedSize, TypeOk, Accepted, EncodeElems, FieldStep;
    var x := Encode(s, e, v.items[i]);
    ElemAt(s, e, v, i, pre, rest, b);
    if n > 0 {
      SizeElemsOnEncode(s, e, v, i + 1, n - 1, pre + x, rest, b);
      if FixedSize(s, e).Some? {
        FixedSizeExact(s, e, v.items[i]);
        MulSucc(FixedSize(s, e).value, n);
      }
    }
  }

  /** At(i) starts exactly at element `i`, and refuses every index outside the array. */
  lemma AtOnEncode(s: Schema, t: Type, v: Value, i: int, rest: Bytes)
    requires Accepted(s) && TypeOk(s, t) && (t.Array? || t.VarArray?)
    requires WellTyped(s, t, v) && DepthOk(0, Need(s, t, v))
    ensures Items(s, t.elem, v)
    ensures At(s, t, i, Encode(s, t, v) + rest)
         == if 0 <= i < |v.items|
            then Ok(Encode(s, t.elem, v.items[i]) + (EncodeElems(s, t.elem, v, i + 1) + rest))
            else Err(IndexOutOfRange)
  {
    ItemsOfArray(s, t, v);
    hide Encode, WellTyped, Need, MinWireSize, SizeElems, FixedSize, TypeOk, EncodeElems, PutU32, GetU32, Items;
    var e := t.elem;
    var b := Encode(s, t, v) + rest;
    var head := if t.Array? then [] else PutU32(|v.items|);
    if t.VarArray? { PrefixWord(|v.items|, EncodeElems(s, e, v, 0), rest, b); }
    if 0 <= i < |v.items| {
      assert b == head + EncodeElems(s, e, v, 0) + rest;
      AtWithin(s, t, v, i, head, rest, b);
    }
  }

  lemma AtWithin(s: Schema, t: Type, v: Value, i: nat, head: Bytes, rest: Bytes, b: Bytes)
    requires Accepted(s) && TypeOk(s, t) && (t.Array? || t.VarArray?) && Items(s, t.elem, v) && i < |v.items|
    requires b == head + EncodeElems(s, t.elem, v, 0) + rest
    requires |head| == if t.VarArray? then 4 else 0
    requires if t.VarArray? then ArrayCount(b, t.max) == Ok(|v.items|) else t.count == |v.items|
    ensures At(s, t, i, b) == Ok(Encode(s, t.elem, v.items[i]) + (EncodeElems(s, t.elem, v, i + 1) + rest))
  {
    hide Encode, WellTyped, Need, MinWireSize, SizeElems, FixedSize, TypeOk, EncodeElems, ArrayCount;
    SizeElemsOnEncode(s, t.elem, v, 0, i, head, rest, b);
    if FixedSize(s, t.elem).Some? { FixedSizeExact(s, t.elem, v.items[i]); }
  }
}
