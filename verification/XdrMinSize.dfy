/** Fixed wire sizes, the minimum-wire-size analysis over possibly cyclic schemas, and the
    conditions under which the view generator accepts a schema. */
module XdrMinSize {
  import opened Common
  import opened XdrSchema

  /** ViewType.FixedSize: the wire size shared by all values of the type, if the type has one. */
  function FixedSize(s: Schema, t: Type): (r: Option<nat>) {
    match t
    case Scalar(k) => Some(Width(k))
    case OpaqueFixed(n) => Some(n + Pad(n))
    case Array(e, n) =>
      var f := FixedSize(s, e);
      if f.Some? then Some(n * f.value) else None
    case Ref(name) =>
      if name !in s.defs then None
      else if s.defs[name].def.EnumDef? then Some(4)
      else s.defs[name].fixedSize
    case _ => None
  }

  /** Position of a type in the containment order of fixed-size types. */
  function Height(s: Schema, t: Type): (h: nat) {
    match t
    case Array(e, _) => 1 + Height(s, e)
    case Ref(name) => if name in s.rank then s.rank[name] else 0
    case _ => 0
  }

  /** Every name used by the type is defined, so ResolveViewType succeeds. */
  predicate Resolves(s: Schema, t: Type) {
    match t
    case Optional(e) => Resolves(s, e)
    case Array(e, _) => Resolves(s, e)
    case VarArray(e, _) => Resolves(s, e)
    case Ref(name) => name in s.defs
    case _ => true
  }

  // ---------------------------------------------------------------- minimum wire size

  /** Generator.minWireSize with its uint32 arithmetic. The set of names on the recursion stack
      only grows, which is what makes the pass terminate on cyclic schemas. */
  function MinWireSize(s: Schema, t: Type, visiting: set<string>): (m: nat)
    ensures FixedSize(s, t).Some? ==> m == FixedSize(s, t).value
    decreases |s.defs.Keys - visiting|, 1, 0
  {
    if FixedSize(s, t).Some? then FixedSize(s, t).value
    else if !t.Ref? || t.name !in s.defs then 4
    else if t.name in visiting then 0
    else
      var inner := visiting + {t.name};
      assert s.defs.Keys - inner == (s.defs.Keys - visiting) - {t.name};
      match s.defs[t.name].def
      case StructDef(fs) => MinFields(s, fs, inner, 0, 0)
      case UnionDef(arms) => (4 + MinArms(s, arms, inner, 0, 0)) % TWO32
      case EnumDef(_) => 4
  }

  /** minWireSizeStruct: the running total over fields `i..`; unresolved fields are skipped. */
  function MinFields(s: Schema, fs: seq<Type>, visiting: set<string>, i: nat, total: nat): (m: nat)
    requires i <= |fs|
    decreases |s.defs.Keys - visiting|, 2, |fs| - i
  {
    if i == |fs| then total
    else if !Resolves(s, fs[i]) then MinFields(s, fs, visiting, i + 1, total)
    else MinFields(s, fs, visiting, i + 1, (total + MinWireSize(s, fs[i], visiting)) % TWO32)
  }

  /** minWireSizeUnionArms: the running minimum over arms `i..`; a void arm counts 0. */
  function MinArms(s: Schema, arms: seq<Arm>, visiting: set<string>, i: nat, best: nat): (m: nat)
    requires i <= |arms|
    decreases |s.defs.Keys - visiting|, 2, |arms| - i
  {
    if i == |arms| then best
    else
      var b := arms[i].body;
      var m := if b.Some? && Resolves(s, b.value) then MinWireSize(s, b.value, visiting) else 0;
      MinArms(s, arms, visiting, i + 1, if i == 0 || m < best then m else best)
  }

  /** minElemWidth: the divisor of the array count check, never below 1. */
  function MinElemWidth(s: Schema, e: Type): (w: nat)
    ensures w >= 1
  {
    var computed := MinWireSize(s, e, {});
    if computed < 1 then 1 else computed
  }

  // ---------------------------------------------------------------- accepted schemas

  /** The type constraints enforced while planning: no opaque[0], no empty fixed array, sizes
      that fit uint32, known names, and no array whose element can be empty on the wire. */
  predicate TypeOk(s: Schema, t: Type) {
    match t
    case Scalar(_) => true
    case OpaqueFixed(n) => 0 < n <= MAX_UINT32 - 3
    case OpaqueVar(max) => max <= MAX_UINT32
    case Optional(e) => TypeOk(s, e)
    case Array(e, n) =>
      && TypeOk(s, e) && 0 < n <= MAX_UINT32 && MinWireSize(s, e, {}) > 0
      && (FixedSize(s, t).Some? ==> FixedSize(s, t).value <= MAX_UINT32)
    case VarArray(e, max) => TypeOk(s, e) && max <= MAX_UINT32 && MinWireSize(s, e, {}) > 0
    case Ref(name) => name in s.defs
  }

  function SumFixed(s: Schema, fs: seq<Type>, i: nat): (n: nat)
    requires i <= |fs|
    requires forall j :: 0 <= j < |fs| ==> FixedSize(s, fs[j]).Some?
    decreases |fs| - i
  {
    if i == |fs| then 0 else FixedSize(s, fs[i]).value + SumFixed(s, fs, i + 1)
  }

  /** A type usable inside the fixed-size definition `name`. */
  predicate FixedBelow(s: Schema, name: string, t: Type) {
    FixedSize(s, t).Some? && name in s.rank && Height(s, t) < s.rank[name]
  }

  /** The fixed_size recorded for `name`, when there is one, is the size of all its values. */
  predicate DefOk(s: Schema, name: string)
    requires name in s.defs
  {
    var fixed := s.defs[name].fixedSize;
    match s.defs[name].def
    case StructDef(fs) =>
      && (forall i :: 0 <= i < |fs| ==> TypeOk(s, fs[i]))
      && (fixed.Some? ==>
            && (forall i :: 0 <= i < |fs| ==> FixedBelow(s, name, fs[i]))
            && fixed.value == SumFixed(s, fs, 0) && fixed.value <= MAX_UINT32)
    case UnionDef(arms) =>
      && (forall i :: 0 <= i < |arms| && arms[i].body.Some? ==> TypeOk(s, arms[i].body.value))
      && (fixed.Some? ==>
            && 4 <= fixed.value <= MAX_UINT32
            && forall i :: 0 <= i < |arms| ==>
                 if arms[i].body.None? then fixed.value == 4
                 else
                   && FixedBelow(s, name, arms[i].body.value)
                   && fixed.value == 4 + FixedSize(s, arms[i].body.value).value)
    case EnumDef(_) => true
  }

  ghost predicate Accepted(s: Schema) {
    forall name {:trigger DefOk(s, name)} :: name in s.defs ==> DefOk(s, name)
  }

  // ---------------------------------------------------------------- fixed sizes are exact

  lemma MulSucc(w: int, n: int)
    ensures w * n == w + w * (n - 1) && n * w == w + (n - 1) * w
  {
  }

  lemma {:induction false} FixedSizeExact(s: Schema, t: Type, v: Value)
    requires Accepted(s) && WellTyped(s, t, v) && FixedSize(s, t).Some?
    ensures |Encode(s, t, v)| == FixedSize(s, t).value
    decreases v, 1, 0
  {
    match t
    case Array(e, n) => ElemsFixed(s, e, v, 0);
    case Ref(name) =>
      assert DefOk(s, name);
      match s.defs[name].def {
        case StructDef(fs) =>
          assert forall i :: 0 <= i < |fs| ==> FixedBelow(s, name, fs[i]);
          FieldsFixed(s, fs, v, 0);
        case UnionDef(arms) =>
          var body := arms[ArmIndex(arms, v.disc).value].body;
          if body.Some? { FixedSizeExact(s, body.value, v.arm); }
        case EnumDef(_) =>
      }
    case _ =>
  }

  lemma {:induction false} ElemsFixed(s: Schema, e: Type, v: Value, i: nat)
    requires Accepted(s) && FixedSize(s, e).Some?
    requires v.VSeq? && i <= |v.items|
    requires forall j :: 0 <= j < |v.items| ==> WellTyped(s, e, v.items[j])
    ensures |EncodeElems(s, e, v, i)| == (|v.items| - i) * FixedSize(s, e).value
    decreases v, 0, |v.items| - i
  {
    hide Encode, WellTyped, FixedSize;
    if i < |v.items| {
      FixedSizeExact(s, e, v.items[i]);
      ElemsFixed(s, e, v, i + 1);
      var w, n := FixedSize(s, e).value, |v.items| - i;
      MulSucc(w, n);
    }
  }

  lemma {:induction false} FieldsFixed(s: Schema, fs: seq<Type>, v: Value, i: nat)
    requires Accepted(s) && v.VSeq? && |v.items| == |fs| && i <= |fs|
    requires forall j :: 0 <= j < |fs| ==> FixedSize(s, fs[j]).Some?
    requires forall j :: 0 <= j < |fs| ==> WellTyped(s, fs[j], v.items[j])
    ensures |EncodeFields(s, fs, v, i)| == SumFixed(s, fs, i)
    decreases v, 0, |fs| - i
  {
    hide Encode, WellTyped, FixedSize;
    if i < |fs| {
      FixedSizeExact(s, fs[i], v.items[i]);
      FieldsFixed(s, fs, v, i + 1);
    }
  }

  // ---------------------------------------------------------------- the minimum is a lower bound

  /** minWireSize never exceeds the size of any value, on any schema the generator accepts,
      cyclic or not, whatever names are already on the stack. */
  lemma {:induction false} MinWireSizeLowerBound(s: Schema, t: Type, visiting: set<string>, v: Value)
    requires Accepted(s) && TypeOk(s, t) && WellTyped(s, t, v)
    ensures MinWireSize(s, t, visiting) <= |Encode(s, t, v)|
    decreases v, 1, 0
  {
    if FixedSize(s, t).Some? {
      FixedSizeExact(s, t, v);
    } else {
      match t
      case Array(e, n) => MinFixedArray(s, e, v);
      case Ref(name) => if name !in visiting { MinNamedLowerBound(s, name, visiting, v); }
      case _ =>
    }
  }

  /** A fixed array has at least one element, and that element fills at least one block. */
  lemma {:induction false} MinFixedArray(s: Schema, e: Type, v: Value)
    requires Accepted(s) && TypeOk(s, e) && MinWireSize(s, e, {}) > 0
    requires v.VSeq? && |v.items| > 0
    requires forall j :: 0 <= j < |v.items| ==> WellTyped(s, e, v.items[j])
    ensures |EncodeElems(s, e, v, 0)| >= 4
    decreases v, 0, 0
  {
    MinWireSizeLowerBound(s, e, {}, v.items[0]);
    EncodeAligned(s, e, v.items[0]);
  }

  lemma {:induction false} MinNamedLowerBound(s: Schema, name: string, visiting: set<string>, v: Value)
    requires Accepted(s) && WellTyped(s, Ref(name), v)
    requires FixedSize(s, Ref(name)).None? && name !in visiting
    ensures MinWireSize(s, Ref(name), visiting) <= |Encode(s, Ref(name), v)|
    decreases v, 0, if v.VSeq? then |v.items| + 1 else 0
  {
    assert DefOk(s, name);
    hide TypeOk, FixedBelow, FixedSize, SumFixed;
    var inner := visiting + {name};
    match s.defs[name].def
    case StructDef(fs) => MinFieldsLowerBound(s, fs, inner, 0, 0, v);
    case UnionDef(arms) =>
      var ix := ArmIndex(arms, v.disc).value;
      var body := arms[ix].body;
      if body.Some? { MinWireSizeLowerBound(s, body.value, inner, v.arm); }
      MinArmsLowerBound(s, arms, inner, 0, 0, ix);
    case EnumDef(_) =>
  }

  lemma {:induction false} MinFieldsLowerBound(s: Schema, fs: seq<Type>, visiting: set<string>, i: nat, total: nat,
      v: Value)
    requires Accepted(s) && v.VSeq? && |v.items| == |fs| && i <= |fs|
    requires forall j :: 0 <= j < |fs| ==> TypeOk(s, fs[j]) && WellTyped(s, fs[j], v.items[j])
    ensures MinFields(s, fs, visiting, i, total) <= total + |EncodeFields(s, fs, v, i)|
    decreases v, 0, |fs| - i
  {
    hide Encode, WellTyped, MinWireSize;
    if i < |fs| {
      if Resolves(s, fs[i]) {
        MinWireSizeLowerBound(s, fs[i], visiting, v.items[i]);
        MinFieldsLowerBound(s, fs, visiting, i + 1, (total + MinWireSize(s, fs[i], visiting)) % TWO32, v);
      } else {
        MinFieldsLowerBound(s, fs, visiting, i + 1, total, v);
      }
    }
  }

  /** The running minimum ends at or below the contribution of every arm still to come. */
  lemma {:induction false} MinArmsLowerBound(s: Schema, arms: seq<Arm>, visiting: set<string>, i: nat, best: nat,
      ix: nat)
    requires i <= ix < |arms|
    ensures MinArms(s, arms, visiting, i, best) <=
            (if arms[ix].body.Some? && Resolves(s, arms[ix].body.value)
             then MinWireSize(s, arms[ix].body.value, visiting) else 0)
    decreases |arms| - i
  {
    var b := arms[i].body;
    var m := if b.Some? && Resolves(s, b.value) then MinWireSize(s, b.value, visiting) else 0;
    var next := if i == 0 || m < best then m else best;
    if i == ix {
      MinArmsAtMostBest(s, arms, visiting, i + 1, next);
    } else {
      MinArmsLowerBound(s, arms, visiting, i + 1, next, ix);
    }
  }

  lemma {:induction false} MinArmsAtMostBest(s: Schema, arms: seq<Arm>, visiting: set<string>, i: nat, best: nat)
    requires 0 < i <= |arms|
    ensures MinArms(s, arms, visiting, i, best) <= best
    decreases |arms| - i
  {
    if i < |arms| {
      var b := arms[i].body;
      var m := if b.Some? && Resolves(s, b.value) then MinWireSize(s, b.value, visiting) else 0;
      MinArmsAtMostBest(s, arms, visiting, i + 1, if m < best then m else best);
    }
  }

  /** The empty value of a type with a length, a count or a presence flag takes the minimum. */
  lemma MinIsAttained(s: Schema, t: Type, visiting: set<string>)
    requires t.OpaqueVar? || t.Optional? || t.VarArray?
    ensures var v := if t.OpaqueVar? then VBytes([]) else if t.Optional? then VAbsent else VSeq([]);
            WellTyped(s, t, v) && |Encode(s, t, v)| == MinWireSize(s, t, visiting)
  {
  }

  /** What one arm contributes to its union. */
  function ArmMin(s: Schema, arm: Arm, visiting: set<string>): (m: nat) {
    if arm.body.Some? && Resolves(s, arm.body.value) then MinWireSize(s, arm.body.value, visiting) else 0
  }

  /** A union takes its discriminant and the least any of its arms takes. */
  lemma MinOfUnion(s: Schema, name: string, visiting: set<string>)
    requires name in s.defs && s.defs[name].def.UnionDef? && s.defs[name].def.arms != []
    requires FixedSize(s, Ref(name)).None? && name !in visiting
    ensures var arms, inner := s.defs[name].def.arms, visiting + {name};
            exists i :: && 0 <= i < |arms|
                        && MinWireSize(s, Ref(name), visiting) == (4 + ArmMin(s, arms[i], inner)) % TWO32
                        && forall j :: 0 <= j < |arms| ==> ArmMin(s, arms[i], inner) <= ArmMin(s, arms[j], inner)
  {
    var arms, inner := s.defs[name].def.arms, visiting + {name};
    var i := LeastArm(s, arms, inner, 0, 0, 0);
    forall j | 0 <= j < |arms| ensures ArmMin(s, arms[i], inner) <= ArmMin(s, arms[j], inner) {
      MinArmsLowerBound(s, arms, inner, 0, 0, j);
    }
  }

  lemma {:induction false} LeastArm(s: Schema, arms: seq<Arm>, visiting: set<string>, i: nat, best: nat, at: nat)
      returns (least: nat)
    requires i <= |arms| && (i > 0 ==> at < i && best == ArmMin(s, arms[at], visiting)) && arms != []
    ensures least < |arms| && MinArms(s, arms, visiting, i, best) == ArmMin(s, arms[least], visiting)
    decreases |arms| - i
  {
    hide MinWireSize;
    if i == |arms| {
      least := at;
    } else {
      var m := ArmMin(s, arms[i], visiting);
      if i == 0 || m < best {
        least := LeastArm(s, arms, visiting, i + 1, m, i);
      } else {
        least := LeastArm(s, arms, visiting, i + 1, best, at);
      }
    }
  }

  /** The divisor of the count check is the minimum itself on every array the generator accepts. */
  lemma ElemWidthIsMinimum(s: Schema, e: Type, max: nat)
    requires TypeOk(s, VarArray(e, max))
    ensures MinElemWidth(s, e) == MinWireSize(s, e, {})
  {
  }

  /** The count check of an array never rejects a well-formed one: `n` elements take at least
      `n` times the divisor. */
  lemma {:induction false} ElemsAtLeastCount(s: Schema, e: Type, v: Value, i: nat)
    requires Accepted(s) && TypeOk(s, e) && MinWireSize(s, e, {}) > 0
    requires v.VSeq? && i <= |v.items|
    requires forall j :: 0 <= j < |v.items| ==> WellTyped(s, e, v.items[j])
    ensures |EncodeElems(s, e, v, i)| >= (|v.items| - i) * MinElemWidth(s, e)
    decreases |v.items| - i
  {
    hide Encode, WellTyped, MinWireSize;
    if i < |v.items| {
      MinWireSizeLowerBound(s, e, {}, v.items[i]);
      ElemsAtLeastCount(s, e, v, i + 1);
      var w, n := MinElemWidth(s, e), |v.items| - i;
      MulSucc(w, n);
    }
  }
}
