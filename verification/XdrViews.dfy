/** The meaning of the view code the generator emits: size(), valid(), field accessors, Fields()
    and the array methods, for every accepted schema and every byte buffer.

    A view is a "fat" slice: it may carry bytes after the value. All functions are total on
    buffers, so their well-formedness is the claim that no emitted slice expression panics. */
module XdrViews {
  import opened Common
  import opened XdrSchema
  import opened XdrMinSize

  datatype ViewError =
    | ShortBuffer
    | WrongDiscriminant
    | UnknownDiscriminant
    | IndexOutOfRange
    | CountExceedsData
    | DepthExceeded
    | OpaqueExceedsMax
    | BadBool
    | CountExceedsMax
    | NonZeroPadding

  type Extent = Result<nat, ViewError>

  const MAX_DEPTH: int := 1500

  // ---------------------------------------------------------------- support code

  /** VarOpaqueView.size. */
  function VarOpaqueSize(b: Bytes): (r: Extent) {
    if |b| < 4 then Err(ShortBuffer)
    else
      var n := GetU32(b);
      if n > MAX_INT32 then Err(ShortBuffer)
      else if 4 + n + Pad(n) > |b| then Err(ShortBuffer)
      else Ok(4 + n + Pad(n))
  }

  /** VarOpaqueView.Value. */
  function VarOpaqueValue(b: Bytes): (r: Result<Bytes, ViewError>) {
    if |b| < 4 then Err(ShortBuffer)
    else
      var n := GetU32(b);
      if n > MAX_INT32 then Err(ShortBuffer)
      else if 4 + n + Pad(n) > |b| then Err(ShortBuffer)
      else if b[4 + n..4 + n + Pad(n)] != Zeros(Pad(n)) then Err(NonZeroPadding)
      else Ok(b[4..4 + n])
  }

  /** arrayViewCount. */
  function ArrayCount(b: Bytes, max: nat): (r: Extent)
    ensures r.Ok? ==> |b| >= 4 && r.value == GetU32(b) <= MAX_INT32
  {
    if |b| < 4 then Err(ShortBuffer)
    else
      var n := GetU32(b);
      if n > MAX_INT32 then Err(ShortBuffer)
      else if max > 0 && n > max then Err(CountExceedsMax)
      else Ok(n)
  }

  /** arrayViewCountChecked: also refuses a count whose elements cannot fit the buffer. */
  function ArrayCountChecked(b: Bytes, max: nat, minElemW: nat): (r: Extent)
    requires minElemW >= 1
    ensures r.Ok? ==> r == ArrayCount(b, max) && r.value * minElemW <= |b| - 4
  {
    var n :- ArrayCount(b, max);
    if n > (|b| - 4) / minElemW then Err(CountExceedsData)
    else
      DivisionBound(n, |b| - 4, minElemW);
      Ok(n)
  }

  lemma DivisionBound(n: nat, x: nat, w: nat)
    requires w >= 1
    ensures n <= x / w <==> n * w <= x
  {
    var q := x / w;
    assert q * w <= x < q * w + w;
    if n <= q {
      assert n * w <= q * w;
    } else {
      assert n * w >= (q + 1) * w == q * w + w;
    }
  }

  /** isVoidCase0Union: the union's case 0 is a void arm, the usual extension point. */
  predicate VoidCase0(s: Schema, t: Type) {
    && t.Ref? && t.name in s.defs && s.defs[t.name].def.UnionDef?
    && var arms := s.defs[t.name].def.arms;
       var ix := ArmIndex(arms, 0);
       ix.Some? && arms[ix.value].body.None?
  }

  // ---------------------------------------------------------------- size()

  /** Levels of recursion left at depth `d`. */
  function Fuel(d: nat): (n: nat) {
    if d > MAX_DEPTH then 1 else MAX_DEPTH + 2 - d
  }

  /** The emitted size(depth). Types of fixed size answer with a constant and look at nothing. */
  function Size(s: Schema, t: Type, b: Bytes, d: nat): (r: Extent)
    requires Accepted(s) && TypeOk(s, t)
    decreases Fuel(d), 1, 0
  {
    if FixedSize(s, t).Some? then Ok(FixedSize(s, t).value)
    else
      match t
      case OpaqueVar(_) => VarOpaqueSize(b)
      case Optional(e) =>
        if d > MAX_DEPTH then Err(DepthExceeded)
        else if |b| < 4 then Err(ShortBuffer)
        else if GetU32(b) == 0 then Ok(4)
        else if GetU32(b) == 1 then
          var sz :- Size(s, e, b[4..], d + 1);
          Ok(4 + sz)
        else Err(BadBool)
      case Array(e, n) =>
        if d > MAX_DEPTH then Err(DepthExceeded) else SizeElems(s, e, n, b, 0, d + 1)
      case VarArray(e, max) =>
        if d > MAX_DEPTH then Err(DepthExceeded)
        else
          var n :- ArrayCount(b, max);
          if FixedSize(s, e).Some? then
            var total := 4 + n * FixedSize(s, e).value;
            if total > |b| then Err(CountExceedsData) else Ok(total)
          else SizeElems(s, e, n, b, 4, d + 1)
      case Ref(name) =>
        assert DefOk(s, name);
        if d > MAX_DEPTH then Err(DepthExceeded)
        else
          match s.defs[name].def
          case StructDef(fs) => SizeFields(s, fs, 0, b, 0, d + 1)
          case UnionDef(arms) =>
            if |b| < 4 then Err(ShortBuffer)
            else
              var ix := ArmIndex(arms, AsInt32(GetU32(b)));
              if ix.None? then Err(UnknownDiscriminant)
              else if arms[ix.value].body.None? then Ok(4)
              else
                var sz :- Size(s, arms[ix.value].body.value, b[4..], d + 1);
                if 4 + sz > |b| then Err(ShortBuffer) else Ok(4 + sz)
  }

  /** arrayTraverse over size(c) of `k` elements from `off`. */
  function SizeElems(s: Schema, e: Type, k: nat, b: Bytes, off: nat, c: nat): (r: Extent)
    requires Accepted(s) && TypeOk(s, e)
    decreases Fuel(c), 2, k
  {
    if k == 0 then Ok(off)
    else if off > |b| then Err(ShortBuffer)
    else
      var sz :- Size(s, e, b[off..], c);
      SizeElems(s, e, k - 1, b, off + sz, c)
  }

  /** How far emitSizeTraversal advances past one field whose size() runs at depth `c`: a constant
      for a fixed-size field, an inlined 4 for a void case 0, size() otherwise. */
  function FieldStep(s: Schema, t: Type, b: Bytes, off: nat, c: nat): (r: Extent)
    requires Accepted(s) && TypeOk(s, t)
    decreases Fuel(c), 2, 0
  {
    if FixedSize(s, t).Some? then Ok(FixedSize(s, t).value)
    else if off > |b| then Err(ShortBuffer)
    else if VoidCase0(s, t) && |b| - off >= 4 && GetU32(b[off..]) == 0 then Ok(4)
    else
      var sz :- Size(s, t, b[off..], c);
      if !VoidCase0(s, t) && off + sz > |b| then Err(ShortBuffer) else Ok(sz)
  }

  /** emitSizeTraversal over fields `i..`. */
  function SizeFields(s: Schema, fs: seq<Type>, i: nat, b: Bytes, off: nat, c: nat): (r: Extent)
    requires Accepted(s) && i <= |fs|
    requires forall j :: 0 <= j < |fs| ==> TypeOk(s, fs[j])
    ensures r.Ok? ==> off <= r.value <= |b|
    decreases Fuel(c), 3, |fs| - i
  {
    if i == |fs| then if off > |b| then Err(ShortBuffer) else Ok(off)
    else
      var sz :- FieldStep(s, fs[i], b, off, c);
      SizeFields(s, fs, i + 1, b, off + sz, c)
  }

  /** Types whose size() has seen the whole extent: it leaves out values of fixed size, for which it looks at
      nothing, and optionals that end in one. */
  predicate Measured(s: Schema, t: Type) {
    FixedSize(s, t).None?
    && match t
       case Optional(e) => Measured(s, e)
       case Array(e, _) => Measured(s, e)
       case VarArray(e, _) => FixedSize(s, e).Some? || Measured(s, e)
       case _ => true
  }

  /** On every buffer, what size() measures lies within the buffer. */
  lemma {:induction false} SizeWithin(s: Schema, t: Type, b: Bytes, d: nat)
    requires Accepted(s) && TypeOk(s, t) && Measured(s, t)
    ensures Size(s, t, b, d).Ok? ==> Size(s, t, b, d).value <= |b|
    decreases t, 0, 0
  {
    match t
    case Optional(e) => if |b| >= 4 { SizeWithin(s, e, b[4..], d + 1); }
    case Array(e, n) => ElemsWithin(s, e, n, b, 0, d + 1);
    case VarArray(e, max) =>
      if ArrayCount(b, max).Ok? && FixedSize(s, e).None? { ElemsWithin(s, e, ArrayCount(b, max).value, b, 4, d + 1); }
    case Ref(name) => assert DefOk(s, name);
    case _ =>
  }

  lemma {:induction false} ElemsWithin(s: Schema, e: Type, k: nat, b: Bytes, off: nat, c: nat)
    requires Accepted(s) && TypeOk(s, e) && Measured(s, e) && off <= |b|
    ensures SizeElems(s, e, k, b, off, c).Ok? ==> SizeElems(s, e, k, b, off, c).value <= |b|
    decreases e, 1, k
  {
    hide Size;
    if k > 0 {
      SizeWithin(s, e, b[off..], c);
      var sz := Size(s, e, b[off..], c);
      if sz.Ok? { ElemsWithin(s, e, k - 1, b, off + sz.value, c); }
    }
  }

  /** A presence flag is 0 or 1 for size() and valid() alike. */
  lemma FlagsAreBits(s: Schema, e: Type, b: Bytes, d: nat)
    requires Accepted(s) && TypeOk(s, e)
    ensures Size(s, Optional(e), b, d).Ok? || Valid(s, Optional(e), b, d).Ok? ==>
              d <= 1500 && |b| >= 4 && (GetU32(b) == 0 || GetU32(b) == 1)
  {
  }

  /** The others can measure more than there is: eight bytes for the presence flag of a missing integer. */
  lemma SizeBeyond(s: Schema)
    requires Accepted(s)
    ensures Size(s, Optional(Scalar(Uint)), PutU32(1), 0) == Ok(8) && |PutU32(1)| == 4
  {
    PutGetU32(1, []);
    assert PutU32(1) + [] == PutU32(1);
  }

  // ---------------------------------------------------------------- valid()

  /** The first component of valid()'s termination measure: fixed-size types do not count depth,
      they recurse into strictly lower-ranked types. */
  function Lv(s: Schema, t: Type, d: nat): (n: nat) {
    if FixedSize(s, t).Some? then 0 else Fuel(d)
  }

  /** The emitted valid(depth): every child is visited, no shortcut is taken. */
  function Valid(s: Schema, t: Type, b: Bytes, d: nat): (r: Extent)
    requires Accepted(s) && TypeOk(s, t)
    decreases Lv(s, t, d), Height(s, t), 1, 0
  {
    match t
    case Scalar(k) =>
      if |b| < Width(k) then Err(ShortBuffer)
      else if k.Bool? && GetU32(b) > 1 then Err(BadBool)
      else Ok(Width(k))
    case OpaqueFixed(n) =>
      if |b| < n + Pad(n) then Err(ShortBuffer)
      else if b[n..n + Pad(n)] != Zeros(Pad(n)) then Err(NonZeroPadding)
      else Ok(n + Pad(n))
    case OpaqueVar(max) =>
      var x :- VarOpaqueValue(b);
      if max > 0 && |x| > max then Err(OpaqueExceedsMax) else VarOpaqueSize(b)
    case Optional(e) =>
      if d > MAX_DEPTH then Err(DepthExceeded)
      else if |b| < 4 then Err(ShortBuffer)
      else if GetU32(b) == 0 then Ok(4)
      else if GetU32(b) == 1 then
        var sz :- Valid(s, e, b[4..], d + 1);
        Ok(4 + sz)
      else Err(BadBool)
    case Array(e, n) =>
      if d > MAX_DEPTH then Err(DepthExceeded) else ValidElems(s, t, n, b, 0, d)
    case VarArray(e, max) =>
      if d > MAX_DEPTH then Err(DepthExceeded)
      else
        var n :- ArrayCount(b, max);
        ValidElems(s, t, n, b, 4, d)
    case Ref(name) =>
      assert DefOk(s, name);
      var fixed := s.defs[name].fixedSize;
      match s.defs[name].def
      case StructDef(fs) =>
        if fixed.Some? && |b| < fixed.value then Err(ShortBuffer)
        else if fixed.None? && d > MAX_DEPTH then Err(DepthExceeded)
        else ValidFields(s, name, 0, b, 0, d)
      case UnionDef(arms) =>
        if fixed.Some? && |b| < fixed.value then Err(ShortBuffer)
        else if fixed.None? && d > MAX_DEPTH then Err(DepthExceeded)
        else if |b| < 4 then Err(ShortBuffer)
        else
          var ix := ArmIndex(arms, AsInt32(GetU32(b)));
          if ix.None? then Err(UnknownDiscriminant)
          else if arms[ix.value].body.None? then Ok(4)
          else
            assert fixed.Some? ==> FixedBelow(s, name, arms[ix.value].body.value);
            var sz :- Valid(s, arms[ix.value].body.value, b[4..], d + 1);
            if 4 + sz > |b| then Err(ShortBuffer) else Ok(4 + sz)
      case EnumDef(ms) =>
        if |b| < 4 then Err(ShortBuffer)
        else if AsInt32(GetU32(b)) !in ms then Err(UnknownDiscriminant)
        else Ok(4)
  }

  /** arrayTraverse over valid(d + 1) of `k` elements of the array type `t`. */
  function ValidElems(s: Schema, t: Type, k: nat, b: Bytes, off: nat, d: nat): (r: Extent)
    requires Accepted(s) && TypeOk(s, t) && (t.Array? || t.VarArray?) && d <= MAX_DEPTH
    decreases Lv(s, t, d), Height(s, t), 0, k
  {
    if k == 0 then Ok(off)
    else if off > |b| then Err(ShortBuffer)
    else
      var sz :- Valid(s, t.elem, b[off..], d + 1);
      ValidElems(s, t, k - 1, b, off + sz, d)
  }

  /** emitValidTraversal over fields `i..` of the struct `name`. */
  function ValidFields(s: Schema, name: string, i: nat, b: Bytes, off: nat, d: nat): (r: Extent)
    requires Accepted(s) && name in s.defs && s.defs[name].def.StructDef?
    requires i <= |s.defs[name].def.fields| && off <= |b|
    requires s.defs[name].fixedSize.None? ==> d <= MAX_DEPTH
    decreases Lv(s, Ref(name), d), Height(s, Ref(name)), 0, |s.defs[name].def.fields| - i
  {
    var fs := s.defs[name].def.fields;
    assert DefOk(s, name);
    if i == |fs| then Ok(off)
    else
      assert s.defs[name].fixedSize.Some? ==> FixedBelow(s, name, fs[i]);
      var sz :- Valid(s, fs[i], b[off..], d + 1);
      if off + sz > |b| then Err(ShortBuffer) else ValidFields(s, name, i + 1, b, off + sz, d)
  }
}
