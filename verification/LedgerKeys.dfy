/** Ledger keys and the compressed form under which the checkpoint reader remembers them. */
module LedgerKeys {
  import opened Common
  import opened XdrSchema

  /** A 32-byte ed25519 account id, the only public key type. */
  type AccountId = Bytes

  datatype Asset =
    | Native
    | Alpha4(code: Bytes, issuer: AccountId)
    | Alpha12(code: Bytes, issuer: AccountId)
    | PoolShare(pool: Bytes)

  /** A ledger key. The contract address and the key of contract data are carried as their XDR
      encodings, which determine them (XdrSchema.EncodePrefixFree). */
  datatype LedgerKey =
    | Account(account: AccountId)
    | Trustline(account: AccountId, asset: Asset)
    | Offer(seller: AccountId, offerId: int)
    | Data(account: AccountId, name: Bytes)
    | ClaimableBalance(balance: Bytes)
    | LiquidityPool(pool: Bytes)
    | ContractData(contract: Bytes, key: Bytes, durability: nat)
    | ContractCode(hash: Bytes)
    | ConfigSetting(setting: int)
    | Ttl(keyHash: Bytes)

  /** `b` is the XDR encoding of some value of type `t`. */
  ghost predicate IsEncoding(s: Schema, t: Type, b: Bytes) {
    exists v :: WellTyped(s, t, v) && b == Encode(s, t, v)
  }

  ghost predicate AssetOk(a: Asset) {
    match a
    case Native => true
    case Alpha4(code, issuer) => |code| == 4 && |issuer| == 32
    case Alpha12(code, issuer) => |code| == 12 && |issuer| == 32
    case PoolShare(pool) => |pool| == 32
  }

  /** The key is a value of the XDR type LedgerKey; `s` defines SCAddress and SCVal. */
  ghost predicate KeyOk(s: Schema, k: LedgerKey) {
    match k
    case Account(a) => |a| == 32
    case Trustline(a, asset) => |a| == 32 && AssetOk(asset)
    case Offer(seller, id) => |seller| == 32 && InRange(Hyper, id)
    case Data(a, name) => |a| == 32 && |name| <= 64
    case ClaimableBalance(id) => |id| == 32
    case LiquidityPool(id) => |id| == 32
    case ContractData(c, key, dur) =>
      IsEncoding(s, Ref("SCAddress"), c) && IsEncoding(s, Ref("SCVal"), key) && dur <= 1
    case ContractCode(h) => |h| == 32
    case ConfigSetting(id) => InRange(Int, id)
    case Ttl(h) => |h| == 32
  }

  /** The LedgerEntryType discriminant, written as one byte. */
  function TypeByte(k: LedgerKey): (t: byte) {
    match k
    case Account(_) => 0
    case Trustline(_, _) => 1
    case Offer(_, _) => 2
    case Data(_, _) => 3
    case ClaimableBalance(_) => 4
    case LiquidityPool(_) => 5
    case ContractData(_, _, _) => 6
    case ContractCode(_) => 7
    case ConfigSetting(_) => 8
    case Ttl(_) => 9
  }

  /** The byte tells the ten entry types apart. */
  lemma TypeByteTells(k: LedgerKey, l: LedgerKey)
    requires TypeByte(k) == TypeByte(l)
    ensures (k.Account? <==> l.Account?) && (k.Trustline? <==> l.Trustline?) && (k.Offer? <==> l.Offer?)
    ensures (k.Data? <==> l.Data?) && (k.ClaimableBalance? <==> l.ClaimableBalance?)
    ensures (k.LiquidityPool? <==> l.LiquidityPool?) && (k.ContractData? <==> l.ContractData?)
    ensures (k.ContractCode? <==> l.ContractCode?) && (k.ConfigSetting? <==> l.ConfigSetting?) && (k.Ttl? <==> l.Ttl?)
  {
  }

  // ---------------------------------------------------------------- the compressed form

  /** The bytes without the zeros at their end. */
  function Trim(b: Bytes): (t: Bytes)
    ensures t <= b
    ensures t != [] ==> t[|t| - 1] != 0
  {
    if b != [] && b[|b| - 1] == 0 then Trim(b[..|b| - 1]) else b
  }

  function CompressAccount(a: AccountId): (b: Bytes) {
    [0] + a
  }

  function CompressAsset(a: Asset): (b: Bytes) {
    match a
    case Native => [0]
    case Alpha4(code, issuer) => [1] + Trim(code) + CompressAccount(issuer)
    case Alpha12(code, issuer) => [2] + Trim(code) + CompressAccount(issuer)
    case PoolShare(pool) => [3] + pool
  }

  function Compress(k: LedgerKey): (b: Bytes)
    requires k.Offer? ==> InRange(Hyper, k.offerId)
    requires k.ConfigSetting? ==> InRange(Int, k.setting)
    requires k.ContractData? ==> k.durability <= 1
  {
    [TypeByte(k)] + CompressBody(k)
  }

  /** What follows the type byte. */
  function CompressBody(k: LedgerKey): (b: Bytes)
    requires k.Offer? ==> InRange(Hyper, k.offerId)
    requires k.ConfigSetting? ==> InRange(Int, k.setting)
    requires k.ContractData? ==> k.durability <= 1
  {
    match k
    case Account(a) => CompressAccount(a)
    case Trustline(a, asset) => CompressAccount(a) + CompressAsset(asset)
    case Offer(_, id) => EncodeScalar(Hyper, id)
    case Data(a, name) => CompressAccount(a) + Trim(name)
    case ClaimableBalance(id) => [0] + id
    case LiquidityPool(id) => id
    case ContractData(c, key, dur) => c + key + [dur]
    case ContractCode(h) => h
    case ConfigSetting(id) => EncodeScalar(Int, id)
    case Ttl(h) => h
  }

  /** trimRightZeros. */
  method TrimRightZeros(b: Bytes) returns (t: Bytes)
    ensures t == Trim(b)
  {
    if |b| == 0 {
      return b;
    }
    var i := |b|;
    assert b[..i] == b;
    while i > 0
      invariant 0 <= i <= |b|
      invariant Trim(b[..i]) == Trim(b)
    {
      if b[i - 1] != 0 {
        break;
      }
      assert b[..i][..i - 1] == b[..i - 1];
      i := i - 1;
    }
    t := b[..i];
  }

  lemma AppendThree(start: Bytes, a: Bytes, b: Bytes, c: Bytes)
    ensures start + a + b + c == start + (a + b + c)
    ensures start + a + b == start + (a + b)
  {
  }

  /** xdr.EncodingBuffer: one growing buffer that the encoders append to. */
  class EncodingBuffer {
    var buf: Bytes

    constructor ()
      ensures buf == []
    {
      buf := [];
    }

    method Write(b: Bytes)
      modifies this
      ensures buf == old(buf) + b
    {
      buf := buf + b;
    }

    method AccountIdCompressEncodeTo(a: AccountId)
      modifies this
      ensures buf == old(buf) + CompressAccount(a)
    {
      Write([0]);
      Write(a);
      AppendThree(old(buf), [0], a, []);
    }

    method AssetTrustlineCompressEncodeTo(a: Asset)
      modifies this
      ensures buf == old(buf) + CompressAsset(a)
    {
      hide Trim, CompressAccount;
      match a
      case Native => Write([0]);
      case Alpha4(c, issuer) =>
        Write([1]);
        var code := TrimRightZeros(c);
        Write(code);
        AccountIdCompressEncodeTo(issuer);
        AppendThree(old(buf), [1], code, CompressAccount(issuer));
      case Alpha12(c, issuer) =>
        Write([2]);
        var code := TrimRightZeros(c);
        Write(code);
        AccountIdCompressEncodeTo(issuer);
        AppendThree(old(buf), [2], code, CompressAccount(issuer));
      case PoolShare(pool) =>
        Write([3]);
        Write(pool);
        AppendThree(old(buf), [3], pool, []);
    }

    /** ledgerKeyCompressEncodeTo. */
    method LedgerKeyCompressEncodeTo(k: LedgerKey)
      requires k.Offer? ==> InRange(Hyper, k.offerId)
      requires k.ConfigSetting? ==> InRange(Int, k.setting)
      requires k.ContractData? ==> k.durability <= 1
      modifies this
      ensures buf == old(buf) + Compress(k)
    {
      hide Trim, CompressAccount, CompressAsset, EncodeScalar, TypeByte;
      Write([TypeByte(k)]);
      ghost var start := buf;
      match k
      case Account(a) => AccountIdCompressEncodeTo(a);
      case Trustline(a, asset) =>
        AccountIdCompressEncodeTo(a);
        AssetTrustlineCompressEncodeTo(asset);
        AppendThree(start, CompressAccount(a), CompressAsset(asset), []);
      case Offer(_, id) => Write(EncodeScalar(Hyper, id));
      case Data(a, name) =>
        AccountIdCompressEncodeTo(a);
        var trimmed := TrimRightZeros(name);
        Write(trimmed);
        AppendThree(start, CompressAccount(a), trimmed, []);
      case ClaimableBalance(id) =>
        Write([0]);
        Write(id);
        AppendThree(start, [0], id, []);
      case LiquidityPool(id) => Write(id);
      case ContractData(c, key, dur) =>
        Write(c);
        Write(key);
        Write([dur]);
        AppendThree(start, c, key, [dur]);
      case ContractCode(h) => Write(h);
      case ConfigSetting(id) => Write(EncodeScalar(Int, id));
      case Ttl(h) => Write(h);
      assert buf == start + CompressBody(k);
      AppendThree(old(buf), [TypeByte(k)], CompressBody(k), []);
    }

    /** LedgerKeyUnsafeMarshalBinaryCompress: reset, encode, hand out the contents. */
    method MarshalCompress(k: LedgerKey) returns (b: Bytes)
      requires k.Offer? ==> InRange(Hyper, k.offerId)
      requires k.ConfigSetting? ==> InRange(Int, k.setting)
      requires k.ContractData? ==> k.durability <= 1
      modifies this
      ensures b == Compress(k) && buf == b
    {
      buf := [];
      LedgerKeyCompressEncodeTo(k);
      assert [] + Compress(k) == Compress(k);
      b := buf;
    }
  }

  // ---------------------------------------------------------------- what the form identifies

  /** The keys the compressed form does not tell apart: offers with the same id, and data entries
      of one account whose names differ only in trailing zeros. All others must be equal. */
  predicate SameKey(k: LedgerKey, l: LedgerKey) {
    if k.Offer? && l.Offer? then k.offerId == l.offerId
    else if k.Data? && l.Data? then k.account == l.account && Trim(k.name) == Trim(l.name)
    else k == l
  }

  lemma {:induction false} TrimPads(b: Bytes)
    ensures b == Trim(b) + Zeros(|b| - |Trim(b)|)
  {
    if b != [] && b[|b| - 1] == 0 {
      var c := b[..|b| - 1];
      TrimPads(c);
      assert b == c + [0];
      assert Zeros(|b| - |Trim(b)|) == Zeros(|c| - |Trim(c)|) + [0];
    }
  }

  lemma TrimInjective(b: Bytes, c: Bytes)
    requires |b| == |c| && Trim(b) == Trim(c)
    ensures b == c
  {
    TrimPads(b);
    TrimPads(c);
  }

  lemma AssetCompressInjective(a: Asset, b: Asset)
    requires AssetOk(a) && AssetOk(b) && CompressAsset(a) == CompressAsset(b)
    ensures a == b
  {
    var x, y := CompressAsset(a), CompressAsset(b);
    assert x[0] == y[0];
    assert a.Alpha4? == b.Alpha4? && a.Alpha12? == b.Alpha12? && a.Native? == b.Native?;
    if a.Alpha4? || a.Alpha12? {
      var p, q := x[..1] + Trim(a.code), y[..1] + Trim(b.code);
      assert x == p + CompressAccount(a.issuer) && y == q + CompressAccount(b.issuer);
      ConcatCancel(p, CompressAccount(a.issuer), q, CompressAccount(b.issuer));
      ConcatCancel(x[..1], Trim(a.code), y[..1], Trim(b.code));
      ConcatCancel([0], a.issuer, [0], b.issuer);
      TrimInjective(a.code, b.code);
    } else if a.PoolShare? {
      ConcatCancel([3], a.pool, [3], b.pool);
    }
  }

  /** Two keys have the same compressed form exactly when they are the same key. */
  lemma CompressExact(s: Schema, k: LedgerKey, l: LedgerKey)
    requires KeyOk(s, k) && KeyOk(s, l)
    ensures Compress(k) == Compress(l) <==> SameKey(k, l)
  {
    if Compress(k) == Compress(l) {
      CompressInjective(s, k, l);
    }
  }

  lemma CompressInjective(s: Schema, k: LedgerKey, l: LedgerKey)
    requires KeyOk(s, k) && KeyOk(s, l) && Compress(k) == Compress(l)
    ensures SameKey(k, l)
  {
    assert Compress(k)[0] == TypeByte(k) && Compress(l)[0] == TypeByte(l);
    var x, y := Compress(k)[1..], Compress(l)[1..];
    match k
    case Account(a) => ConcatCancel([0], a, [0], l.account);
    case Trustline(a, asset) =>
      ConcatCancel(CompressAccount(a), CompressAsset(asset), CompressAccount(l.account), CompressAsset(l.asset));
      ConcatCancel([0], a, [0], l.account);
      AssetCompressInjective(asset, l.asset);
    case Offer(_, id) =>
      ScalarRoundTrip(Hyper, id, []);
      ScalarRoundTrip(Hyper, l.offerId, []);
      assert x + [] == x && y + [] == y;
    case Data(a, name) =>
      ConcatCancel(CompressAccount(a), Trim(name), CompressAccount(l.account), Trim(l.name));
      ConcatCancel([0], a, [0], l.account);
    case ClaimableBalance(id) => ConcatCancel([0], id, [0], l.balance);
    case LiquidityPool(id) =>
    case ContractData(c, key, dur) => ContractDataInjective(s, k, l);
    case ContractCode(h) =>
    case ConfigSetting(id) =>
      ScalarRoundTrip(Int, id, []);
      ScalarRoundTrip(Int, l.setting, []);
      assert x + [] == x && y + [] == y;
    case Ttl(h) =>
  }

  lemma ContractDataInjective(s: Schema, k: LedgerKey, l: LedgerKey)
    requires k.ContractData? && l.ContractData? && KeyOk(s, k) && KeyOk(s, l)
    requires k.contract + k.key + [k.durability] == l.contract + l.key + [l.durability]
    ensures k == l
  {
    hide Encode, WellTyped;
    var addr, val := Ref("SCAddress"), Ref("SCVal");
    var c :| WellTyped(s, addr, c) && k.contract == Encode(s, addr, c);
    var d :| WellTyped(s, addr, d) && l.contract == Encode(s, addr, d);
    var p :| WellTyped(s, val, p) && k.key == Encode(s, val, p);
    var q :| WellTyped(s, val, q) && l.key == Encode(s, val, q);
    AppendThree(k.contract, k.key, [k.durability], []);
    AppendThree(l.contract, l.key, [l.durability], []);
    assert k.contract + (k.key + [k.durability]) == k.contract + k.key + [k.durability];
    assert l.contract + (l.key + [l.durability]) == l.contract + l.key + [l.durability];
    EncodePrefixFree(s, addr, c, k.key + [k.durability], d, l.key + [l.durability]);
    EncodePrefixFree(s, val, p, [k.durability], q, [l.durability]);
    assert k.durability == [k.durability][0] == [l.durability][0];
  }

  /** On offers that agree on the seller of an id, and data names that end in no zero, the
      compressed form separates keys completely. */
  lemma CompressSeparates(s: Schema, k: LedgerKey, l: LedgerKey)
    requires KeyOk(s, k) && KeyOk(s, l)
    requires k.Offer? && l.Offer? && k.offerId == l.offerId ==> k.seller == l.seller
    requires k.Data? ==> Trim(k.name) == k.name
    requires l.Data? ==> Trim(l.name) == l.name
    ensures Compress(k) == Compress(l) <==> k == l
  {
    CompressExact(s, k, l);
  }
}
