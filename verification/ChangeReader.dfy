/** The ledger change reader: four phases over one ledger, driven by recursive reads with a pending
    buffer, and the compacting reader on top of it. */
module ChangeReader {
  import opened Common
  import opened LedgerKeys
  import opened Compactor

  type Hash = Bytes
  type Envelope = Bytes

  datatype ReadError = Eof | UnknownHash(hash: Hash) | MetaError | BadMetaVersion | BadEnvelope

  /** The meta of one transaction: its hash and its three groups of changes, already paired and
      sorted; `meta` is None when GetChanges fails on the version of the meta. */
  datatype TxMeta = TxMeta(hash: Hash, version: nat, fee: seq<Change>, meta: Option<seq<Change>>, post: seq<Change>)

  /** xdr.LedgerCloseMeta. Envelopes come in transaction-set order, metas in apply order. */
  datatype LedgerClose = LedgerClose(protocol: nat, envelopes: seq<Envelope>, txs: seq<TxMeta>,
      upgrades: seq<seq<Change>>)

  /** network.HashTransactionInEnvelope under the passphrase; None is an error. */
  type Hasher = Envelope -> Option<Hash>

  datatype Transaction = Transaction(index: nat, envelope: Envelope, tx: TxMeta)

  // ---------------------------------------------------------------- transactions

  /** The envelopes up to `n`, by hash. */
  ghost predicate ByHash(hasher: Hasher, envelopes: seq<Envelope>, n: nat, table: map<Hash, Envelope>) {
    && n <= |envelopes|
    && (forall h :: h in table ==> table[h] in envelopes[..n] && hasher(table[h]) == Some(h))
    && (forall i :: 0 <= i < n ==> hasher(envelopes[i]).Some? && hasher(envelopes[i]).value in table)
  }

  predicate OldMeta(lcm: LedgerClose, i: nat) {
    lcm.protocol < 10 && i < |lcm.txs| && lcm.txs[i].version < 2 && lcm.txs[i].fee != []
  }

  lemma OldMetas(lcm: LedgerClose)
    ensures forall i: nat :: OldMeta(lcm, i) <==>
              lcm.protocol < 10 && i < |lcm.txs| && lcm.txs[i].version < 2 && lcm.txs[i].fee != []
  {
  }

  class TransactionReader {
    const lcm: LedgerClose
    const hasher: Hasher
    var envelopesByHash: map<Hash, Envelope>
    var readIdx: nat

    ghost predicate Valid()
      reads this
    {
      readIdx <= |lcm.txs| && ByHash(hasher, lcm.envelopes, |lcm.envelopes|, envelopesByHash)
    }

    constructor (lcm: LedgerClose, hasher: Hasher)
      ensures this.lcm == lcm && this.hasher == hasher && readIdx == 0 && envelopesByHash == map[]
    {
      this.lcm := lcm;
      this.hasher := hasher;
      envelopesByHash := map[];
      readIdx := 0;
    }

    /** storeTransactions. A protocol older than 10 looks at the meta beside each envelope, so there
        must be one. */
    method StoreTransactions() returns (error: Option<ReadError>)
      requires readIdx == 0 && envelopesByHash == map[]
      requires lcm.protocol < 10 ==> |lcm.envelopes| <= |lcm.txs|
      modifies this`envelopesByHash
      ensures error.None? ==> Valid()
      ensures error.None? <==> forall i :: 0 <= i < |lcm.envelopes| ==>
                && hasher(lcm.envelopes[i]).Some?
                && !(lcm.protocol < 10 && i < |lcm.txs| && lcm.txs[i].version < 2 && lcm.txs[i].fee != [])
    {
      OldMetas(lcm);
      hide OldMeta, ByHash;
      NothingByHash(hasher, lcm.envelopes);
      for i := 0 to |lcm.envelopes|
        invariant ByHash(hasher, lcm.envelopes, i, envelopesByHash)
        invariant forall j :: 0 <= j < i ==> hasher(lcm.envelopes[j]).Some? && !OldMeta(lcm, j)
      {
        var hash := hasher(lcm.envelopes[i]);
        if hash.None? { return Some(BadEnvelope); }
        ByHashExtends(hasher, lcm.envelopes, i, envelopesByHash, hash.value);
        envelopesByHash := envelopesByHash[hash.value := lcm.envelopes[i]];
        if OldMeta(lcm, i) { return Some(BadMetaVersion); }
      }
      return None;
    }

    method Read() returns (r: Result<Transaction, ReadError>)
      requires Valid()
      modifies this`readIdx
      ensures Valid()
      ensures old(readIdx) == |lcm.txs| ==> r == Err(Eof) && readIdx == old(readIdx)
      ensures old(readIdx) < |lcm.txs| ==> readIdx == old(readIdx) + 1
      ensures old(readIdx) < |lcm.txs| && Known(lcm, hasher, old(readIdx)) ==>
                && r.Ok? && r.value.index == readIdx && r.value.tx == lcm.txs[old(readIdx)]
                && r.value.envelope in lcm.envelopes && hasher(r.value.envelope) == Some(r.value.tx.hash)
      ensures old(readIdx) < |lcm.txs| && !Known(lcm, hasher, old(readIdx)) ==>
                r == Err(UnknownHash(lcm.txs[old(readIdx)].hash))
    {
      if readIdx >= |lcm.txs| { return Err(Eof); }
      var i := readIdx;
      readIdx := readIdx + 1;
      var hash := lcm.txs[i].hash;
      if hash !in envelopesByHash { return Err(UnknownHash(hash)); }
      assert envelopesByHash[hash] in lcm.envelopes;
      return Ok(Transaction(i + 1, envelopesByHash[hash], lcm.txs[i]));
    }

    method Rewind()
      requires Valid()
      modifies this`readIdx
      ensures Valid() && readIdx == 0
    {
      var _ := Seek(0);
    }

    method Seek(index: int) returns (error: Option<ReadError>)
      requires Valid()
      modifies this`readIdx
      ensures Valid()
      ensures 0 <= index < |lcm.txs| ==> error.None? && readIdx == index
      ensures !(0 <= index < |lcm.txs|) ==> error == Some(Eof) && readIdx == old(readIdx)
    {
      if index >= |lcm.txs| || index < 0 { return Some(Eof); }
      readIdx := index;
      return None;
    }
  }

  lemma NothingByHash(hasher: Hasher, envelopes: seq<Envelope>)
    ensures ByHash(hasher, envelopes, 0, map[])
  {
  }

  lemma ByHashExtends(hasher: Hasher, envelopes: seq<Envelope>, i: nat, table: map<Hash, Envelope>, h: Hash)
    requires i < |envelopes| && ByHash(hasher, envelopes, i, table) && hasher(envelopes[i]) == Some(h)
    ensures ByHash(hasher, envelopes, i + 1, table[h := envelopes[i]])
  {
    assert envelopes[..i + 1] == envelopes[..i] + [envelopes[i]];
  }

  /** Some envelope of the ledger has the hash of the i-th meta. */
  ghost predicate Known(lcm: LedgerClose, hasher: Hasher, i: nat)
    requires i < |lcm.txs|
  {
    exists e :: e in lcm.envelopes && hasher(e) == Some(lcm.txs[i].hash)
  }

  // ---------------------------------------------------------------- what a ledger yields

  datatype Phase = Fee | Meta | PostApply | Upgrade

  /** One outcome of Read other than the end of the stream. */
  type Event = Result<Change, ReadError>

  function Oks(cs: seq<Change>): (es: seq<Event>)
    ensures |es| == |cs| && forall i :: 0 <= i < |cs| ==> es[i] == Ok(cs[i])
  {
    seq(|cs|, i requires 0 <= i < |cs| => Ok(cs[i]))
  }

  /** What one transaction contributes to a phase: its changes, or one error. */
  ghost function TxEvents(lcm: LedgerClose, hasher: Hasher, phase: Phase, i: nat): (es: seq<Event>)
    requires i < |lcm.txs| && phase != Upgrade
  {
    var tx := lcm.txs[i];
    if !Known(lcm, hasher, i) then [Err(UnknownHash(tx.hash))]
    else match phase
      case Fee => Oks(tx.fee)
      case PostApply => Oks(tx.post)
      case Meta => if tx.meta.None? then [Err(MetaError)] else Oks(tx.meta.value)
      case Upgrade => []
  }

  ghost function PhaseFrom(lcm: LedgerClose, hasher: Hasher, phase: Phase, i: nat): (es: seq<Event>)
    requires i <= |lcm.txs| && phase != Upgrade
    decreases |lcm.txs| - i
  {
    if i == |lcm.txs| then [] else TxEvents(lcm, hasher, phase, i) + PhaseFrom(lcm, hasher, phase, i + 1)
  }

  ghost function UpgradesFrom(lcm: LedgerClose, i: nat): (es: seq<Event>)
    requires i <= |lcm.upgrades|
    decreases |lcm.upgrades| - i
  {
    if i == |lcm.upgrades| then [] else Oks(lcm.upgrades[i]) + UpgradesFrom(lcm, i + 1)
  }

  /** Everything from position `i` of a phase on. */
  ghost function From(lcm: LedgerClose, hasher: Hasher, phase: Phase, i: nat, upgrade: nat): (es: seq<Event>)
    requires i <= |lcm.txs| && upgrade <= |lcm.upgrades|
    decreases Rank(phase)
  {
    if phase == Upgrade then UpgradesFrom(lcm, upgrade)
    else PhaseFrom(lcm, hasher, phase, i) + From(lcm, hasher, Next(phase), 0, upgrade)
  }

  function Rank(phase: Phase): nat {
    match phase
    case Fee => 3
    case Meta => 2
    case PostApply => 1
    case Upgrade => 0
  }

  function Next(phase: Phase): (p: Phase)
    ensures phase != Upgrade ==> Rank(p) == Rank(phase) - 1
  {
    match phase
    case Fee => Meta
    case Meta => PostApply
    case _ => Upgrade
  }

  /** All fee changes, all meta changes, all post-apply changes, all upgrade changes. */
  ghost function AllEvents(lcm: LedgerClose, hasher: Hasher): (es: seq<Event>) {
    PhaseFrom(lcm, hasher, Fee, 0) + PhaseFrom(lcm, hasher, Meta, 0) + PhaseFrom(lcm, hasher, PostApply, 0)
        + UpgradesFrom(lcm, 0)
  }

  lemma FromStart(lcm: LedgerClose, hasher: Hasher)
    ensures From(lcm, hasher, Fee, 0, 0) == AllEvents(lcm, hasher)
  {
    hide PhaseFrom, UpgradesFrom;
    var a, b, c, d := PhaseFrom(lcm, hasher, Fee, 0), PhaseFrom(lcm, hasher, Meta, 0),
        PhaseFrom(lcm, hasher, PostApply, 0), UpgradesFrom(lcm, 0);
    assert From(lcm, hasher, Upgrade, 0, 0) == d;
    assert From(lcm, hasher, PostApply, 0, 0) == c + d;
    assert From(lcm, hasher, Meta, 0, 0) == b + (c + d);
    assert From(lcm, hasher, Fee, 0, 0) == a + (b + (c + d));
  }

  class LedgerChangeReader {
    const txs: TransactionReader
    var state: Phase
    var pending: seq<Change>
    var pendingIndex: nat
    var upgradeIndex: nat

    ghost predicate Valid()
      reads this, txs
    {
      && txs.Valid() && upgradeIndex <= |txs.lcm.upgrades|
      && (if pending == [] then pendingIndex == 0 else pendingIndex < |pending|)
    }

    /** The outcomes still to come. */
    ghost function Remaining(): (es: seq<Event>)
      requires Valid()
      reads this, txs
    {
      Oks(pending[pendingIndex..]) + From(txs.lcm, txs.hasher, state, txs.readIdx, upgradeIndex)
    }

    constructor (txs: TransactionReader)
      requires txs.Valid() && txs.readIdx == 0
      ensures this.txs == txs && Valid() && Remaining() == AllEvents(txs.lcm, txs.hasher)
    {
      this.txs := txs;
      state := Fee;
      pending := [];
      pendingIndex := 0;
      upgradeIndex := 0;
      new;
      FromStart(txs.lcm, txs.hasher);
    }

    /** Each call delivers the next outcome; once there are none it says EOF, for ever. */
    method Read() returns (r: Event)
      requires Valid()
      modifies this, txs`readIdx
      ensures Valid()
      ensures r == Err(Eof) <==> old(Remaining()) == []
      ensures r == Err(Eof) ==> Remaining() == []
      ensures old(Remaining()) != [] ==> old(Remaining()) == [r] + Remaining()
      decreases Rank(state), |txs.lcm.txs| - txs.readIdx, |txs.lcm.upgrades| - upgradeIndex
    {
      hide From, ByHash;
      if pendingIndex < |pending| {
        r := Ok(pending[pendingIndex]);
        PopOks(pending[pendingIndex..]);
        pendingIndex := pendingIndex + 1;
        if pendingIndex == |pending| {
          pendingIndex := 0;
          pending := [];
        }
        return;
      }
      var outcome;
      if state == Upgrade {
        outcome := LoadUpgrade();
      } else {
        outcome := LoadTransaction();
      }
      if outcome.Some? { return Err(outcome.value); }
      r := Read();
    }

    /** The transaction branch of Read, up to its recursive call: None says to read again. */
    method LoadTransaction() returns (outcome: Option<ReadError>)
      requires Valid() && pending == [] && state != Upgrade
      modifies this, txs`readIdx
      ensures Valid() && upgradeIndex == old(upgradeIndex)
      ensures outcome.None? ==> Remaining() == old(Remaining())
      ensures outcome.Some? ==> outcome.value != Eof && old(Remaining()) == [Err(outcome.value)] + Remaining()
      ensures Rank(state) < old(Rank(state)) || (state == old(state) && txs.readIdx == old(txs.readIdx) + 1)
    {
      hide From, Known, ByHash;
      FromUnfolds(txs.lcm, txs.hasher, state, txs.readIdx, upgradeIndex);
      var tx := txs.Read();
      if tx.Err? && tx.error == Eof {
        if state != PostApply {
          txs.Rewind();
        }
        state := Next(state);
        FromUpgrade(txs.lcm, txs.hasher, txs.readIdx, upgradeIndex);
        return None;
      }
      if tx.Err? { return Some(tx.error); }
      if state == Fee {
        pending := pending + tx.value.tx.fee;
      } else if state == Meta {
        if tx.value.tx.meta.None? { return Some(MetaError); }
        pending := pending + tx.value.tx.meta.value;
      } else {
        pending := pending + tx.value.tx.post;
      }
      assert pending[pendingIndex..] == pending;
      return None;
    }

    /** The upgrade branch of Read. */
    method LoadUpgrade() returns (outcome: Option<ReadError>)
      requires Valid() && pending == [] && state == Upgrade
      modifies this
      ensures Valid() && state == old(state) && txs.readIdx == old(txs.readIdx)
      ensures outcome.None? ==> Remaining() == old(Remaining()) && upgradeIndex == old(upgradeIndex) + 1
      ensures outcome.Some? ==> outcome.value == Eof && old(Remaining()) == [] && Remaining() == []
    {
      hide From, ByHash;
      FromUnfolds(txs.lcm, txs.hasher, state, txs.readIdx, upgradeIndex);
      if upgradeIndex < |txs.lcm.upgrades| {
        pending := pending + txs.lcm.upgrades[upgradeIndex];
        upgradeIndex := upgradeIndex + 1;
        assert pending[pendingIndex..] == pending;
        return None;
      }
      return Some(Eof);
    }
  }

  lemma PopOks(cs: seq<Change>)
    requires cs != []
    ensures Oks(cs) == [Ok(cs[0])] + Oks(cs[1..])
  {
  }

  /** One step of the reader, said of the outcomes to come. */
  lemma FromUnfolds(lcm: LedgerClose, hasher: Hasher, phase: Phase, i: nat, upgrade: nat)
    requires i <= |lcm.txs| && upgrade <= |lcm.upgrades|
    ensures phase != Upgrade && i < |lcm.txs| ==>
              From(lcm, hasher, phase, i, upgrade) == TxEvents(lcm, hasher, phase, i)
                  + From(lcm, hasher, phase, i + 1, upgrade)
    ensures phase != Upgrade && i == |lcm.txs| ==>
              From(lcm, hasher, phase, i, upgrade) == From(lcm, hasher, Next(phase), 0, upgrade)
    ensures phase == Upgrade && upgrade < |lcm.upgrades| ==>
              From(lcm, hasher, phase, i, upgrade) == Oks(lcm.upgrades[upgrade])
                  + From(lcm, hasher, phase, i, upgrade + 1)
    ensures phase == Upgrade && upgrade == |lcm.upgrades| ==> From(lcm, hasher, phase, i, upgrade) == []
  {
    hide TxEvents;
  }

  /** The upgrade phase does not look at the transaction cursor, which is left at the end. */
  lemma FromUpgrade(lcm: LedgerClose, hasher: Hasher, i: nat, upgrade: nat)
    requires i <= |lcm.txs| && upgrade <= |lcm.upgrades|
    ensures From(lcm, hasher, Upgrade, i, upgrade) == From(lcm, hasher, Upgrade, 0, upgrade)
  {
  }

  // ---------------------------------------------------------------- error-free ledgers

  ghost predicate ErrorFree(lcm: LedgerClose, hasher: Hasher) {
    forall i :: 0 <= i < |lcm.txs| ==> Known(lcm, hasher, i) && lcm.txs[i].meta.Some?
  }

  function Group(tx: TxMeta, phase: Phase): (cs: seq<Change>) {
    match phase
    case Fee => tx.fee
    case Meta => if tx.meta.Some? then tx.meta.value else []
    case PostApply => tx.post
    case Upgrade => []
  }

  function GroupsFrom(lcm: LedgerClose, phase: Phase, i: nat): (cs: seq<Change>)
    requires i <= |lcm.txs|
    decreases |lcm.txs| - i
  {
    if i == |lcm.txs| then [] else Group(lcm.txs[i], phase) + GroupsFrom(lcm, phase, i + 1)
  }

  function UpgradeChangesFrom(lcm: LedgerClose, i: nat): (cs: seq<Change>)
    requires i <= |lcm.upgrades|
    decreases |lcm.upgrades| - i
  {
    if i == |lcm.upgrades| then [] else lcm.upgrades[i] + UpgradeChangesFrom(lcm, i + 1)
  }

  /** The changes of a ledger in the order a reader must see them. */
  function AllChanges(lcm: LedgerClose): (cs: seq<Change>) {
    GroupsFrom(lcm, Fee, 0) + GroupsFrom(lcm, Meta, 0) + GroupsFrom(lcm, PostApply, 0) + UpgradeChangesFrom(lcm, 0)
  }

  lemma OksAppend(a: seq<Change>, b: seq<Change>)
    ensures Oks(a + b) == Oks(a) + Oks(b)
  {
  }

  lemma {:induction false} PhaseOks(lcm: LedgerClose, hasher: Hasher, phase: Phase, i: nat)
    requires ErrorFree(lcm, hasher) && i <= |lcm.txs| && phase != Upgrade
    ensures PhaseFrom(lcm, hasher, phase, i) == Oks(GroupsFrom(lcm, phase, i))
    decreases |lcm.txs| - i
  {
    if i < |lcm.txs| {
      assert Known(lcm, hasher, i);
      PhaseOks(lcm, hasher, phase, i + 1);
      OksAppend(Group(lcm.txs[i], phase), GroupsFrom(lcm, phase, i + 1));
    }
  }

  lemma {:induction false} UpgradeOks(lcm: LedgerClose, i: nat)
    requires i <= |lcm.upgrades|
    ensures UpgradesFrom(lcm, i) == Oks(UpgradeChangesFrom(lcm, i))
    decreases |lcm.upgrades| - i
  {
    if i < |lcm.upgrades| {
      UpgradeOks(lcm, i + 1);
      OksAppend(lcm.upgrades[i], UpgradeChangesFrom(lcm, i + 1));
    }
  }

  /** An error-free ledger yields exactly its changes, phase by phase, and no error. */
  lemma ErrorFreeYieldsChanges(lcm: LedgerClose, hasher: Hasher)
    requires ErrorFree(lcm, hasher)
    ensures AllEvents(lcm, hasher) == Oks(AllChanges(lcm))
  {
    hide PhaseFrom, GroupsFrom, UpgradesFrom, UpgradeChangesFrom, Oks;
    var a, b, c, d := GroupsFrom(lcm, Fee, 0), GroupsFrom(lcm, Meta, 0), GroupsFrom(lcm, PostApply, 0),
        UpgradeChangesFrom(lcm, 0);
    PhaseOks(lcm, hasher, Fee, 0);
    PhaseOks(lcm, hasher, Meta, 0);
    PhaseOks(lcm, hasher, PostApply, 0);
    UpgradeOks(lcm, 0);
    OksAppend(a, b);
    OksAppend(a + b, c);
    OksAppend(a + b + c, d);
  }

  // ---------------------------------------------------------------- compacting reader

  datatype Failure = Input(read: ReadError) | Squash(compact: CompactError)

  ghost predicate AllWellFormed(es: seq<Event>) {
    forall i :: 0 <= i < |es| && es[i].Ok? ==> WellFormed(es[i].value)
  }

  /** Feeding outcomes to a compactor until one of them, or the compactor, fails. */
  ghost function Absorb(cache: Cache, suppress: bool, es: seq<Event>): (r: Result<Cache, Failure>)
    requires CacheOk(cache) && AllWellFormed(es)
    decreases |es|
  {
    if es == [] then Ok(cache)
    else if es[0].Err? then Err(Input(es[0].error))
    else
      var next := Add(cache, suppress, es[0].value);
      if next.Err? then Err(Squash(next.error)) else Absorb(next.value, suppress, es[1..])
  }

  /** One read from a list: its head, or EOF. */
  predicate Delivers(out: seq<Change>, r: Result<Change, Failure>, left: seq<Change>) {
    if out == [] then r == Err(Input(Eof)) && left == [] else r.Ok? && out == [r.value] + left
  }

  class CompactingReader {
    const input: LedgerChangeReader
    const suppress: bool
    var changes: seq<Change>
    var compacted: bool

    constructor (input: LedgerChangeReader, suppress: bool)
      ensures this.input == input && this.suppress == suppress && !compacted && changes == []
    {
      this.input := input;
      this.suppress := suppress;
      changes := [];
      compacted := false;
    }

    method Compact() returns (error: Option<Failure>)
      requires input.Valid() && AllWellFormed(input.Remaining())
      modifies this, input, input.txs`readIdx
      ensures input.Valid()
      ensures error.None? ==>
                && compacted && input.Remaining() == []
                && Absorb(map[], suppress, old(input.Remaining())).Ok?
                && Lists(Absorb(map[], suppress, old(input.Remaining())).value, changes)
      ensures error.Some? ==>
                && Absorb(map[], suppress, old(input.Remaining())) == Err(error.value)
                && compacted == old(compacted) && changes == old(changes)
    {
      hide Add, CacheOk, Lists, WellFormed;
      var compactor := new ChangeCompactor(suppress);
      assert CacheOk(map[]) by { EmptyCacheOk(); }
      while true
        invariant input.Valid() && compactor.Valid() && fresh(compactor) && compactor.suppress == suppress
        invariant AllWellFormed(input.Remaining()) && CacheOk(map[])
        invariant Absorb(compactor.cache, suppress, input.Remaining())
            == Absorb(map[], suppress, old(input.Remaining()))
        invariant compacted == old(compacted) && changes == old(changes)
        decreases |input.Remaining()|
      {
        ghost var left := input.Remaining();
        var change := input.Read();
        if change == Err(Eof) { break; }
        assert left[0] == change && left[1..] == input.Remaining();
        if change.Err? { return Some(Input(change.error)); }
        var failed := compactor.AddChange(change.value);
        if failed.Some? { return Some(Squash(failed.value)); }
      }
      changes := compactor.GetChanges();
      compacted := true;
      return None;
    }

    method Read() returns (r: Result<Change, Failure>)
      requires input.Valid() && (!compacted ==> AllWellFormed(input.Remaining()))
      modifies this, input, input.txs`readIdx
      ensures input.Valid()
      ensures old(compacted) ==>
                && compacted && input.Remaining() == old(input.Remaining())
                && Delivers(old(changes), r, changes)
      ensures !old(compacted) ==>
                match Absorb(map[], suppress, old(input.Remaining())) {
                  case Err(e) => r == Err(e) && !compacted
                  case Ok(cache) => compacted && exists out :: Lists(cache, out) && Delivers(out, r, changes)
                }
    {
      hide Lists, Absorb;
      assert CacheOk(map[]) by { EmptyCacheOk(); }
      if !compacted {
        var error := Compact();
        if error.Some? { return Err(error.value); }
      }
      if changes == [] { return Err(Input(Eof)); }
      r := Ok(changes[0]);
      changes := changes[1..];
    }
  }

  lemma EmptyCacheOk()
    ensures CacheOk(map[])
  {
  }

  lemma {:induction false} AbsorbIsAddAll(cache: Cache, suppress: bool, cs: seq<Change>)
    requires CacheOk(cache) && forall i :: 0 <= i < |cs| ==> WellFormed(cs[i])
    ensures AllWellFormed(Oks(cs))
    ensures AddAll(cache, suppress, cs).Ok? ==>
              Absorb(cache, suppress, Oks(cs)) == Ok(AddAll(cache, suppress, cs).value)
    decreases |cs|
  {
    hide Add, CacheOk;
    if cs != [] {
      PopOks(cs);
      if Add(cache, suppress, cs[0]).Ok? {
        AbsorbIsAddAll(Add(cache, suppress, cs[0]).value, suppress, cs[1..]);
      }
    }
  }

  /** End to end: on an error-free ledger whose changes are a legal history, the compacting reader
      does not fail, and applying what it yields once has the effect of the whole history; with
      suppression, exactly when the store held no key restored and removed again. */
  lemma CompactedLedger(lcm: LedgerClose, hasher: Hasher, start: Ledger, store: map<LedgerKey, Entry>, suppress: bool,
                        out: seq<Change>)
    requires ErrorFree(lcm, hasher) && start.touched == {} && Mirrors(store, start) && LegalRun(start, AllChanges(lcm))
    ensures CacheOk(map[]) && AllWellFormed(AllEvents(lcm, hasher))
    ensures Absorb(map[], suppress, AllEvents(lcm, hasher)).Ok?
    ensures Lists(Absorb(map[], suppress, AllEvents(lcm, hasher)).value, out) ==>
              var end := ExecAll(start, AllChanges(lcm));
              ((forall k :: Get(ApplyAll(store, out), k) == Expected(store, end, k)) <==>
               (!suppress || forall k :: RestoredAndRemoved(start, end, k) ==> k !in store))
  {
    hide Absorb, AddAll, Lists, LegalRun, ExecAll, ApplyAll, AllEvents, AllChanges, Expected;
    var cs := AllChanges(lcm);
    ErrorFreeYieldsChanges(lcm, hasher);
    LegalWellFormed(start, cs);
    CompactionPreservesEffect(start, suppress, cs, store, out);
    EmptyCacheOk();
    AbsorbIsAddAll(map[], suppress, cs);
  }

  lemma {:induction false} LegalWellFormed(l: Ledger, cs: seq<Change>)
    requires LegalRun(l, cs)
    ensures forall i :: 0 <= i < |cs| ==> WellFormed(cs[i])
    decreases |cs|
  {
    if cs != [] { LegalWellFormed(Exec(l, cs[0]), cs[1..]); }
  }
}
