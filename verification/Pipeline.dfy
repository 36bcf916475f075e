/** The change pipeline from raw meta to the compacted result: every group of entry changes is paired
    and sorted on its own, the reader strings the groups together, and the compactor squashes them. */
module Pipeline {
  import opened Common
  import opened LedgerKeys
  import opened Compactor
  import opened Changes
  import opened ChangeReader
  import opened RawHistory
  import opened SquashedPost

  /** The raw meta of a transaction: fee changes, the groups of its meta (the transaction's own changes
      and each operation's, in order; None when the version is not supported), and refunds. */
  datatype RawTx = RawTx(fee: seq<Raw>, meta: Option<seq<seq<Raw>>>, post: seq<Raw>)

  datatype RawLedger = RawLedger(txs: seq<RawTx>, upgrades: seq<seq<Raw>>)

  type Groups = seq<seq<Raw>>

  /** `out` is the groups' results, end to end. */
  ghost predicate GroupedAll(gs: Groups, out: seq<Change>, marshal: LedgerKey -> Bytes)
    decreases |gs|
  {
    if gs == [] then out == []
    else exists n :: 0 <= n <= |out| && Grouped(gs[0], out[..n], marshal) && GroupedAll(gs[1..], out[n..], marshal)
  }

  ghost predicate AllConsistent(gs: Groups) {
    forall i :: 0 <= i < |gs| ==> Consistent(gs[i])
  }

  /** The pairs of all groups, before any sorting. */
  ghost function PairsAll(gs: Groups): (cs: seq<Change>)
    decreases |gs|
  {
    if gs == [] then []
    else (if Pairs(gs[0], |gs[0]|).Ok? then Pairs(gs[0], |gs[0]|).value else []) + PairsAll(gs[1..])
  }

  lemma {:induction false} LegalAppend(l: Ledger, a: seq<Change>, b: seq<Change>)
    ensures LegalRun(l, a + b) <==> LegalRun(l, a) && LegalRun(ExecAll(l, a), b)
    ensures LegalRun(l, a + b) ==> ExecAll(l, a + b) == ExecAll(ExecAll(l, a), b)
    decreases |a|
  {
    hide Legal, Exec;
    if a == [] {
      assert [] + b == b;
    } else {
      assert (a + b)[0] == a[0] && (a + b)[1..] == a[1..] + b;
      if Legal(l, a[0]) { LegalAppend(Exec(l, a[0]), a[1..], b); }
    }
  }

  /** Sorting each group keeps a legal history of the whole ledger legal, with the same outcome. */
  lemma {:induction false} GroupsKeepHistory(l: Ledger, gs: Groups, out: seq<Change>, marshal: LedgerKey -> Bytes)
    requires AllConsistent(gs) && GroupedAll(gs, out, marshal) && LegalRun(l, PairsAll(gs))
    ensures LegalRun(l, out) && ExecAll(l, out) == ExecAll(l, PairsAll(gs))
    decreases |gs|
  {
    hide LegalRun, ExecAll, Grouped, Pairs, Consistent;
    if gs != [] {
      var n :| 0 <= n <= |out| && Grouped(gs[0], out[..n], marshal) && GroupedAll(gs[1..], out[n..], marshal);
      GroupedHasPairs(gs[0], out[..n], marshal);
      var here, rest := Pairs(gs[0], |gs[0]|).value, PairsAll(gs[1..]);
      LegalAppend(l, here, rest);
      GroupingKeepsHistory(l, gs[0], out[..n], marshal);
      assert AllConsistent(gs[1..]);
      GroupsKeepHistory(ExecAll(l, here), gs[1..], out[n..], marshal);
      LegalAppend(l, out[..n], out[n..]);
      assert out == out[..n] + out[n..];
    }
  }

  lemma GroupedHasPairs(raw: seq<Raw>, out: seq<Change>, marshal: LedgerKey -> Bytes)
    requires Grouped(raw, out, marshal)
    ensures Pairs(raw, |raw|).Ok?
  {
  }

  lemma GroupedOne(g: seq<Raw>, out: seq<Change>, marshal: LedgerKey -> Bytes)
    requires Grouped(g, out, marshal)
    ensures GroupedAll([g], out, marshal)
  {
    hide Grouped;
    assert out[..|out|] == out && [g][1..] == [] && out[|out|..] == [];
    assert GroupedAll([], out[|out|..], marshal);
  }

  lemma {:induction false} GroupedAppend(gs: Groups, a: seq<Change>, hs: Groups, b: seq<Change>,
      marshal: LedgerKey -> Bytes)
    requires GroupedAll(gs, a, marshal) && GroupedAll(hs, b, marshal)
    ensures GroupedAll(gs + hs, a + b, marshal)
    decreases |gs|
  {
    hide Grouped;
    if gs == [] {
      assert gs + hs == hs && a + b == b;
    } else {
      var n :| 0 <= n <= |a| && Grouped(gs[0], a[..n], marshal) && GroupedAll(gs[1..], a[n..], marshal);
      GroupedAppend(gs[1..], a[n..], hs, b, marshal);
      assert (gs + hs)[0] == gs[0] && (gs + hs)[1..] == gs[1..] + hs;
      assert (a + b)[..n] == a[..n] && (a + b)[n..] == a[n..] + b;
    }
  }

  // ---------------------------------------------------------------- ledgers

  function GroupsOf(tx: RawTx, phase: Phase): (gs: Groups) {
    match phase
    case Fee => [tx.fee]
    case Meta => if tx.meta.Some? then tx.meta.value else []
    case PostApply => [tx.post]
    case Upgrade => []
  }

  function PhaseGroups(raw: RawLedger, phase: Phase, i: nat): (gs: Groups)
    requires i <= |raw.txs|
    decreases |raw.txs| - i
  {
    if i == |raw.txs| then [] else GroupsOf(raw.txs[i], phase) + PhaseGroups(raw, phase, i + 1)
  }

  /** All groups of a ledger in the order the reader must see them. */
  function AllGroups(raw: RawLedger): (gs: Groups) {
    PhaseGroups(raw, Fee, 0) + PhaseGroups(raw, Meta, 0) + PhaseGroups(raw, PostApply, 0) + raw.upgrades
  }

  /** The reader's ledger holds the results of pairing and sorting the raw groups. */
  ghost predicate Prepared(raw: RawLedger, lcm: LedgerClose, marshal: LedgerKey -> Bytes) {
    && |raw.txs| == |lcm.txs| && |raw.upgrades| == |lcm.upgrades|
    && (forall i :: 0 <= i < |raw.txs| ==> PreparedTx(raw.txs[i], lcm.txs[i], marshal))
    && forall i :: 0 <= i < |raw.upgrades| ==> Grouped(raw.upgrades[i], lcm.upgrades[i], marshal)
  }

  ghost predicate PreparedTx(raw: RawTx, tx: TxMeta, marshal: LedgerKey -> Bytes) {
    && Grouped(raw.fee, tx.fee, marshal) && Grouped(raw.post, tx.post, marshal)
    && (raw.meta.Some? <==> tx.meta.Some?)
    && (raw.meta.Some? ==> GroupedAll(raw.meta.value, tx.meta.value, marshal))
  }

  lemma {:induction false} PhaseGrouped(raw: RawLedger, lcm: LedgerClose, phase: Phase, i: nat,
                                        marshal: LedgerKey -> Bytes)
    requires Prepared(raw, lcm, marshal) && i <= |raw.txs| && phase != Upgrade
    ensures GroupedAll(PhaseGroups(raw, phase, i), GroupsFrom(lcm, phase, i), marshal)
    decreases |raw.txs| - i
  {
    hide Grouped, GroupedAll;
    if i == |raw.txs| {
      NoGroups(marshal);
    } else {
      assert PreparedTx(raw.txs[i], lcm.txs[i], marshal);
      TxGrouped(raw.txs[i], lcm.txs[i], phase, marshal);
      PhaseGrouped(raw, lcm, phase, i + 1, marshal);
      GroupedAppend(GroupsOf(raw.txs[i], phase), Group(lcm.txs[i], phase),
                    PhaseGroups(raw, phase, i + 1), GroupsFrom(lcm, phase, i + 1), marshal);
    }
  }

  lemma NoGroups(marshal: LedgerKey -> Bytes)
    ensures GroupedAll([], [], marshal)
  {
  }

  lemma TxGrouped(raw: RawTx, tx: TxMeta, phase: Phase, marshal: LedgerKey -> Bytes)
    requires PreparedTx(raw, tx, marshal) && phase != Upgrade
    ensures GroupedAll(GroupsOf(raw, phase), Group(tx, phase), marshal)
  {
    hide Grouped, GroupedAll;
    GroupedOne(raw.fee, tx.fee, marshal);
    GroupedOne(raw.post, tx.post, marshal);
    NoGroups(marshal);
  }

  lemma {:induction false} UpgradesGrouped(raw: RawLedger, lcm: LedgerClose, i: nat, marshal: LedgerKey -> Bytes)
    requires Prepared(raw, lcm, marshal) && i <= |raw.upgrades|
    ensures GroupedAll(raw.upgrades[i..], UpgradeChangesFrom(lcm, i), marshal)
    decreases |raw.upgrades| - i
  {
    hide Grouped, GroupedAll;
    if i == |raw.upgrades| {
      assert raw.upgrades[i..] == [];
      NoGroups(marshal);
    } else {
      assert Grouped(raw.upgrades[i], lcm.upgrades[i], marshal);
      GroupedOne(raw.upgrades[i], lcm.upgrades[i], marshal);
      UpgradesGrouped(raw, lcm, i + 1, marshal);
      GroupedAppend([raw.upgrades[i]], lcm.upgrades[i], raw.upgrades[i + 1..], UpgradeChangesFrom(lcm, i + 1), marshal);
      assert raw.upgrades[i..] == [raw.upgrades[i]] + raw.upgrades[i + 1..];
    }
  }

  lemma LedgerGrouped(raw: RawLedger, lcm: LedgerClose, marshal: LedgerKey -> Bytes)
    requires Prepared(raw, lcm, marshal)
    ensures GroupedAll(AllGroups(raw), AllChanges(lcm), marshal)
  {
    hide GroupedAll, PhaseGroups, GroupsFrom, UpgradeChangesFrom, Prepared;
    var a, b, c := PhaseGroups(raw, Fee, 0), PhaseGroups(raw, Meta, 0), PhaseGroups(raw, PostApply, 0);
    var x, y, z := GroupsFrom(lcm, Fee, 0), GroupsFrom(lcm, Meta, 0), GroupsFrom(lcm, PostApply, 0);
    PhaseGrouped(raw, lcm, Fee, 0, marshal);
    PhaseGrouped(raw, lcm, Meta, 0, marshal);
    PhaseGrouped(raw, lcm, PostApply, 0, marshal);
    UpgradesGrouped(raw, lcm, 0, marshal);
    assert raw.upgrades[0..] == raw.upgrades;
    GroupedAppend(a, x, b, y, marshal);
    GroupedAppend(a + b, x + y, c, z, marshal);
    GroupedAppend(a + b + c, x + y + z, raw.upgrades, UpgradeChangesFrom(lcm, 0), marshal);
  }

  /** If the pairs of a ledger's meta, in ledger order, are a legal history,
      the compacting reader does not fail on it, and applying what it yields once has the effect of
      that history; with suppression, exactly when the store held no key restored and removed again. */
  lemma PairedLedgerCompacted(raw: RawLedger, lcm: LedgerClose, marshal: LedgerKey -> Bytes, hasher: Hasher,
                              start: Ledger, store: map<LedgerKey, Entry>, suppress: bool, out: seq<Change>)
    requires Prepared(raw, lcm, marshal) && AllConsistent(AllGroups(raw)) && ErrorFree(lcm, hasher)
    requires start.touched == {} && Mirrors(store, start) && LegalRun(start, PairsAll(AllGroups(raw)))
    ensures CacheOk(map[]) && AllWellFormed(AllEvents(lcm, hasher))
    ensures Absorb(map[], suppress, AllEvents(lcm, hasher)).Ok?
    ensures Lists(Absorb(map[], suppress, AllEvents(lcm, hasher)).value, out) ==>
              var end := ExecAll(start, PairsAll(AllGroups(raw)));
              ((forall k :: Get(ApplyAll(store, out), k) == Expected(store, end, k)) <==>
               (!suppress || forall k :: RestoredAndRemoved(start, end, k) ==> k !in store))
  {
    hide Absorb, AddAll, Lists, LegalRun, ExecAll, ApplyAll, AllEvents, AllChanges, AllGroups, PairsAll, Expected,
      GroupedAll, AllConsistent, Prepared, RestoredAndRemoved;
    LedgerGrouped(raw, lcm, marshal);
    GroupsKeepHistory(start, AllGroups(raw), AllChanges(lcm), marshal);
    CompactedLedger(lcm, hasher, start, store, suppress, out);
  }

  // ---------------------------------------------------------------- histories

  /** The groups one after another are what happened to the ledger. */
  ghost predicate HistoryAll(l: Ledger, gs: Groups)
    decreases |gs|
  {
    gs != [] ==> History(l, gs[0]) && HistoryAll(RawExecs(l, gs[0], |gs[0]|), gs[1..])
  }

  function RawExecAll(l: Ledger, gs: Groups): (l': Ledger)
    decreases |gs|
  {
    if gs == [] then l else RawExecAll(RawExecs(l, gs[0], |gs[0]|), gs[1..])
  }

  /** The pairs of all groups are a legal history and lead where the raw changes lead. */
  lemma {:induction false} GroupsAreLegal(l: Ledger, m: Ledger, gs: Groups)
    requires AllConsistent(gs) && HistoryAll(l, gs) && Follows(m, l)
    ensures LegalRun(m, PairsAll(gs)) && Follows(ExecAll(m, PairsAll(gs)), RawExecAll(l, gs))
    decreases |gs|
  {
    hide LegalRun, ExecAll, Pairs, Consistent, Follows, History;
    if gs == [] {
      NoHistory(m);
    } else {
      PairsAreLegal(l, m, gs[0], |gs[0]|);
      assert AllConsistent(gs[1..]);
      var here := Pairs(gs[0], |gs[0]|).value;
      GroupsAreLegal(RawExecs(l, gs[0], |gs[0]|), ExecAll(m, here), gs[1..]);
      LegalAppend(m, here, PairsAll(gs[1..]));
    }
  }

  lemma NoHistory(m: Ledger)
    ensures LegalRun(m, []) && ExecAll(m, []) == m
  {
  }

  /** The store has of a key what the raw changes left in the ledger: its entry, of a touched TTL entry its
      last version with the highest LiveUntilLedgerSeq, nothing for a removed key, and for an archived key
      whatever the store held before. */
  ghost predicate Leaves(gs: Groups, store: map<LedgerKey, Entry>, end: Ledger, now: map<LedgerKey, Entry>,
                         k: LedgerKey) {
    if k in end.archived then Get(now, k) == Get(store, k)
    else if k.Ttl? && k in end.touched && k in end.live then k in now && IsFinal(PairsAll(gs), k, now[k])
    else Get(now, k) == Get(end.live, k)
  }

  /** That is what the squashed view expects. */
  lemma LeavesIsExpected(gs: Groups, start: Ledger, store: map<LedgerKey, Entry>, now: map<LedgerKey, Entry>,
                         k: LedgerKey)
    requires start.touched == {} && LegalRun(start, PairsAll(gs))
    requires Follows(ExecAll(start, PairsAll(gs)), RawExecAll(start, gs))
    ensures Leaves(gs, store, RawExecAll(start, gs), now, k)
       <==> Get(now, k) == Expected(store, ExecAll(start, PairsAll(gs)), k)
    ensures RestoredAndRemoved(start, RawExecAll(start, gs), k)
       <==> RestoredAndRemoved(start, ExecAll(start, PairsAll(gs)), k)
  {
    hide LegalRun, ExecAll, RawExecAll, PairsAll, IsFinal;
    var m := ExecAll(start, PairsAll(gs));
    LiveIsFinal(start, PairsAll(gs), k);
    if k in now && k in m.live && IsFinal(PairsAll(gs), k, now[k]) && k in m.touched {
      FinalUnique(PairsAll(gs), k, now[k], m.live[k]);
    }
  }

  /** From raw meta to the store: if the raw changes of a ledger, in ledger order, are what happened to it,
      the compacting reader does not fail, and applying what it yields once leaves the store with what the
      raw changes left in the ledger; with suppression, exactly when the store held no key restored and
      removed again. */
  lemma RawLedgerCompacted(raw: RawLedger, lcm: LedgerClose, marshal: LedgerKey -> Bytes, hasher: Hasher, start: Ledger,
                           store: map<LedgerKey, Entry>, suppress: bool, out: seq<Change>)
    requires Prepared(raw, lcm, marshal) && AllConsistent(AllGroups(raw)) && ErrorFree(lcm, hasher)
    requires start.touched == {} && Mirrors(store, start) && HistoryAll(start, AllGroups(raw))
    ensures LegalRun(start, PairsAll(AllGroups(raw)))
    ensures CacheOk(map[]) && AllWellFormed(AllEvents(lcm, hasher))
    ensures Absorb(map[], suppress, AllEvents(lcm, hasher)).Ok?
    ensures Lists(Absorb(map[], suppress, AllEvents(lcm, hasher)).value, out) ==>
              var end, now := RawExecAll(start, AllGroups(raw)), ApplyAll(store, out);
              ((forall k :: Leaves(AllGroups(raw), store, end, now, k)) <==>
               (!suppress || forall k :: RestoredAndRemoved(start, end, k) ==> k !in store))
  {
    hide Absorb, AddAll, LegalRun, ExecAll, ApplyAll, AllEvents, AllChanges, AllGroups, PairsAll, Expected,
      GroupedAll, AllConsistent, Prepared, HistoryAll, RawExecAll, Follows, Leaves, RestoredAndRemoved;
    var gs := AllGroups(raw);
    SameLedger(start);
    GroupsAreLegal(start, start, gs);
    PairedLedgerCompacted(raw, lcm, marshal, hasher, start, store, suppress, out);
    if Lists(Absorb(map[], suppress, AllEvents(lcm, hasher)).value, out) {
      var now := ApplyAll(store, out);
      forall k
        ensures Leaves(gs, store, RawExecAll(start, gs), now, k)
           <==> Get(now, k) == Expected(store, ExecAll(start, PairsAll(gs)), k)
        ensures RestoredAndRemoved(start, RawExecAll(start, gs), k)
           <==> RestoredAndRemoved(start, ExecAll(start, PairsAll(gs)), k)
      {
        LeavesIsExpected(gs, start, store, now, k);
      }
    }
  }

  lemma SameLedger(l: Ledger)
    ensures Follows(l, l)
  {
  }
}
