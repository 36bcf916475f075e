/** What raw meta says happened to the ledger, and that the pairs made of it say the same: each pair holds
    the entry from just before its change and the one from just after, and the pairs are a history the
    compactor accepts. */
module RawHistory {
  import opened Common
  import opened LedgerKeys
  import opened Compactor
  import opened Changes

  /** One raw change on the ledger. A state only shows an entry. */
  function RawExec(l: Ledger, r: Raw): (l': Ledger) {
    match r
    case RawState(_) => l
    case RawOther => l
    case RawRemoved(k) => Ledger(l.live - {k}, l.archived, l.touched + {k})
    case RawRestored(e) => Ledger(l.live[e.key := e], l.archived - {e.key}, l.touched + {e.key})
    case _ => Ledger(l.live[r.entry.key := r.entry], l.archived, l.touched + {r.entry.key})
  }

  function RawExecs(l: Ledger, raw: seq<Raw>, n: nat): (l': Ledger)
    requires n <= |raw|
  {
    if n == 0 then l else RawExec(RawExecs(l, raw, n - 1), raw[n - 1])
  }

  /** What meta may say next: a state shows the entry the ledger holds (a TTL entry touched earlier in the
      close may appear in an older version, CAP-63), creations are of new keys, restorations of archived
      ones. */
  predicate Possible(l: Ledger, r: Raw) {
    match r
    case RawState(e) => e.key in l.live && (l.live[e.key] == e || (e.key.Ttl? && e.key in l.touched))
    case RawCreated(e) => e.key !in l.live && e.key !in l.archived
    case RawRestored(e) => e.key in l.archived && e.key !in l.live
    case RawOther => false
    case _ => true
  }

  ghost predicate History(l: Ledger, raw: seq<Raw>) {
    forall i :: 0 <= i < |raw| ==> Possible(RawExecs(l, raw, i), raw[i])
  }

  lemma {:induction false} RawExecsApply(l: Ledger, raw: seq<Raw>, n: nat)
    requires n <= |raw|
    ensures RawExecs(l, raw, n).live == ApplyRaws(l.live, raw, n)
  {
    if n > 0 { RawExecsApply(l, raw, n - 1); }
  }

  // ---------------------------------------------------------------- each pair

  function RawKey(r: Raw): (k: LedgerKey)
    requires !r.RawOther?
  {
    if r.RawRemoved? then r.key else r.entry.key
  }

  /** An update or removal finds the entry of the record before it: shown as the state of its key, or just
      restored. */
  lemma PreviousIsHeld(l: Ledger, raw: seq<Raw>, i: nat)
    requires i < |raw| && ConsistentAt(raw, i) && History(l, raw) && (raw[i].RawUpdated? || raw[i].RawRemoved?)
    ensures var now, k := RawExecs(l, raw, i), RawKey(raw[i]);
            && i > 0 && Previous(raw, i).Ok? && k in now.live
            && (now.live[k] == Previous(raw, i).value || (raw[i - 1].RawState? && k.Ttl? && k in now.touched))
  {
    assert Possible(RawExecs(l, raw, i - 1), raw[i - 1]);
  }

  /** Every pair holds its key's entry from just before the raw change as Pre, and the one from just after as
      Post. The exception is a TTL entry whose older version was shown. */
  lemma PairIsBeforeAndAfter(l: Ledger, raw: seq<Raw>, i: nat)
    requires Consistent(raw) && History(l, raw) && i < |raw| && !raw[i].RawState?
    ensures PairAt(raw, i).Ok? && |PairAt(raw, i).value| == 1
    ensures var c, before, after := PairAt(raw, i).value[0], RawExecs(l, raw, i), RawExecs(l, raw, i + 1);
            var k := RawKey(raw[i]);
            && Proper(c) && KeyOf(c) == k && c.post == Get(after.live, k)
            && (c.pre == Get(before.live, k)
                || (c.pre == Some(raw[i - 1].entry) && raw[i - 1].RawState? && k.Ttl? && k in before.touched))
            && (c.kind.Created? <==> k !in before.live && k !in before.archived)
            && (c.kind.Restored? <==> k in before.archived && k !in before.live)
            && (c.kind.Removed? <==> k !in after.live)
  {
    assert ConsistentAt(raw, i) && Possible(RawExecs(l, raw, i), raw[i]);
    if raw[i].RawUpdated? || raw[i].RawRemoved? { PreviousIsHeld(l, raw, i); }
  }

  /** How many of the first `n` raw changes are not states. */
  function Effective(raw: seq<Raw>, n: nat): (m: nat)
    requires n <= |raw|
  {
    if n == 0 then 0 else Effective(raw, n - 1) + if raw[n - 1].RawState? then 0 else 1
  }

  /** The pairs are those of the effective changes, in order. */
  lemma {:induction false} PairsInOrder(raw: seq<Raw>, n: nat, i: nat)
    requires i < n <= |raw| && Consistent(raw)
    ensures Pairs(raw, n).Ok? && |Pairs(raw, n).value| == Effective(raw, n)
    ensures !raw[i].RawState? ==>
              && Effective(raw, i) < Effective(raw, n) && PairAt(raw, i).Ok?
              && PairAt(raw, i).value == [Pairs(raw, n).value[Effective(raw, i)]]
  {
    assert ConsistentAt(raw, n - 1);
    if i < n - 1 {
      PairsInOrder(raw, n - 1, i);
    } else if n > 1 {
      PairsInOrder(raw, n - 1, n - 2);
    }
  }

  // ---------------------------------------------------------------- legality

  /** The ledger of the squashed view: the same keys, and the same entries but for TTL entries touched in
      the close, of which the highest version counts. */
  ghost predicate Follows(m: Ledger, l: Ledger) {
    && m.archived == l.archived && m.touched == l.touched && m.live.Keys == l.live.Keys
    && forall k :: k in l.live && !(k.Ttl? && k in l.touched) ==> m.live[k] == l.live[k]
  }

  /** The pairs of a history are legal, and lead where the raw changes lead. */
  lemma {:induction false} PairsAreLegal(l: Ledger, m: Ledger, raw: seq<Raw>, n: nat)
    requires n <= |raw| && Consistent(raw) && History(l, raw) && Follows(m, l)
    ensures Pairs(raw, n).Ok? && LegalRun(m, Pairs(raw, n).value)
    ensures Follows(ExecAll(m, Pairs(raw, n).value), RawExecs(l, raw, n))
  {
    hide PairAt, ConsistentAt, Legal, Exec, RawExec, Possible, Follows;
    if n > 0 {
      PairsAreLegal(l, m, raw, n - 1);
      assert ConsistentAt(raw, n - 1);
      PairIsLegal(l, ExecAll(m, Pairs(raw, n - 1).value), raw, n - 1);
      var done, one := Pairs(raw, n - 1).value, PairAt(raw, n - 1).value;
      if one == [] {
        assert done + one == done;
      } else {
        assert done + one == done + [one[0]];
        LegalSnoc(m, done, one[0]);
      }
    }
  }

  lemma PairIsLegal(l: Ledger, m: Ledger, raw: seq<Raw>, i: nat)
    requires i < |raw| && ConsistentAt(raw, i) && History(l, raw) && Follows(m, RawExecs(l, raw, i))
    ensures PairAt(raw, i).Ok?
    ensures var one, after := PairAt(raw, i).value, RawExecs(l, raw, i + 1);
            if one == [] then Follows(m, after) else |one| == 1 && Legal(m, one[0]) && Follows(Exec(m, one[0]), after)
  {
    assert Possible(RawExecs(l, raw, i), raw[i]);
    if raw[i].RawUpdated? || raw[i].RawRemoved? { PreviousIsHeld(l, raw, i); }
  }
}
