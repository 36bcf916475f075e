/** What the Post of a squashed change is, told from the changes alone: the last version of the entry, and
    of a TTL entry the highest LiveUntilLedgerSeq it had since it was last created or restored. */
module SquashedPost {
  import opened Common
  import opened LedgerKeys
  import opened Compactor

  predicate Touches(c: Change, k: LedgerKey) {
    WellFormed(c) && !c.kind.State? && KeyOf(c) == k
  }

  /** Where the key was last created or restored; the beginning if it was neither. */
  function LifeStart(cs: seq<Change>, k: LedgerKey): (i: nat)
    ensures i <= |cs|
  {
    if cs == [] then 0
    else
      var n := |cs| - 1;
      if Touches(cs[n], k) && (cs[n].kind.Created? || cs[n].kind.Restored?) then n else LifeStart(cs[..n], k)
  }

  /** `last` is the last change of the key, and leaves it an entry. */
  predicate IsLast(cs: seq<Change>, k: LedgerKey, last: int) {
    && 0 <= last < |cs| && Touches(cs[last], k) && cs[last].post.Some?
    && forall j :: last < j < |cs| ==> !Touches(cs[j], k)
  }

  /** `until` is the highest LiveUntilLedgerSeq of the key's versions from `start` on. */
  ghost predicate IsHighest(cs: seq<Change>, k: LedgerKey, start: nat, until: nat) {
    && (forall j :: start <= j < |cs| && Touches(cs[j], k) ==>
          cs[j].post.Some? && cs[j].post.value.liveUntil <= until)
    && exists j :: start <= j < |cs| && Touches(cs[j], k) && cs[j].post.Some? && cs[j].post.value.liveUntil == until
  }

  /** The entry the changes leave at the key. */
  ghost predicate IsFinal(cs: seq<Change>, k: LedgerKey, e: Entry) {
    exists last :: IsLast(cs, k, last) && IsVersion(cs, k, cs[last].post.value, e)
  }

  /** The entry is the version given, a TTL entry with the highest LiveUntilLedgerSeq of its life. */
  ghost predicate IsVersion(cs: seq<Change>, k: LedgerKey, last: Entry, e: Entry) {
    if k.Ttl? then e.key == k && e.body == last.body && IsHighest(cs, k, LifeStart(cs, k), e.liveUntil)
    else e == last
  }

  lemma FinalUnique(cs: seq<Change>, k: LedgerKey, e: Entry, e': Entry)
    requires IsFinal(cs, k, e) && IsFinal(cs, k, e')
    ensures e == e'
  {
    hide LifeStart, Touches;
    var i :| IsLast(cs, k, i) && IsVersion(cs, k, cs[i].post.value, e);
    var j :| IsLast(cs, k, j) && IsVersion(cs, k, cs[j].post.value, e');
    assert i == j;
  }

  lemma LifeSnoc(cs: seq<Change>, c: Change, k: LedgerKey)
    ensures LifeStart(cs + [c], k)
         == if Touches(c, k) && (c.kind.Created? || c.kind.Restored?) then |cs| else LifeStart(cs, k)
  {
    assert (cs + [c])[..|cs|] == cs;
  }

  /** A change of another key leaves the entry. */
  lemma FinalOther(cs: seq<Change>, c: Change, k: LedgerKey, e: Entry)
    requires IsFinal(cs, k, e) && !Touches(c, k)
    ensures IsFinal(cs + [c], k, e)
  {
    hide LifeStart, Touches;
    LifeSnoc(cs, c, k);
    var all := cs + [c];
    var last :| IsLast(cs, k, last) && IsVersion(cs, k, cs[last].post.value, e);
    assert IsLast(all, k, last);
    if k.Ttl? { HighestOther(cs, c, k, LifeStart(cs, k), e.liveUntil); }
  }

  lemma HighestOther(cs: seq<Change>, c: Change, k: LedgerKey, start: nat, until: nat)
    requires IsHighest(cs, k, start, until) && !Touches(c, k)
    ensures IsHighest(cs + [c], k, start, until)
  {
    hide Touches;
    var j :| start <= j < |cs| && Touches(cs[j], k) && cs[j].post.Some? && cs[j].post.value.liveUntil == until;
    assert (cs + [c])[j] == cs[j];
  }

  /** The first change of a life sets the entry. */
  lemma FinalFirst(cs: seq<Change>, c: Change, k: LedgerKey)
    requires Touches(c, k) && c.post.Some? && c.post.value.key == k
    requires LifeStart(cs + [c], k) <= |cs| && forall j :: LifeStart(cs + [c], k) <= j < |cs| ==> !Touches(cs[j], k)
    ensures IsFinal(cs + [c], k, c.post.value)
  {
    hide LifeStart, Touches, IsHighest;
    var all := cs + [c];
    assert all[|cs|] == c && IsLast(all, k, |cs|);
    HighestFirst(cs, c, k, LifeStart(all, k));
    assert IsVersion(all, k, all[|cs|].post.value, c.post.value);
  }

  lemma HighestFirst(cs: seq<Change>, c: Change, k: LedgerKey, start: nat)
    requires Touches(c, k) && c.post.Some? && start <= |cs|
    requires forall j :: start <= j < |cs| ==> !Touches(cs[j], k)
    ensures IsHighest(cs + [c], k, start, c.post.value.liveUntil)
  {
    hide Touches;
    var all := cs + [c];
    assert all[|cs|] == c;
    assert forall j :: start <= j < |cs| ==> all[j] == cs[j];
  }

  /** A later version replaces the entry, and raises the highest or keeps it. */
  lemma FinalUpdate(cs: seq<Change>, c: Change, k: LedgerKey, e: Entry, e': Entry)
    requires IsFinal(cs, k, e) && Touches(c, k) && c.kind.Updated?
    requires if k.Ttl?
             then e' == Entry(k, c.post.value.body,
                              if e.liveUntil > c.post.value.liveUntil then e.liveUntil else c.post.value.liveUntil)
             else e' == c.post.value
    ensures IsFinal(cs + [c], k, e')
  {
    var all := cs + [c];
    LifeSnoc(cs, c, k);
    assert all[|cs|] == c && IsLast(all, k, |cs|);
    if k.Ttl? {
      var start := LifeStart(cs, k);
      var j :| start <= j < |cs| && Touches(cs[j], k) && cs[j].post.Some?
               && cs[j].post.value.liveUntil == e.liveUntil;
      assert all[j] == cs[j];
      assert IsHighest(all, k, start, e'.liveUntil);
    }
  }

  /** What a legal history leaves at a key it touches. */
  lemma {:induction false} LiveIsFinal(l: Ledger, cs: seq<Change>, k: LedgerKey)
    requires l.touched == {} && LegalRun(l, cs)
    ensures k in ExecAll(l, cs).touched <==> exists j :: 0 <= j < |cs| && Touches(cs[j], k)
    ensures k in ExecAll(l, cs).touched && k in ExecAll(l, cs).live ==> IsFinal(cs, k, ExecAll(l, cs).live[k])
    decreases |cs|
  {
    hide LegalRun, ExecAll, IsFinal;
    if cs == [] {
      NothingDone(l);
    } else {
      var n := |cs| - 1;
      var init, c := cs[..n], cs[n];
      assert cs == init + [c];
      LegalSnoc(l, init, c);
      LiveIsFinal(l, init, k);
      var m := ExecAll(l, init);
      if !Touches(c, k) {
        if k in m.touched && k in m.live { FinalOther(init, c, k, m.live[k]); }
      } else {
        assert Touches(cs[n], k);
        LifeSnoc(init, c, k);
        if c.kind.Created? || c.kind.Restored? {
          FinalFirst(init, c, k);
        } else if c.kind.Updated? && k in m.touched {
          FinalUpdate(init, c, k, m.live[k], Exec(m, c).live[k]);
        } else if c.kind.Updated? {
          FinalFirst(init, c, k);
        }
      }
    }
  }

  lemma NothingDone(l: Ledger)
    ensures ExecAll(l, []) == l
  {
  }

  /** The Post of a squashed change: of a TTL entry the highest LiveUntilLedgerSeq since it was last created
      or restored, or of all its updates; of any other entry the last version. */
  lemma CachedPostIsFinal(start: Ledger, suppress: bool, cs: seq<Change>, k: LedgerKey)
    requires start.touched == {} && start.live.Keys !! start.archived && LegalRun(start, cs)
    requires forall i :: 0 <= i < |cs| ==> WellFormed(cs[i])
    ensures AddAll(map[], suppress, cs).Ok?
    ensures var cache := AddAll(map[], suppress, cs).value;
            k in cache && !cache[k].kind.Removed? ==>
              cache[k].post.Some? && IsFinal(cs, k, cache[k].post.value)
  {
    hide Add, Exec, Legal, LegalRun, AddAll, ExecAll, IsFinal;
    AddAllKeepsInv(start, start, suppress, map[], cs);
    var cache := AddAll(map[], suppress, cs).value;
    assert Squashes(start, ExecAll(start, cs), suppress, k, Cached(cache, k));
    LiveIsFinal(start, cs, k);
  }
}
