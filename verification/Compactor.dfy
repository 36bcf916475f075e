/** The change compactor: a cache with one squashed change per ledger key, and the proof that
    applying the squashed changes has the effect of applying all changes in turn. */
module Compactor {
  import opened Common
  import opened LedgerKeys

  /** A ledger entry. `liveUntil` is LiveUntilLedgerSeq, meaningful for TTL entries. */
  datatype Entry = Entry(key: LedgerKey, body: Bytes, liveUntil: nat)

  datatype ChangeType = Created | Updated | Removed | Restored | State

  /** A change as the compactor keeps it; the reason and transaction fields travel unchanged or are
      dropped and play no part. */
  datatype Change = Change(kind: ChangeType, pre: Option<Entry>, post: Option<Entry>)

  datatype CompactError = AlreadyExists | WasRemoved | AlreadyActive | UnknownType

  type Cache = map<LedgerKey, Change>

  /** The entries each kind of change carries, as Change documents them: a removal has Pre and no Post,
      an update both sides of one entry, a creation or restoration Post. */
  predicate WellFormed(c: Change) {
    match c.kind
    case Removed => c.pre.Some? && c.post.None?
    case Updated => c.pre.Some? && c.post.Some? && c.pre.value.key == c.post.value.key
    case State => true
    case _ => c.post.Some?
  }

  function KeyOf(c: Change): (k: LedgerKey)
    requires WellFormed(c) && !c.kind.State?
  {
    if c.kind.Removed? then c.pre.value.key else c.post.value.key
  }

  /** CAP-63: updates of one TTL entry within a ledger keep the highest LiveUntilLedgerSeq. */
  function MergeTtl(existing: Entry, post: Entry): (e: Entry) {
    if existing.liveUntil > post.liveUntil then post.(liveUntil := existing.liveUntil) else post
  }

  /** Squashed changes name their own key and have the fields their kind calls for. */
  ghost predicate CacheOk(cache: Cache) {
    forall k :: k in cache ==>
      && WellFormed(cache[k]) && !cache[k].kind.State? && KeyOf(cache[k]) == k
      && (!cache[k].kind.Removed? ==> cache[k].post.Some? && cache[k].post.value.key == k)
  }

  /** The transition tables of addCreatedChange, addUpdatedChange, addRemovedChange and
      addRestoredChange. On an error the cache is left as it was. */
  function Add(cache: Cache, suppress: bool, c: Change): (r: Result<Cache, CompactError>)
    requires WellFormed(c) && CacheOk(cache)
    ensures r.Ok? ==> CacheOk(r.value)
  {
    if c.kind.State? then Err(UnknownType)
    else
      var k := KeyOf(c);
      if k !in cache then Ok(cache[k := c])
      else
        var prev := cache[k];
        assert WellFormed(prev) && !prev.kind.State?;
        match c.kind
        case Created =>
          if prev.kind.Removed? then Ok(cache[k := Change(Updated, prev.pre, c.post)]) else Err(AlreadyExists)
        case Updated =>
          if prev.kind.Removed? then Err(WasRemoved)
          else
            var post := if k.Ttl? then Some(MergeTtl(prev.post.value, c.post.value)) else c.post;
            Ok(cache[k := Change(prev.kind, prev.pre, post)])
        case Removed =>
          (match prev.kind
           case Created => Ok(cache - {k})
           case Updated => Ok(cache[k := Change(Removed, prev.pre, None)])
           case Restored => if suppress then Ok(cache - {k}) else Ok(cache[k := Change(Removed, c.pre, None)])
           case _ => Err(WasRemoved))
        case Restored => Err(AlreadyActive)
  }

  /** `out` lists the cache, one change per key, in some order. */
  ghost predicate Lists(cache: Cache, out: seq<Change>) {
    && (forall i :: 0 <= i < |out| ==>
          WellFormed(out[i]) && !out[i].kind.State? && KeyOf(out[i]) in cache && cache[KeyOf(out[i])] == out[i])
    && (forall i, j :: 0 <= i < j < |out| ==> KeyOf(out[i]) != KeyOf(out[j]))
    && (forall k :: k in cache ==> exists i :: 0 <= i < |out| && out[i] == cache[k])
  }

  class ChangeCompactor {
    var cache: Cache
    const suppress: bool

    ghost predicate Valid()
      reads this
    {
      CacheOk(cache)
    }

    constructor (suppress: bool)
      ensures Valid() && cache == map[] && this.suppress == suppress
    {
      this.suppress := suppress;
      cache := map[];
    }

    method AddChange(c: Change) returns (error: Option<CompactError>)
      requires Valid() && WellFormed(c)
      modifies this
      ensures Valid()
      ensures error.None? ==> Add(old(cache), suppress, c) == Ok(cache)
      ensures error.Some? ==> Add(old(cache), suppress, c) == Err(error.value) && cache == old(cache)
    {
      error := None;
      match c.kind
      case Created => error := AddCreated(c);
      case Updated => error := AddUpdated(c);
      case Removed => error := AddRemoved(c);
      case Restored => error := AddRestored(c);
      case State => error := Some(UnknownType);
    }

    method AddCreated(c: Change) returns (error: Option<CompactError>)
      requires Valid() && WellFormed(c) && c.kind.Created?
      modifies this
      ensures Valid()
      ensures error.None? ==> Add(old(cache), suppress, c) == Ok(cache)
      ensures error.Some? ==> Add(old(cache), suppress, c) == Err(error.value) && cache == old(cache)
    {
      error := None;
      var k := c.post.value.key;
      if k !in cache {
        cache := cache[k := c];
      } else if cache[k].kind.Removed? {
        cache := cache[k := Change(Updated, cache[k].pre, c.post)];
      } else {
        error := Some(AlreadyExists);
      }
    }

    method AddUpdated(c: Change) returns (error: Option<CompactError>)
      requires Valid() && WellFormed(c) && c.kind.Updated?
      modifies this
      ensures Valid()
      ensures error.None? ==> Add(old(cache), suppress, c) == Ok(cache)
      ensures error.Some? ==> Add(old(cache), suppress, c) == Err(error.value) && cache == old(cache)
    {
      error := None;
      var k := c.post.value.key;
      if k !in cache {
        cache := cache[k := c];
      } else if cache[k].kind.Removed? {
        error := Some(WasRemoved);
      } else {
        var post := c.post.value;
        if k.Ttl? {
          post := MergeTtl(cache[k].post.value, post);
        }
        cache := cache[k := Change(cache[k].kind, cache[k].pre, Some(post))];
      }
    }

    method AddRemoved(c: Change) returns (error: Option<CompactError>)
      requires Valid() && WellFormed(c) && c.kind.Removed?
      modifies this
      ensures Valid()
      ensures error.None? ==> Add(old(cache), suppress, c) == Ok(cache)
      ensures error.Some? ==> Add(old(cache), suppress, c) == Err(error.value) && cache == old(cache)
    {
      error := None;
      var k := c.pre.value.key;
      if k !in cache {
        cache := cache[k := c];
        return;
      }
      match cache[k].kind
      case Created => cache := cache - {k};
      case Updated =>
        cache := cache[k := Change(Removed, cache[k].pre, None)];
      case Removed => error := Some(WasRemoved);
      case Restored =>
        if suppress {
          cache := cache - {k};
        } else {
          cache := cache[k := Change(Removed, c.pre, None)];
        }
      case State =>
    }

    method AddRestored(c: Change) returns (error: Option<CompactError>)
      requires Valid() && WellFormed(c) && c.kind.Restored?
      modifies this
      ensures Valid()
      ensures error.None? ==> Add(old(cache), suppress, c) == Ok(cache)
      ensures error.Some? ==> Add(old(cache), suppress, c) == Err(error.value) && cache == old(cache)
    {
      error := None;
      var k := c.post.value.key;
      if k in cache {
        error := Some(AlreadyActive);
      } else {
        cache := cache[k := c];
      }
    }

    /** GetChanges: the cache in an arbitrary order. */
    method GetChanges() returns (out: seq<Change>)
      requires Valid()
      ensures Lists(cache, out)
    {
      out := [];
      var todo := cache.Keys;
      while todo != {}
        invariant todo <= cache.Keys
        invariant Lists(map k | k in cache.Keys - todo :: cache[k], out)
        decreases |todo|
      {
        var k :| k in todo;
        ghost var before := map l | l in cache.Keys - todo :: cache[l];
        ghost var after := map l | l in cache.Keys - (todo - {k}) :: cache[l];
        ListsExtends(before, out, k, cache[k], after);
        out := out + [cache[k]];
        todo := todo - {k};
      }
      assert (map k | k in cache.Keys - {} :: cache[k]) == cache;
    }
  }

  lemma ListsExtends(cache: Cache, out: seq<Change>, k: LedgerKey, c: Change, after: Cache)
    requires Lists(cache, out) && k !in cache && after == cache[k := c]
    requires WellFormed(c) && !c.kind.State? && KeyOf(c) == k
    ensures Lists(after, out + [c])
  {
    hide WellFormed, KeyOf;
    var out' := out + [c];
    forall i | 0 <= i < |out'|
      ensures WellFormed(out'[i]) && !out'[i].kind.State? && KeyOf(out'[i]) in after && after[KeyOf(out'[i])] == out'[i]
      ensures i < |out| ==> KeyOf(out'[i]) != k
    {
      if i < |out| { assert out'[i] == out[i]; }
    }
    forall l | l in after ensures exists i :: 0 <= i < |out'| && out'[i] == after[l] {
      if l == k {
        assert out'[|out|] == c;
      } else {
        var i :| 0 <= i < |out| && out[i] == cache[l];
        assert out'[i] == after[l];
      }
    }
  }

  // ---------------------------------------------------------------- what changes mean

  /** The ledger as the changes of one ledger close see it: live entries, archived keys, and the
      keys already touched by an earlier change of this close. */
  datatype Ledger = Ledger(live: map<LedgerKey, Entry>, archived: set<LedgerKey>, touched: set<LedgerKey>)

  /** The change is one the ledger can make next. Its previous entry is the current one, at least
      the first time the close touches the key. */
  predicate Legal(l: Ledger, c: Change) {
    && WellFormed(c) && !c.kind.State?
    && var k := KeyOf(c);
       match c.kind
       case Created => k !in l.live && k !in l.archived
       case Updated => k in l.live && (k !in l.touched ==> c.pre == Some(l.live[k]))
       case Removed => k in l.live && (k !in l.touched ==> c.pre == Some(l.live[k]))
       case _ => k in l.archived && k !in l.live
  }

  function Exec(l: Ledger, c: Change): (l': Ledger)
    requires Legal(l, c)
  {
    var k := KeyOf(c);
    var touched := l.touched + {k};
    match c.kind
    case Removed => Ledger(l.live - {k}, l.archived, touched)
    case Updated =>
      var e := if k.Ttl? && k in l.touched && l.live[k].liveUntil > c.post.value.liveUntil
               then Entry(c.post.value.key, c.post.value.body, l.live[k].liveUntil) else c.post.value;
      Ledger(l.live[k := e], l.archived, touched)
    case _ => Ledger(l.live[k := c.post.value], l.archived - {k}, touched)
  }

  ghost predicate LegalRun(l: Ledger, cs: seq<Change>)
    decreases |cs|
  {
    cs != [] ==> Legal(l, cs[0]) && LegalRun(Exec(l, cs[0]), cs[1..])
  }

  ghost function ExecAll(l: Ledger, cs: seq<Change>): (l': Ledger)
    requires LegalRun(l, cs)
    decreases |cs|
  {
    if cs == [] then l else ExecAll(Exec(l, cs[0]), cs[1..])
  }

  lemma {:induction false} LegalSnoc(l: Ledger, cs: seq<Change>, c: Change)
    ensures LegalRun(l, cs + [c]) <==> LegalRun(l, cs) && Legal(ExecAll(l, cs), c)
    ensures LegalRun(l, cs + [c]) ==> ExecAll(l, cs + [c]) == Exec(ExecAll(l, cs), c)
    decreases |cs|
  {
    hide Legal, Exec;
    var all := cs + [c];
    if cs == [] {
      assert all[0] == c && all[1..] == [];
    } else {
      assert all[0] == cs[0] && all[1..] == cs[1..] + [c];
      if Legal(l, cs[0]) { LegalSnoc(Exec(l, cs[0]), cs[1..], c); }
    }
  }

  /** A consumer's store, and what one squashed change does to it. */
  function ApplyOne(store: map<LedgerKey, Entry>, c: Change): (s: map<LedgerKey, Entry>)
    requires WellFormed(c) && !c.kind.State?
  {
    if c.kind.Removed? then store - {KeyOf(c)} else store[KeyOf(c) := c.post.value]
  }

  function ApplyAll(store: map<LedgerKey, Entry>, cs: seq<Change>): (s: map<LedgerKey, Entry>)
    requires forall i :: 0 <= i < |cs| ==> WellFormed(cs[i]) && !cs[i].kind.State?
    decreases |cs|
  {
    if cs == [] then store else ApplyOne(ApplyAll(store, cs[..|cs| - 1]), cs[|cs| - 1])
  }

  function Get(m: map<LedgerKey, Entry>, k: LedgerKey): (r: Option<Entry>) {
    if k in m then Some(m[k]) else None
  }

  // ---------------------------------------------------------------- one key

  /** How the cached change of a key relates its state before the close to its state now. */
  ghost predicate Squashes(start: Ledger, now: Ledger, suppress: bool, k: LedgerKey, c: Option<Change>) {
    match c
    case None =>
      || (k !in now.touched && Get(now.live, k) == Get(start.live, k) && (k in now.archived <==> k in start.archived))
      || (k in now.touched && k !in now.live && k !in start.live && k !in now.archived
          && (k in start.archived ==> suppress))
    case Some(Change(kind, pre, post)) =>
      && k in now.touched && k !in now.archived && Get(now.live, k) == post
      && (match kind
          case Created => k !in start.live && (k in start.archived ==> suppress)
          case Restored => k in start.archived
          case Updated =>
            post.Some? && if k in start.archived then !suppress else (Get(start.live, k) == pre && pre.Some?)
          case Removed =>
            post.None? && if k in start.archived then !suppress else (Get(start.live, k) == pre && pre.Some?)
          case State => false)
  }

  function Cached(cache: Cache, k: LedgerKey): (c: Option<Change>) {
    if k in cache then Some(cache[k]) else None
  }

  ghost predicate Inv(start: Ledger, now: Ledger, suppress: bool, cache: Cache) {
    && CacheOk(cache) && start.live.Keys !! start.archived
    && forall k :: Squashes(start, now, suppress, k, Cached(cache, k))
  }

  /** A legal change is never refused, and the squashed change stays right. */
  lemma AddKeepsInv(start: Ledger, now: Ledger, suppress: bool, cache: Cache, c: Change)
    requires Inv(start, now, suppress, cache) && Legal(now, c)
    ensures Add(cache, suppress, c).Ok?
    ensures Inv(start, Exec(now, c), suppress, Add(cache, suppress, c).value)
  {
    var k := KeyOf(c);
    assert Squashes(start, now, suppress, k, Cached(cache, k));
    var next, cache' := Exec(now, c), Add(cache, suppress, c).value;
    forall l ensures Squashes(start, next, suppress, l, Cached(cache', l)) {
      assert Squashes(start, now, suppress, l, Cached(cache, l));
      if l != k {
        assert Cached(cache', l) == Cached(cache, l);
      }
    }
  }

  /** What is refused, told from the ledger: creating or updating or removing what the close touched and
      that is live, respectively gone, and restoring what the close left in the cache. */
  lemma AddRefusesExactly(start: Ledger, now: Ledger, suppress: bool, cache: Cache, c: Change)
    requires Inv(start, now, suppress, cache) && WellFormed(c)
    ensures c.kind.State? ==> Add(cache, suppress, c) == Err(UnknownType)
    ensures !c.kind.State? ==>
              var k, r := KeyOf(c), Add(cache, suppress, c);
              && (c.kind.Created? && k in cache && k in now.live ==> r == Err(AlreadyExists))
              && (c.kind.Updated? && k in cache && k !in now.live ==> r == Err(WasRemoved))
              && (c.kind.Removed? && k in cache && k !in now.live ==> r == Err(WasRemoved))
              && (c.kind.Restored? && k in cache ==> r == Err(AlreadyActive))
              && (r.Err? ==> k in cache && (c.kind.Restored? || (c.kind.Created? <==> k in now.live)))
  {
    if !c.kind.State? {
      assert Squashes(start, now, suppress, KeyOf(c), Cached(cache, KeyOf(c)));
    }
  }

  // ---------------------------------------------------------------- whole ledgers

  /** The cache after adding a sequence of changes, or the first error. */
  function AddAll(cache: Cache, suppress: bool, cs: seq<Change>): (r: Result<Cache, CompactError>)
    requires CacheOk(cache)
    requires forall i :: 0 <= i < |cs| ==> WellFormed(cs[i])
    decreases |cs|
  {
    if cs == [] then Ok(cache)
    else
      var next :- Add(cache, suppress, cs[0]);
      AddAll(next, suppress, cs[1..])
  }

  lemma {:induction false} AddAllKeepsInv(start: Ledger, now: Ledger, suppress: bool, cache: Cache, cs: seq<Change>)
    requires Inv(start, now, suppress, cache) && LegalRun(now, cs)
    requires forall i :: 0 <= i < |cs| ==> WellFormed(cs[i])
    ensures AddAll(cache, suppress, cs).Ok?
    ensures Inv(start, ExecAll(now, cs), suppress, AddAll(cache, suppress, cs).value)
    decreases |cs|
  {
    hide Add, Exec, Legal, Squashes;
    if cs != [] {
      AddKeepsInv(start, now, suppress, cache, cs[0]);
      AddAllKeepsInv(start, Exec(now, cs[0]), suppress, Add(cache, suppress, cs[0]).value, cs[1..]);
    }
  }

  /** Applying changes with distinct keys: each key gets its own change, in whatever order. */
  lemma {:induction false} ApplyAllAt(store: map<LedgerKey, Entry>, cache: Cache, out: seq<Change>, k: LedgerKey)
    requires forall i :: 0 <= i < |out| ==>
               WellFormed(out[i]) && !out[i].kind.State? && KeyOf(out[i]) in cache && cache[KeyOf(out[i])] == out[i]
    requires forall i, j :: 0 <= i < j < |out| ==> KeyOf(out[i]) != KeyOf(out[j])
    ensures (exists i :: 0 <= i < |out| && KeyOf(out[i]) == k) ==>
              k in cache && Get(ApplyAll(store, out), k) == cache[k].post
    ensures (forall i :: 0 <= i < |out| ==> KeyOf(out[i]) != k) ==> Get(ApplyAll(store, out), k) == Get(store, k)
    decreases |out|
  {
    hide WellFormed, KeyOf, ApplyOne;
    if out != [] {
      var n := |out| - 1;
      var init, last := out[..n], out[n];
      assert forall i :: 0 <= i < n ==> init[i] == out[i];
      ApplyAllAt(store, cache, init, k);
      ApplyOneAt(ApplyAll(store, init), last, k);
      if KeyOf(last) != k && exists i :: 0 <= i < |out| && KeyOf(out[i]) == k {
        var i :| 0 <= i < |out| && KeyOf(out[i]) == k;
        assert KeyOf(init[i]) == k;
      }
    }
  }

  lemma ApplyOneAt(store: map<LedgerKey, Entry>, c: Change, k: LedgerKey)
    requires WellFormed(c) && !c.kind.State?
    ensures Get(ApplyOne(store, c), k) == if KeyOf(c) == k then c.post else Get(store, k)
  {
  }

  /** What the store should hold of a key after the close: the key's live entry, or nothing; an
      archived key that was left alone keeps whatever the store held. */
  function Expected(store: map<LedgerKey, Entry>, end: Ledger, k: LedgerKey): (r: Option<Entry>) {
    if k in end.archived then Get(store, k) else Get(end.live, k)
  }

  /** The store agrees with the ledger on every key that is not archived. */
  ghost predicate Mirrors(store: map<LedgerKey, Entry>, l: Ledger) {
    l.live.Keys !! l.archived && forall k :: k !in l.archived ==> Get(store, k) == Get(l.live, k)
  }

  /** Keys restored from the archive and removed again: what suppression drops without a trace. */
  predicate RestoredAndRemoved(start: Ledger, end: Ledger, k: LedgerKey) {
    k in start.archived && k !in end.archived && k !in end.live
  }

  /** The effect of the squashed changes on one key of the store. */
  lemma CompactedAt(start: Ledger, suppress: bool, cs: seq<Change>, store: map<LedgerKey, Entry>, out: seq<Change>,
                    k: LedgerKey)
    requires start.touched == {} && Mirrors(store, start) && LegalRun(start, cs)
    requires forall i :: 0 <= i < |cs| ==> WellFormed(cs[i])
    requires AddAll(map[], suppress, cs).Ok? && Lists(AddAll(map[], suppress, cs).value, out)
    ensures Get(ApplyAll(store, out), k)
         == if suppress && RestoredAndRemoved(start, ExecAll(start, cs), k) then Get(store, k)
              else Expected(store, ExecAll(start, cs), k)
  {
    hide Add, Exec, Legal, LegalRun, AddAll, ExecAll, ApplyAll;
    var cache, end := AddAll(map[], suppress, cs).value, ExecAll(start, cs);
    AddAllKeepsInv(start, start, suppress, map[], cs);
    assert Squashes(start, end, suppress, k, Cached(cache, k));
    ApplyAllAt(store, cache, out, k);
    if k in cache {
      var i :| 0 <= i < |out| && out[i] == cache[k];
      assert KeyOf(out[i]) == k;
    }
  }

  /** Every change sequence that is legal from the start of the close is accepted, and applying the
      squashed changes once, in any order, gives the store the effect of applying all of them in
      turn. With suppression on this holds exactly when the store held none of the keys that were
      restored and removed again. */
  lemma CompactionPreservesEffect(start: Ledger, suppress: bool, cs: seq<Change>, store: map<LedgerKey, Entry>,
                                  out: seq<Change>)
    requires start.touched == {} && Mirrors(store, start) && LegalRun(start, cs)
    requires forall i :: 0 <= i < |cs| ==> WellFormed(cs[i])
    ensures AddAll(map[], suppress, cs).Ok?
    ensures Lists(AddAll(map[], suppress, cs).value, out) ==>
              ((forall k :: Get(ApplyAll(store, out), k) == Expected(store, ExecAll(start, cs), k)) <==>
               (!suppress || forall k :: RestoredAndRemoved(start, ExecAll(start, cs), k) ==> k !in store))
  {
    hide Add, Exec, Legal, LegalRun, AddAll, ExecAll, ApplyAll;
    AddAllKeepsInv(start, start, suppress, map[], cs);
    if Lists(AddAll(map[], suppress, cs).value, out) {
      var end := ExecAll(start, cs);
      forall k
        ensures Get(ApplyAll(store, out), k)
             == if suppress && RestoredAndRemoved(start, end, k) then Get(store, k) else Expected(store, end, k)
      {
        CompactedAt(start, suppress, cs, store, out, k);
      }
      if suppress && exists k :: RestoredAndRemoved(start, end, k) && k in store {
        var k :| RestoredAndRemoved(start, end, k) && k in store;
        assert Get(ApplyAll(store, out), k) != Expected(store, end, k);
      }
    }
  }

  /** UPDATED and REMOVED results carry the entry from before the close as Pre, unless the key was
      restored during it; CREATED results are for keys that were not live. */
  lemma ResultsCarryPre(start: Ledger, suppress: bool, cs: seq<Change>, k: LedgerKey)
    requires start.touched == {} && start.live.Keys !! start.archived && LegalRun(start, cs)
    requires forall i :: 0 <= i < |cs| ==> WellFormed(cs[i])
    ensures AddAll(map[], suppress, cs).Ok?
    ensures var cache := AddAll(map[], suppress, cs).value;
            k in cache ==>
              && ((cache[k].kind.Updated? || cache[k].kind.Removed?) && k !in start.archived ==>
                    k in start.live && cache[k].pre == Some(start.live[k]))
              && (cache[k].kind.Created? ==> k !in start.live)
              && (cache[k].kind.Restored? ==> k in start.archived)
              && cache[k].post == Get(ExecAll(start, cs).live, k)
  {
    hide Add, Exec, Legal, LegalRun, AddAll, ExecAll;
    AddAllKeepsInv(start, start, suppress, map[], cs);
    var cache := AddAll(map[], suppress, cs).value;
    assert Squashes(start, ExecAll(start, cs), suppress, k, Cached(cache, k));
  }

  /** With suppression on the effect is lost on a store that still holds a key that was restored and
      removed again: the two changes cancel, and the entry stays. */
  lemma SuppressionCanLose(e: Entry)
    ensures var k := e.key;
            var start, store := Ledger(map[], {k}, {}), map[k := e];
            var cs := [Change(Restored, None, Some(e)), Change(Removed, Some(e), None)];
            && LegalRun(start, cs) && Mirrors(store, start)
            && AddAll(map[], true, cs) == Ok(map[]) && Lists(map[], [])
            && Get(ApplyAll(store, []), k) == Some(e) && Expected(store, ExecAll(start, cs), k) == None
  {
    var k := e.key;
    var start := Ledger(map[], {k}, {});
    var c, d := Change(Restored, None, Some(e)), Change(Removed, Some(e), None);
    var mid := Exec(start, c);
    var end := Exec(mid, d);
    assert [c, d][0] == c && [c, d][1..] == [d] && [d][1..] == [];
    assert LegalRun(mid, [d]) && ExecAll(mid, [d]) == end;
    assert ExecAll(start, [c, d]) == end;
    assert Add(map[], true, c) == Ok(map[k := c]);
    assert Add(map[k := c], true, d) == Ok(map[]);
    assert AddAll(map[k := c], true, [d]) == Ok(map[]);
  }
}
