/** Turning the raw entry changes of transaction meta into pre/post pairs, sorted stably by ledger
    key, and the proof that neither step changes what the list does to a ledger. */
module Changes {
  import opened Common
  import opened LedgerKeys
  import opened Compactor

  /** xdr.LedgerEntryChange; Other stands for a type outside the enumeration. */
  datatype Raw =
    | RawState(entry: Entry)
    | RawCreated(entry: Entry)
    | RawUpdated(entry: Entry)
    | RawRestored(entry: Entry)
    | RawRemoved(key: LedgerKey)
    | RawOther

  datatype Panic = NoPrevious | NotRestored | InvalidType

  type Store = map<LedgerKey, Entry>

  // ---------------------------------------------------------------- pairing

  /** The change made of raw[i], if it makes one. */
  function PairAt(raw: seq<Raw>, i: nat): (r: Result<seq<Change>, Panic>)
    requires i < |raw|
    ensures r.Ok? ==> |r.value| <= 1
  {
    match raw[i]
    case RawState(_) => Ok([])
    case RawCreated(e) => Ok([Change(Created, None, Some(e))])
    case RawRestored(e) => Ok([Change(Restored, None, Some(e))])
    case RawOther => Err(InvalidType)
    case RawUpdated(e) =>
      var pre :- Previous(raw, i);
      Ok([Change(Updated, Some(pre), Some(e))])
    case RawRemoved(_) =>
      var pre :- Previous(raw, i);
      Ok([Change(Removed, Some(pre), None)])
  }

  /** The entry right before an update or removal: a state, or else a restored entry. */
  function Previous(raw: seq<Raw>, i: nat): (r: Result<Entry, Panic>)
    requires i < |raw|
  {
    if i == 0 then Err(NoPrevious)
    else if raw[i - 1].RawState? || raw[i - 1].RawRestored? then Ok(raw[i - 1].entry)
    else Err(NotRestored)
  }

  function Pairs(raw: seq<Raw>, n: nat): (r: Result<seq<Change>, Panic>)
    requires n <= |raw|
  {
    if n == 0 then Ok([])
    else
      var done :- Pairs(raw, n - 1);
      var one :- PairAt(raw, n - 1);
      Ok(done + one)
  }

  /** The records the source panics on: an unknown type, and an update or removal that does not directly
      follow a state or a restoration. */
  predicate Panics(raw: seq<Raw>, i: nat)
    requires i < |raw|
  {
    || raw[i].RawOther?
    || ((raw[i].RawUpdated? || raw[i].RawRemoved?) && !(i > 0 && (raw[i - 1].RawState? || raw[i - 1].RawRestored?)))
  }

  lemma PanicsExactly(raw: seq<Raw>, i: nat)
    requires i < |raw|
    ensures PairAt(raw, i).Err? <==> Panics(raw, i)
  {
  }

  /** The append loop of GetChangesFromLedgerEntryChanges; an Err is a panic. */
  method PairLoop(raw: seq<Raw>) returns (r: Result<seq<Change>, Panic>)
    ensures r == Pairs(raw, |raw|)
    ensures r.Err? <==> exists i :: 0 <= i < |raw| && Panics(raw, i)
  {
    hide PairAt, Panics;
    var changes: seq<Change> := [];
    for i := 0 to |raw|
      invariant Pairs(raw, i) == Ok(changes)
      invariant forall j :: 0 <= j < i ==> !Panics(raw, j)
    {
      var one := PairAt(raw, i);
      PanicsExactly(raw, i);
      if one.Err? {
        PanicSticks(raw, i + 1, |raw|);
        return Err(one.error);
      }
      changes := changes + one.value;
    }
    return Ok(changes);
  }

  lemma {:induction false} PanicSticks(raw: seq<Raw>, n: nat, m: nat)
    requires n <= m <= |raw| && Pairs(raw, n).Err?
    ensures Pairs(raw, m) == Pairs(raw, n)
    decreases m
  {
    if n < m { PanicSticks(raw, n, m - 1); }
  }

  /** Each update or removal follows the state (or restoration) of the same entry: the shape
      stellar-core promises for its meta. */
  ghost predicate Consistent(raw: seq<Raw>) {
    forall i :: 0 <= i < |raw| ==> ConsistentAt(raw, i)
  }

  predicate ConsistentAt(raw: seq<Raw>, i: nat)
    requires i < |raw|
  {
    match raw[i]
    case RawUpdated(e) => Previous(raw, i).Ok? && Previous(raw, i).value.key == e.key
    case RawRemoved(k) => Previous(raw, i).Ok? && Previous(raw, i).value.key == k
    case RawOther => false
    case _ => true
  }

  function ApplyRaw(store: Store, raw: Raw): (s: Store) {
    match raw
    case RawState(_) => store
    case RawRemoved(k) => store - {k}
    case RawOther => store
    case _ => store[raw.entry.key := raw.entry]
  }

  function ApplyRaws(store: Store, raw: seq<Raw>, n: nat): (s: Store)
    requires n <= |raw|
  {
    if n == 0 then store else ApplyRaw(ApplyRaws(store, raw, n - 1), raw[n - 1])
  }

  /** A change with exactly the entries its kind calls for, of one key. */
  predicate Proper(c: Change) {
    WellFormed(c) && !c.kind.State? && (c.kind.Created? || c.kind.Restored? ==> c.pre.None?)
  }

  ghost predicate AllProper(cs: seq<Change>) {
    forall i :: 0 <= i < |cs| ==> Proper(cs[i])
  }

  /** The pairs of a consistent list do what the list does. */
  lemma {:induction false} PairingKeepsMeaning(store: Store, raw: seq<Raw>, n: nat)
    requires n <= |raw| && Consistent(raw)
    ensures Pairs(raw, n).Ok? && AllProper(Pairs(raw, n).value)
    ensures ApplyAll(store, Pairs(raw, n).value) == ApplyRaws(store, raw, n)
  {
    hide PairAt, ConsistentAt, ApplyRaw, ApplyAll;
    if n == 0 {
      ApplyNothing(store);
    } else {
      PairingKeepsMeaning(store, raw, n - 1);
      assert ConsistentAt(raw, n - 1);
      PairAtKeepsMeaning(store, raw, n - 1, Pairs(raw, n - 1).value);
    }
  }

  lemma ApplyNothing(store: Store)
    ensures ApplyAll(store, []) == store
  {
  }

  lemma PairAtKeepsMeaning(store: Store, raw: seq<Raw>, i: nat, done: seq<Change>)
    requires i < |raw| && ConsistentAt(raw, i) && AllProper(done)
    ensures PairAt(raw, i).Ok? && AllProper(done + PairAt(raw, i).value)
    ensures ApplyAll(store, done + PairAt(raw, i).value) == ApplyRaw(ApplyAll(store, done), raw[i])
  {
    var one := PairAt(raw, i).value;
    var all := done + one;
    if one == [] {
      assert all == done;
    } else {
      assert all[..|all| - 1] == done;
    }
  }

  // ---------------------------------------------------------------- the order of keys

  /** bytes.Compare(a, b) < 0. */
  predicate Less(a: Bytes, b: Bytes)
    decreases |a|
  {
    if b == [] then false
    else if a == [] then true
    else a[0] < b[0] || (a[0] == b[0] && Less(a[1..], b[1..]))
  }

  /** `i` decides the comparison: the first index where the two differ, or the end of a proper prefix. */
  predicate Decides(a: Bytes, b: Bytes, i: nat) {
    && i <= |a| && i <= |b| && a[..i] == b[..i]
    && if i < |a| then i < |b| && a[i] < b[i] else i < |b|
  }

  lemma {:induction false} LessMeans(a: Bytes, b: Bytes)
    ensures Less(a, b) <==> exists i: nat :: Decides(a, b, i)
    decreases |a|
  {
    if a == [] || b == [] {
      assert Less(a, b) ==> Decides(a, b, 0);
    } else if a[0] == b[0] {
      LessMeans(a[1..], b[1..]);
      if i: nat :| Decides(a[1..], b[1..], i) {
        assert a[..i + 1] == [a[0]] + a[1..][..i] && b[..i + 1] == [b[0]] + b[1..][..i];
        assert Decides(a, b, i + 1);
      }
      if i: nat :| Decides(a, b, i) {
        assert a[1..][..i - 1] == a[..i][1..] && b[1..][..i - 1] == b[..i][1..];
        assert Decides(a[1..], b[1..], i - 1);
      }
    } else {
      if a[0] < b[0] { assert Decides(a, b, 0); }
      forall i: nat ensures Decides(a, b, i) ==> i == 0 {
        assert 0 < i <= |a| && i <= |b| ==> a[..i][0] == a[0] && b[..i][0] == b[0];
      }
    }
  }

  lemma {:induction false} LessTransitive(a: Bytes, b: Bytes, c: Bytes)
    requires !Less(b, a) && !Less(c, b)
    ensures !Less(c, a)
    decreases |a|
  {
    if a != [] && b != [] && c != [] && a[0] == b[0] == c[0] { LessTransitive(a[1..], b[1..], c[1..]); }
  }

  lemma {:induction false} LessTotal(a: Bytes, b: Bytes)
    ensures a == b ==> !Less(a, b)
    ensures a != b ==> (Less(a, b) <==> !Less(b, a))
    decreases |a|
  {
    if a != [] && b != [] && a[0] == b[0] {
      LessTotal(a[1..], b[1..]);
      assert a == [a[0]] + a[1..] && b == [b[0]] + b[1..];
    }
  }

  // ---------------------------------------------------------------- stable sorting

  predicate HasKey(c: Change) {
    c.pre.Some? || c.post.Some?
  }

  /** Change.LedgerKey: from Pre when there is one. */
  function ChangeKey(c: Change): (k: LedgerKey)
    requires HasKey(c)
  {
    if c.pre.Some? then c.pre.value.key else c.post.value.key
  }

  /** A change with the marshalled key it is sorted by. */
  datatype Item = Item(change: Change, key: Bytes)

  predicate Ordered(s: seq<Item>) {
    forall i, j :: 0 <= i < j < |s| ==> !Less(s[j].key, s[i].key)
  }

  /** The items with one key, in order. */
  function Only(s: seq<Item>, key: Bytes): (r: seq<Item>) {
    if s == [] then []
    else Only(s[..|s| - 1], key) + if s[|s| - 1].key == key then [s[|s| - 1]] else []
  }

  /** Same items, and those of each key in the same order. */
  ghost predicate SameByKey(a: seq<Item>, b: seq<Item>) {
    forall key :: Only(a, key) == Only(b, key)
  }

  ghost predicate StableSorted(before: seq<Item>, after: seq<Item>) {
    Ordered(after) && SameByKey(before, after)
  }

  lemma {:induction false} OnlyAppend(a: seq<Item>, b: seq<Item>, key: Bytes)
    ensures Only(a + b, key) == Only(a, key) + Only(b, key)
    decreases |b|
  {
    if b == [] {
      assert a + b == a;
    } else {
      var n := |b| - 1;
      assert (a + b)[..|a + b| - 1] == a + b[..n] && (a + b)[|a + b| - 1] == b[n];
      OnlyAppend(a, b[..n], key);
    }
  }

  lemma OnlyTwo(x: Item, y: Item, key: Bytes)
    ensures Only([x, y], key) == (if x.key == key then [x] else []) + (if y.key == key then [y] else [])
  {
    assert [x, y][..1] == [x] && [x][..0] == [];
    assert Only([x], key) == if x.key == key then [x] else [];
  }

  /** Exchanging neighbours with different keys keeps the order within each key. */
  lemma SwapKeepsOrder(s: seq<Item>, j: nat)
    requires 0 < j < |s| && s[j - 1].key != s[j].key
    ensures SameByKey(s, s[j - 1 := s[j]][j := s[j - 1]])
  {
    hide Only;
    var t := s[j - 1 := s[j]][j := s[j - 1]];
    var x, y, a, b := s[j - 1], s[j], s[..j - 1], s[j + 1..];
    assert s == a + [x, y] + b && t == a + [y, x] + b;
    forall key ensures Only(s, key) == Only(t, key) {
      OnlyAppend(a + [x, y], b, key);
      OnlyAppend(a + [y, x], b, key);
      OnlyAppend(a, [x, y], key);
      OnlyAppend(a, [y, x], key);
      OnlyTwo(x, y, key);
      OnlyTwo(y, x, key);
    }
  }

  /** sortableChanges: the two slices that Swap keeps in step. */
  class SortableChanges {
    const changes: array<Change>
    const keys: array<Bytes>

    ghost predicate Valid()
    {
      changes.Length == keys.Length
    }

    ghost function Items(): (s: seq<Item>)
      requires Valid()
      reads changes, keys
      ensures |s| == changes.Length && forall i :: 0 <= i < |s| ==> s[i] == Item(changes[i], keys[i])
    {
      seq(changes.Length, i requires 0 <= i < changes.Length reads changes, keys => Item(changes[i], keys[i]))
    }

    constructor (changes: array<Change>, marshal: LedgerKey -> Bytes)
      requires forall i :: 0 <= i < changes.Length ==> HasKey(changes[i])
      ensures Valid() && this.changes == changes && fresh(keys)
      ensures forall i :: 0 <= i < changes.Length ==> keys[i] == marshal(ChangeKey(changes[i]))
    {
      var ks := new Bytes[changes.Length];
      for i := 0 to changes.Length
        invariant forall j :: 0 <= j < i ==> ks[j] == marshal(ChangeKey(changes[j]))
      {
        ks[i] := marshal(ChangeKey(changes[i]));
      }
      this.changes := changes;
      keys := ks;
    }

    method Swap(i: nat, j: nat)
      requires Valid() && i < changes.Length && j < changes.Length
      modifies changes, keys
      ensures Items() == old(Items())[i := old(Items())[j]][j := old(Items())[i]]
    {
      changes[i], changes[j] := changes[j], changes[i];
      keys[i], keys[j] := keys[j], keys[i];
    }

    /** A stable sort through Less and Swap: insertion, which is what the standard library does on
        each block. StableSortUnique shows that every stable sort gives this result. */
    method Sort()
      requires Valid()
      modifies changes, keys
      ensures StableSorted(old(Items()), Items())
    {
      for i := 0 to changes.Length
        invariant Ordered(Items()[..i]) && SameByKey(old(Items()), Items())
      {
        Insert(i);
      }
      assert Items()[..changes.Length] == Items();
    }

    method Insert(i: nat)
      requires Valid() && i < changes.Length && Ordered(Items()[..i])
      modifies changes, keys
      ensures Ordered(Items()[..i + 1]) && SameByKey(old(Items()), Items())
    {
      hide Less, Only;
      var j := i;
      while j > 0 && Less(keys[j], keys[j - 1])
        invariant 0 <= j <= i && InsertGap(Items(), j, i) && SameByKey(old(Items()), Items())
      {
        ghost var s := Items();
        LessTotal(keys[j], keys[j - 1]);
        SwapKeepsOrder(s, j);
        GapMoves(s, j, i);
        Swap(j, j - 1);
        assert Items() == s[j - 1 := s[j]][j := s[j - 1]];
        j := j - 1;
      }
      GapCloses(Items(), j, i);
    }
  }

  /** Everything up to `i` but the item at `j` is ordered, and the items after it belong there. */
  ghost predicate InsertGap(s: seq<Item>, j: nat, i: nat) {
    && j <= i < |s|
    && (forall k, l :: 0 <= k < l <= i && k != j && l != j ==> !Less(s[l].key, s[k].key))
    && (forall l :: j < l <= i ==> !Less(s[l].key, s[j].key))
  }

  lemma GapMoves(s: seq<Item>, j: nat, i: nat)
    requires 0 < j && InsertGap(s, j, i) && Less(s[j].key, s[j - 1].key)
    ensures InsertGap(s[j - 1 := s[j]][j := s[j - 1]], j - 1, i)
  {
    LessTotal(s[j].key, s[j - 1].key);
  }

  lemma GapCloses(s: seq<Item>, j: nat, i: nat)
    requires InsertGap(s, j, i) && (j > 0 ==> !Less(s[j].key, s[j - 1].key))
    ensures Ordered(s[..i + 1])
  {
    forall k | 0 <= k < j ensures !Less(s[j].key, s[k].key) {
      if k < j - 1 { LessTransitive(s[k].key, s[j - 1].key, s[j].key); }
    }
  }

  // ---------------------------------------------------------------- what a stable sort is

  /** There is only one stably sorted rearrangement, so the algorithm does not matter. */
  lemma {:induction false} StableSortUnique(a: seq<Item>, b: seq<Item>)
    requires Ordered(a) && Ordered(b) && SameByKey(a, b)
    ensures a == b
    decreases |a|
  {
    if a == [] {
      EmptyByKey(b);
    } else if b == [] {
      SameByKeySymmetric(a, b);
      EmptyByKey(a);
    } else {
      var x, y := a[|a| - 1], b[|b| - 1];
      OnlyHas(a, b, |a| - 1);
      SameByKeySymmetric(a, b);
      OnlyHas(b, a, |b| - 1);
      LessTotal(x.key, y.key);
      assert x.key == y.key;
      LastOfKey(a, b);
      StableSortUnique(a[..|a| - 1], b[..|b| - 1]);
      assert a == a[..|a| - 1] + [x] && b == b[..|b| - 1] + [y];
    }
  }

  lemma SameByKeySymmetric(a: seq<Item>, b: seq<Item>)
    requires SameByKey(a, b)
    ensures SameByKey(b, a)
  {
  }

  lemma EmptyByKey(b: seq<Item>)
    requires SameByKey([], b)
    ensures b == []
  {
    if b != [] { LastIsThere(b); }
  }

  lemma LastIsThere(b: seq<Item>)
    requires b != []
    ensures Only(b, b[|b| - 1].key) != []
  {
  }

  lemma {:induction false} OnlyMember(s: seq<Item>, x: Item)
    ensures x in Only(s, x.key) <==> x in s
  {
    if s != [] {
      OnlyMember(s[..|s| - 1], x);
      assert s == s[..|s| - 1] + [s[|s| - 1]];
    }
  }

  /** An item of one is an item of the other. */
  lemma OnlyHas(a: seq<Item>, b: seq<Item>, i: nat)
    requires SameByKey(a, b) && i < |a|
    ensures exists j :: 0 <= j < |b| && b[j] == a[i]
  {
    assert Only(a, a[i].key) == Only(b, a[i].key);
    OnlyMember(a, a[i]);
    OnlyMember(b, a[i]);
  }

  lemma LastOfKey(a: seq<Item>, b: seq<Item>)
    requires a != [] && b != [] && SameByKey(a, b) && a[|a| - 1].key == b[|b| - 1].key
    ensures a[|a| - 1] == b[|b| - 1] && SameByKey(a[..|a| - 1], b[..|b| - 1])
  {
    var a', b', x, y := a[..|a| - 1], b[..|b| - 1], a[|a| - 1], b[|b| - 1];
    assert Only(a, x.key) == Only(b, x.key);
    assert Only(a', x.key) + [x] == Only(b', x.key) + [y];
    assert (Only(a', x.key) + [x])[|Only(a', x.key)|] == x;
    forall key ensures Only(a', key) == Only(b', key) {
      assert Only(a, key) == Only(b, key);
      if key == x.key {
        ConcatCancel(Only(a', key), [x], Only(b', key), [y]);
      } else {
        assert Only(a, key) == Only(a', key) && Only(b, key) == Only(b', key);
      }
    }
  }

  /** Nothing is lost or invented. */
  lemma {:induction false} CountInOnly(s: seq<Item>, x: Item)
    ensures multiset(Only(s, x.key))[x] == multiset(s)[x]
  {
    if s != [] {
      CountInOnly(s[..|s| - 1], x);
      assert s == s[..|s| - 1] + [s[|s| - 1]];
    }
  }

  lemma StableSortPermutes(a: seq<Item>, b: seq<Item>)
    requires SameByKey(a, b)
    ensures multiset(a) == multiset(b)
  {
    forall x: Item ensures multiset(a)[x] == multiset(b)[x] {
      assert Only(a, x.key) == Only(b, x.key);
      CountInOnly(a, x);
      CountInOnly(b, x);
    }
  }

  // ---------------------------------------------------------------- meaning

  ghost predicate AllProperItems(s: seq<Item>, marshal: LedgerKey -> Bytes) {
    forall i :: 0 <= i < |s| ==> ProperItem(s[i], marshal)
  }

  /** A usable change, carrying the marshalled form of its own key. */
  predicate ProperItem(x: Item, marshal: LedgerKey -> Bytes) {
    Proper(x.change) && x.key == marshal(KeyOf(x.change))
  }

  function ApplyItems(store: Store, s: seq<Item>, marshal: LedgerKey -> Bytes): (r: Store)
    requires AllProperItems(s, marshal)
  {
    if s == [] then store else ApplyOne(ApplyItems(store, s[..|s| - 1], marshal), s[|s| - 1].change)
  }

  lemma {:induction false} OnlyProper(s: seq<Item>, key: Bytes, marshal: LedgerKey -> Bytes)
    requires AllProperItems(s, marshal)
    ensures AllProperItems(Only(s, key), marshal)
  {
    hide ProperItem;
    if s != [] { OnlyProper(s[..|s| - 1], key, marshal); }
  }

  /** What a list does to a key is what its items with that key do. */
  lemma {:induction false} OnlyDecides(store: Store, s: seq<Item>, k: LedgerKey, marshal: LedgerKey -> Bytes)
    requires AllProperItems(s, marshal)
    ensures AllProperItems(Only(s, marshal(k)), marshal)
    ensures Get(ApplyItems(store, s, marshal), k) == Get(ApplyItems(store, Only(s, marshal(k)), marshal), k)
  {
    OnlyProper(s, marshal(k), marshal);
    if s != [] {
      var init, last := s[..|s| - 1], s[|s| - 1];
      OnlyDecides(store, init, k, marshal);
      assert ProperItem(last, marshal);
      var only := Only(s, marshal(k));
      if last.key == marshal(k) {
        assert only[..|only| - 1] == Only(init, marshal(k));
      } else {
        assert only == Only(init, marshal(k));
      }
    }
  }

  /** Changes to distinct keys commute, so sorting stably by key changes nothing. */
  lemma StableSortKeepsMeaning(store: Store, a: seq<Item>, b: seq<Item>, marshal: LedgerKey -> Bytes)
    requires AllProperItems(a, marshal) && AllProperItems(b, marshal) && SameByKey(a, b)
    ensures ApplyItems(store, a, marshal) == ApplyItems(store, b, marshal)
  {
    hide ApplyItems, Only, AllProperItems;
    var s, t := ApplyItems(store, a, marshal), ApplyItems(store, b, marshal);
    forall k ensures Get(s, k) == Get(t, k) {
      assert Only(a, marshal(k)) == Only(b, marshal(k));
      OnlyDecides(store, a, k, marshal);
      OnlyDecides(store, b, k, marshal);
    }
    SameGets(s, t);
  }

  lemma SameGets(s: Store, t: Store)
    requires forall k :: Get(s, k) == Get(t, k)
    ensures s == t
  {
    assert forall k :: k in s <==> Get(s, k).Some?;
    assert forall k :: k in t <==> Get(t, k).Some?;
    assert s.Keys == t.Keys;
    assert forall k :: k in s ==> Get(s, k) == Some(s[k]) && Get(t, k) == Some(t[k]);
  }

  // ---------------------------------------------------------------- both steps

  function Changes(s: seq<Item>): (cs: seq<Change>)
    ensures |cs| == |s| && forall i :: 0 <= i < |s| ==> cs[i] == s[i].change
  {
    seq(|s|, i requires 0 <= i < |s| => s[i].change)
  }

  lemma {:induction false} ApplyItemsIsApplyAll(store: Store, s: seq<Item>, marshal: LedgerKey -> Bytes)
    requires AllProperItems(s, marshal)
    ensures AllProper(Changes(s)) && ApplyAll(store, Changes(s)) == ApplyItems(store, s, marshal)
  {
    assert forall i :: 0 <= i < |s| ==> ProperItem(s[i], marshal);
    if s != [] {
      ApplyItemsIsApplyAll(store, s[..|s| - 1], marshal);
      assert Changes(s)[..|s| - 1] == Changes(s[..|s| - 1]);
    }
  }

  function WithKeys(cs: seq<Change>, marshal: LedgerKey -> Bytes): (s: seq<Item>)
    requires forall i :: 0 <= i < |cs| ==> HasKey(cs[i])
    ensures |s| == |cs| && forall i :: 0 <= i < |cs| ==> s[i] == Item(cs[i], marshal(ChangeKey(cs[i])))
  {
    seq(|cs|, i requires 0 <= i < |cs| => Item(cs[i], marshal(ChangeKey(cs[i]))))
  }

  lemma {:induction false} PairsHaveKeys(raw: seq<Raw>, n: nat)
    requires n <= |raw| && Pairs(raw, n).Ok?
    ensures forall i :: 0 <= i < |Pairs(raw, n).value| ==> HasKey(Pairs(raw, n).value[i])
  {
    if n > 0 { PairsHaveKeys(raw, n - 1); }
  }

  /** `out` is the stable sort of the pairs of `raw`. */
  ghost predicate Grouped(raw: seq<Raw>, out: seq<Change>, marshal: LedgerKey -> Bytes) {
    && Pairs(raw, |raw|).Ok?
    && var pairs := Pairs(raw, |raw|).value;
       && (forall i :: 0 <= i < |pairs| ==> HasKey(pairs[i]))
       && exists items :: StableSorted(WithKeys(pairs, marshal), items) && Changes(items) == out
  }

  method GetChangesFromLedgerEntryChanges(raw: seq<Raw>, marshal: LedgerKey -> Bytes)
      returns (r: Result<seq<Change>, Panic>)
    ensures r.Err? <==> exists i :: 0 <= i < |raw| && Panics(raw, i)
    ensures r.Ok? ==> Grouped(raw, r.value, marshal)
  {
    hide PairAt, Panics, StableSorted, HasKey, ChangeKey;
    var pairs := PairLoop(raw);
    if pairs.Err? { return Err(pairs.error); }
    PairsHaveKeys(raw, |raw|);
    var n := |pairs.value|;
    var changes := new Change[n](i requires 0 <= i < n => pairs.value[i]);
    var s := new SortableChanges(changes, marshal);
    assert s.Items() == WithKeys(pairs.value, marshal);
    s.Sort();
    assert Changes(s.Items()) == changes[..];
    return Ok(changes[..]);
  }

  /** Applying the result has the effect of applying the raw changes in order. */
  lemma GroupingKeepsMeaning(store: Store, raw: seq<Raw>, out: seq<Change>, marshal: LedgerKey -> Bytes)
    requires Consistent(raw) && Grouped(raw, out, marshal)
    ensures AllProper(out) && ApplyAll(store, out) == ApplyRaws(store, raw, |raw|)
  {
    hide ApplyAll, ApplyRaws, Pairs, Consistent, Only, Ordered, ApplyItems;
    PairingKeepsMeaning(store, raw, |raw|);
    var pairs := Pairs(raw, |raw|).value;
    var keyed := WithKeys(pairs, marshal);
    var items :| StableSorted(keyed, items) && Changes(items) == out;
    assert AllProperItems(keyed, marshal);
    assert Changes(keyed) == pairs;
    StableSortPermutes(keyed, items);
    ProperPermutes(keyed, items, marshal);
    StableSortKeepsMeaning(store, keyed, items, marshal);
    ApplyItemsIsApplyAll(store, keyed, marshal);
    ApplyItemsIsApplyAll(store, items, marshal);
  }

  lemma ProperPermutes(a: seq<Item>, b: seq<Item>, marshal: LedgerKey -> Bytes)
    requires AllProperItems(a, marshal) && multiset(a) == multiset(b)
    ensures AllProperItems(b, marshal)
  {
    hide ProperItem;
    forall i | 0 <= i < |b| ensures ProperItem(b[i], marshal) {
      assert b[i] in multiset(b);
      assert b[i] in multiset(a);
    }
  }

  /** The result is determined by the raw list: any two stable sorts return the same changes. */
  lemma GroupingUnique(raw: seq<Raw>, out: seq<Change>, out': seq<Change>, marshal: LedgerKey -> Bytes)
    requires Grouped(raw, out, marshal) && Grouped(raw, out', marshal)
    ensures out == out'
  {
    hide Only, Ordered, Pairs;
    var keyed := WithKeys(Pairs(raw, |raw|).value, marshal);
    var items :| StableSorted(keyed, items) && Changes(items) == out;
    var items' :| StableSorted(keyed, items') && Changes(items') == out';
    forall key ensures Only(items, key) == Only(items', key) {
      assert Only(keyed, key) == Only(items, key) && Only(keyed, key) == Only(items', key);
    }
    StableSortUnique(items, items');
  }

  // ---------------------------------------------------------------- legality

  /** Two ledgers agree on one key. */
  predicate Agree(l: Ledger, m: Ledger, k: LedgerKey) {
    && Get(l.live, k) == Get(m.live, k)
    && (k in l.archived <==> k in m.archived) && (k in l.touched <==> k in m.touched)
  }

  lemma AgreeStep(l: Ledger, m: Ledger, c: Change, k: LedgerKey)
    requires Agree(l, m, k) && Proper(c)
    ensures KeyOf(c) == k ==> (Legal(l, c) <==> Legal(m, c))
    ensures KeyOf(c) == k && Legal(l, c) ==> Agree(Exec(l, c), Exec(m, c), k)
    ensures KeyOf(c) != k && Legal(l, c) ==> Agree(Exec(l, c), m, k)
    ensures KeyOf(c) != k && Legal(l, c) && Legal(m, c) ==> Agree(Exec(l, c), Exec(m, c), k)
  {
  }

  lemma ChangesSnoc(s: seq<Item>, x: Item)
    ensures Changes(s + [x]) == Changes(s) + [x.change]
  {
  }

  lemma OnlySnoc(s: seq<Item>, x: Item, key: Bytes)
    ensures Only(s + [x], key) == if x.key == key then Only(s, key) + [x] else Only(s, key)
  {
    assert (s + [x])[..|s|] == s;
  }

  /** Every key's part of a list is a legal history of its own. */
  ghost predicate PartsLegal(l: Ledger, s: seq<Item>) {
    forall key :: LegalRun(l, Changes(Only(s, key)))
  }

  /** A legal list is legal key by key, and the part of a key decides the state of the key. */
  lemma {:induction false} LegalParts(l: Ledger, s: seq<Item>, marshal: LedgerKey -> Bytes)
    requires AllProperItems(s, marshal) && LegalRun(l, Changes(s))
    ensures PartsLegal(l, s)
    ensures forall k :: Agree(ExecAll(l, Changes(s)), ExecAll(l, Changes(Only(s, marshal(k)))), k)
    decreases |s|
  {
    hide LegalRun, ExecAll, Legal, Exec, Only, Changes, Agree;
    if s == [] {
      NoParts(l);
    } else {
      var init, x := s[..|s| - 1], s[|s| - 1];
      assert s == init + [x] && ProperItem(x, marshal);
      ChangesSnoc(init, x);
      LegalSnoc(l, Changes(init), x.change);
      LegalParts(l, init, marshal);
      var now := ExecAll(l, Changes(init));
      forall key ensures LegalRun(l, Changes(Only(s, key))) {
        assert LegalRun(l, Changes(Only(init, key)));
        LegalPart(l, now, init, x, key, marshal);
      }
      forall h ensures Agree(ExecAll(l, Changes(s)), ExecAll(l, Changes(Only(s, marshal(h)))), h) {
        var mine := Only(init, marshal(h));
        assert LegalRun(l, Changes(mine));
        LegalPart(l, now, init, x, marshal(h), marshal);
        AgreeStep(now, ExecAll(l, Changes(mine)), x.change, h);
        OnlySnoc(init, x, marshal(h));
        if x.key == marshal(h) {
          ChangesSnoc(mine, x);
          LegalSnoc(l, Changes(mine), x.change);
        }
      }
    }
  }

  lemma NoParts(l: Ledger)
    ensures PartsLegal(l, []) && Changes([]) == []
    ensures forall key :: Only([], key) == []
    ensures forall k :: Agree(l, l, k)
    ensures ExecAll(l, []) == l
  {
  }

  /** One more item keeps the part of its key legal. */
  lemma LegalPart(l: Ledger, now: Ledger, s: seq<Item>, x: Item, key: Bytes, marshal: LedgerKey -> Bytes)
    requires ProperItem(x, marshal) && LegalRun(l, Changes(Only(s, key)))
    requires x.key == key ==> Agree(now, ExecAll(l, Changes(Only(s, key))), KeyOf(x.change)) && Legal(now, x.change)
    ensures LegalRun(l, Changes(Only(s + [x], key)))
  {
    hide LegalRun, ExecAll, Legal, Exec, Only, Changes, Agree;
    OnlySnoc(s, x, key);
    if x.key == key {
      ChangesSnoc(Only(s, key), x);
      LegalSnoc(l, Changes(Only(s, key)), x.change);
      AgreeStep(now, ExecAll(l, Changes(Only(s, key))), x.change, KeyOf(x.change));
    }
  }

  /** A list that is legal key by key is legal. */
  lemma {:induction false} PartsMakeLegal(l: Ledger, s: seq<Item>, marshal: LedgerKey -> Bytes)
    requires AllProperItems(s, marshal) && PartsLegal(l, s)
    ensures LegalRun(l, Changes(s))
    decreases |s|
  {
    hide LegalRun, ExecAll, Legal, Exec, Only, Changes, Agree;
    if s == [] {
      EmptyLegal(l);
    } else {
      var init, x := s[..|s| - 1], s[|s| - 1];
      assert s == init + [x] && ProperItem(x, marshal);
      forall key ensures LegalRun(l, Changes(Only(init, key))) {
        assert LegalRun(l, Changes(Only(s, key)));
        OnlySnoc(init, x, key);
        if x.key == key {
          ChangesSnoc(Only(init, key), x);
          LegalSnoc(l, Changes(Only(init, key)), x.change);
        }
      }
      PartsMakeLegal(l, init, marshal);
      LegalParts(l, init, marshal);
      var k := KeyOf(x.change);
      var mine := Only(init, marshal(k));
      OnlySnoc(init, x, marshal(k));
      ChangesSnoc(mine, x);
      assert LegalRun(l, Changes(Only(s, marshal(k))));
      LegalSnoc(l, Changes(mine), x.change);
      AgreeStep(ExecAll(l, Changes(init)), ExecAll(l, Changes(mine)), x.change, k);
      ChangesSnoc(init, x);
      LegalSnoc(l, Changes(init), x.change);
    }
  }

  lemma EmptyLegal(l: Ledger)
    ensures LegalRun(l, Changes([]))
  {
  }

  /** A stable sort of a legal history is a legal history with the same outcome. */
  lemma StableSortKeepsHistory(l: Ledger, a: seq<Item>, b: seq<Item>, marshal: LedgerKey -> Bytes)
    requires AllProperItems(a, marshal) && AllProperItems(b, marshal) && SameByKey(a, b)
    requires LegalRun(l, Changes(a))
    ensures LegalRun(l, Changes(b)) && ExecAll(l, Changes(b)) == ExecAll(l, Changes(a))
  {
    hide LegalRun, ExecAll, Legal, Exec, Only, Changes, AllProperItems, Agree;
    LegalParts(l, a, marshal);
    forall key ensures LegalRun(l, Changes(Only(b, key))) {
      assert Only(a, key) == Only(b, key);
      assert LegalRun(l, Changes(Only(a, key)));
    }
    PartsMakeLegal(l, b, marshal);
    LegalParts(l, b, marshal);
    var x, y := ExecAll(l, Changes(a)), ExecAll(l, Changes(b));
    forall k ensures Agree(x, y, k) {
      assert Only(a, marshal(k)) == Only(b, marshal(k));
      AgreeTransitive(x, ExecAll(l, Changes(Only(a, marshal(k)))), y, k);
    }
    AgreeEverywhere(x, y);
  }

  lemma AgreeTransitive(x: Ledger, m: Ledger, y: Ledger, k: LedgerKey)
    requires Agree(x, m, k) && Agree(y, m, k)
    ensures Agree(x, y, k)
  {
  }

  lemma AgreeEverywhere(x: Ledger, y: Ledger)
    requires forall k :: Agree(x, y, k)
    ensures x == y
  {
    forall k ensures Get(x.live, k) == Get(y.live, k) {
      assert Agree(x, y, k);
    }
    SameGets(x.live, y.live);
    assert forall k :: k in x.archived <==> Agree(x, y, k) && k in y.archived;
    assert forall k :: k in x.touched <==> Agree(x, y, k) && k in y.touched;
    assert x.archived == y.archived && x.touched == y.touched;
  }

  /** The grouped changes of meta whose pairs are a legal history are themselves one, with the same
      outcome: the compactor accepts them wherever it accepts the pairs. */
  lemma GroupingKeepsHistory(l: Ledger, raw: seq<Raw>, out: seq<Change>, marshal: LedgerKey -> Bytes)
    requires Consistent(raw) && Grouped(raw, out, marshal) && LegalRun(l, Pairs(raw, |raw|).value)
    ensures LegalRun(l, out) && ExecAll(l, out) == ExecAll(l, Pairs(raw, |raw|).value)
  {
    hide LegalRun, ExecAll, Pairs, Consistent, Only, Ordered;
    PairingKeepsMeaning(map[], raw, |raw|);
    var pairs := Pairs(raw, |raw|).value;
    var keyed := WithKeys(pairs, marshal);
    var items :| StableSorted(keyed, items) && Changes(items) == out;
    assert AllProperItems(keyed, marshal);
    assert Changes(keyed) == pairs;
    StableSortPermutes(keyed, items);
    ProperPermutes(keyed, items, marshal);
    StableSortKeepsHistory(l, keyed, items, marshal);
  }
}
