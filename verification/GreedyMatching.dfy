/** Exactly when the greedy signature search cannot go wrong, whatever order signers and signatures
    come in. */
module GreedyMatching {
  import opened Common
  import opened Challenge

  // ---------------------------------------------------------------- orders

  ghost predicate SameMembers<T(!new)>(a: seq<T>, b: seq<T>) {
    Distinct(a) && forall x :: x in a <==> x in b
  }

  ghost predicate IsPermutation(perm: seq<nat>, n: nat) {
    |perm| == n && Distinct(perm) && forall j: nat :: j in perm <==> j < n
  }

  function Permuted(sigs: seq<Decorated>, perm: seq<nat>): (r: seq<Decorated>)
    requires forall i :: 0 <= i < |perm| ==> perm[i] < |sigs|
    ensures |r| == |perm| && forall i :: 0 <= i < |perm| ==> r[i] == sigs[perm[i]]
  {
    seq(|perm|, i requires 0 <= i < |perm| => sigs[perm[i]])
  }

  /** A permutation's entries are in range. */
  lemma PermutationBelow(perm: seq<nat>, n: nat)
    requires IsPermutation(perm, n)
    ensures forall i :: 0 <= i < |perm| ==> perm[i] < n
  {
    forall i | 0 <= i < |perm| ensures perm[i] < n {
      assert perm[i] in perm;
    }
  }

  /** Distinct elements of a list can be continued to an order of the whole list. */
  lemma {:induction false} Complete<T(!new)>(prefix: seq<T>, all: seq<T>) returns (order: seq<T>)
    requires Distinct(prefix) && forall x :: x in prefix ==> x in all
    ensures SameMembers(order, all) && prefix <= order
    decreases |ToSet(all) - ToSet(prefix)|
  {
    if x :| x in all && x !in prefix {
      var more := prefix + [x];
      assert Distinct(more);
      assert ToSet(all) - ToSet(more) == (ToSet(all) - ToSet(prefix)) - {x};
      assert x in ToSet(all) - ToSet(prefix);
      order := Complete(more, all);
    } else {
      order := prefix;
    }
  }

  // ---------------------------------------------------------------- signing elsewhere

  /** Every signer who fits signature `j` can be given another signature of its own. */
  ghost predicate Elsewhere(c: Crypto, hash: Bytes, signers: seq<Signer>, sigs: seq<Decorated>, j: nat)
    requires j < |sigs|
  {
    exists some: seq<Signer>, at: seq<nat> :: Placed(c, hash, signers, sigs, j, some, at)
  }

  ghost predicate Placed(c: Crypto, hash: Bytes, signers: seq<Signer>, sigs: seq<Decorated>, j: nat,
                         some: seq<Signer>, at: seq<nat>)
    requires j < |sigs|
  {
    && |some| == |at| && Distinct(some) && Distinct(at)
    && (forall s :: s in some <==> s in signers && Signs(c, hash, s, sigs[j]))
    && forall i :: 0 <= i < |at| ==> at[i] < |sigs| && at[i] != j && Signs(c, hash, some[i], sigs[at[i]])
  }

  /** In this order of signers and signatures the greedy search uses every signature. */
  ghost predicate UsesAll(c: Crypto, hash: Bytes, order: seq<Signer>, sigs: seq<Decorated>) {
    forall q: nat :: q < |sigs| ==> q in Used(Picks(c, hash, order, sigs, |order|))
  }

  /** In every order of the signers and of the signatures. */
  ghost predicate AlwaysUsesAll(c: Crypto, hash: Bytes, signers: seq<Signer>, sigs: seq<Decorated>) {
    forall order, perm ::
      SameMembers(order, signers) && IsPermutation(perm, |sigs|)
      ==> (PermutationBelow(perm, |sigs|); UsesAll(c, hash, order, Permuted(sigs, perm)))
  }

  // ---------------------------------------------------------------- a miss places all signers elsewhere

  /** Who picks what, the signers not fitting `j` left out. */
  lemma {:induction false} Gather(c: Crypto, hash: Bytes, order: seq<Signer>, sigs: seq<Decorated>, q: nat,
                                  p: seq<Option<nat>>, n: nat)
      returns (some: seq<Signer>, at: seq<nat>)
    requires Distinct(order) && |p| == |order| && n <= |p| && q < |sigs| && Injective(p)
    requires forall i :: 0 <= i < |p| && p[i].Some? ==>
               p[i].value < |sigs| && Signs(c, hash, order[i], sigs[p[i].value])
    requires forall i :: 0 <= i < |p| && Signs(c, hash, order[i], sigs[q]) ==> p[i].Some? && p[i] != Some(q)
    ensures |some| == |at| && Distinct(some) && Distinct(at)
    ensures forall s :: s in some <==> s in order[..n] && Signs(c, hash, s, sigs[q])
    ensures forall i :: 0 <= i < |at| ==>
              at[i] < |sigs| && at[i] != q && Signs(c, hash, some[i], sigs[at[i]]) && Some(at[i]) in p[..n]
  {
    hide Signs;
    if n == 0 {
      some, at := [], [];
    } else {
      some, at := Gather(c, hash, order, sigs, q, p, n - 1);
      assert order[..n] == order[..n - 1] + [order[n - 1]] && p[..n] == p[..n - 1] + [p[n - 1]];
      if Signs(c, hash, order[n - 1], sigs[q]) {
        assert order[n - 1] !in order[..n - 1];
        assert p[n - 1] !in p[..n - 1];
        some, at := some + [order[n - 1]], at + [p[n - 1].value];
      }
    }
  }

  /** A signature left over: all who fit it have consumed others. */
  lemma LeftOverPicks(c: Crypto, hash: Bytes, order: seq<Signer>, sigs: seq<Decorated>, q: nat, i: nat, n: nat)
    requires i < n <= |order| && q < |sigs| && Signs(c, hash, order[i], sigs[q])
    requires q !in Used(Picks(c, hash, order, sigs, n))
    ensures Picks(c, hash, order, sigs, n)[i].Some? && Picks(c, hash, order, sigs, n)[i] != Some(q)
    decreases n
  {
    hide Signs, Used, Picks, Matched, First;
    var before := Picks(c, hash, order, sigs, n - 1);
    PickSnoc(c, hash, order, sigs, n - 1);
    if i < n - 1 {
      LeftOverPicks(c, hash, order, sigs, q, i, n - 1);
    } else {
      assert q !in Used(before);
      FirstIsFirst(c, hash, order[i], sigs, Used(before), 0, q);
      assert First(c, hash, order[i], sigs, Used(before), 0) == Some(q) ==> q in Used(before + [Some(q)]);
    }
  }

  lemma PicksFit(c: Crypto, hash: Bytes, order: seq<Signer>, sigs: seq<Decorated>)
    ensures var p := Picks(c, hash, order, sigs, |order|);
            && Injective(p)
            && forall i :: 0 <= i < |p| && p[i].Some? ==>
                 p[i].value < |sigs| && Signs(c, hash, order[i], sigs[p[i].value])
  {
    hide Signs, Picks;
    PicksInjective(c, hash, order, sigs, |order|);
    PicksSign(c, hash, order, sigs, |order|);
  }

  /** If some order leaves signature `j` over, its signers can all sign elsewhere. */
  lemma MissIsElsewhere(c: Crypto, hash: Bytes, signers: seq<Signer>, sigs: seq<Decorated>, order: seq<Signer>,
                        perm: seq<nat>, q: nat)
    requires SameMembers(order, signers) && IsPermutation(perm, |sigs|) && q < |perm|
    requires forall i :: 0 <= i < |perm| ==> perm[i] < |sigs|
    requires q !in Used(Picks(c, hash, order, Permuted(sigs, perm), |order|))
    ensures Elsewhere(c, hash, signers, sigs, perm[q])
  {
    hide Signs, Picks, First;
    var mixed := Permuted(sigs, perm);
    var p := Picks(c, hash, order, mixed, |order|);
    PicksFit(c, hash, order, mixed);
    forall i | 0 <= i < |p| && Signs(c, hash, order[i], mixed[q]) ensures p[i].Some? && p[i] != Some(q) {
      LeftOverPicks(c, hash, order, mixed, q, i, |order|);
    }
    hide Used, Matched;
    var some, at := Gather(c, hash, order, mixed, q, p, |p|);
    assert order[..|p|] == order;
    var there := seq(|at|, i requires 0 <= i < |at| => perm[at[i]]);
    Renamed(c, hash, signers, sigs, order, perm, q, some, at, there);
  }

  lemma Renamed(c: Crypto, hash: Bytes, signers: seq<Signer>, sigs: seq<Decorated>, order: seq<Signer>,
                perm: seq<nat>, q: nat,
                some: seq<Signer>, at: seq<nat>, there: seq<nat>)
    requires SameMembers(order, signers) && IsPermutation(perm, |sigs|) && q < |perm|
    requires forall i :: 0 <= i < |perm| ==> perm[i] < |sigs|
    requires |some| == |at| == |there| && Distinct(some) && Distinct(at)
    requires forall s :: s in some <==> s in order && Signs(c, hash, s, sigs[perm[q]])
    requires forall i :: 0 <= i < |at| ==>
               at[i] < |perm| && at[i] != q && there[i] == perm[at[i]] && Signs(c, hash, some[i], sigs[there[i]])
    ensures Placed(c, hash, signers, sigs, perm[q], some, there)
  {
    hide Signs;
    forall i, k | 0 <= i < k < |there| ensures there[i] != there[k] {
      assert at[i] != at[k];
    }
  }

  // ---------------------------------------------------------------- an order that misses

  function FirstOnes(n: nat): (p: seq<Option<nat>>)
    ensures |p| == n && forall i :: 0 <= i < n ==> p[i] == Some(i)
  {
    seq(n, i => Some(i))
  }

  lemma UsedOnes(n: nat)
    ensures forall j: nat :: j in Used(FirstOnes(n)) <==> j < n
  {
    forall j: nat ensures Some(j) in FirstOnes(n) <==> j < n {
      if j < n { assert FirstOnes(n)[j] == Some(j); }
    }
  }

  /** With the placed signers and their signatures in front, each takes its own. */
  lemma {:induction false} PlacedPick(c: Crypto, hash: Bytes, order: seq<Signer>, sigs: seq<Decorated>, m: nat, n: nat)
    requires n <= m <= |order| && m <= |sigs|
    requires forall i :: 0 <= i < m ==> Signs(c, hash, order[i], sigs[i])
    ensures Picks(c, hash, order, sigs, n) == FirstOnes(n)
  {
    hide Signs, Picks, Matched, Used, First, FirstOnes;
    if n == 0 {
      NoPicks(c, hash, order, sigs);
    } else {
      PlacedPick(c, hash, order, sigs, m, n - 1);
      NextPlaced(c, hash, order, sigs, n - 1);
    }
  }

  lemma NoPicks(c: Crypto, hash: Bytes, order: seq<Signer>, sigs: seq<Decorated>)
    ensures Picks(c, hash, order, sigs, 0) == FirstOnes(0)
  {
  }

  lemma NextPlaced(c: Crypto, hash: Bytes, order: seq<Signer>, sigs: seq<Decorated>, k: nat)
    requires k < |order| && k < |sigs| && Signs(c, hash, order[k], sigs[k])
    requires Picks(c, hash, order, sigs, k) == FirstOnes(k)
    ensures Picks(c, hash, order, sigs, k + 1) == FirstOnes(k + 1)
  {
    hide Signs, Picks, Matched, Used, First, FirstOnes;
    PickSnoc(c, hash, order, sigs, k);
    UsedOnes(k);
    FirstAfter(c, hash, order[k], sigs, Used(FirstOnes(k)), k);
    OnesSnoc(k);
  }

  lemma OnesSnoc(k: nat)
    ensures FirstOnes(k + 1) == FirstOnes(k) + [Some(k)]
  {
  }

  lemma FirstAfter(c: Crypto, hash: Bytes, s: Signer, sigs: seq<Decorated>, used: set<nat>, k: nat)
    requires k < |sigs| && k !in used && Signs(c, hash, s, sigs[k]) && forall i: nat :: i < k ==> i in used
    ensures First(c, hash, s, sigs, used, 0) == Some(k)
  {
    hide Signs, First;
    FirstIsFirst(c, hash, s, sigs, used, 0, k);
  }

  lemma {:induction false} PicksStay(c: Crypto, hash: Bytes, order: seq<Signer>, sigs: seq<Decorated>, n: nat, m: nat)
    requires n <= m <= |order|
    ensures Picks(c, hash, order, sigs, n) <= Picks(c, hash, order, sigs, m)
    decreases m
  {
    hide First, Picks, Used, Matched, Signs;
    if n < m {
      PicksStay(c, hash, order, sigs, n, m - 1);
      PickSnoc(c, hash, order, sigs, m - 1);
    }
  }

  /** If all who fit signature `j` can sign elsewhere, some order leaves it over. */
  lemma ElsewhereIsMiss(c: Crypto, hash: Bytes, signers: seq<Signer>, sigs: seq<Decorated>, j: nat)
    requires j < |sigs| && Elsewhere(c, hash, signers, sigs, j)
    ensures !AlwaysUsesAll(c, hash, signers, sigs)
  {
    hide Signs, Picks, Used, Matched, First;
    var some, at :| Placed(c, hash, signers, sigs, j, some, at);
    var order := Complete(some, signers);
    forall x | x in at ensures x in Range(|sigs|) {
      assert Range(|sigs|)[x] == x;
    }
    var perm := Complete(at, Range(|sigs|));
    CompleteIsPermutation(perm, |sigs|);
    PermutationBelow(perm, |sigs|);
    var mixed, m := Permuted(sigs, perm), |some|;
    assert m <= |perm|;
    forall i | 0 <= i < m ensures Signs(c, hash, order[i], mixed[i]) {
      assert order[i] == some[i] && perm[i] == at[i];
    }
    PlacedPick(c, hash, order, mixed, m, m);
    PicksStay(c, hash, order, mixed, m, |order|);
    assert j in perm;
    var q :| 0 <= q < |perm| && perm[q] == j;
    NobodyPicks(c, hash, signers, sigs, j, some, at, order, mixed, q);
    assert !UsesAll(c, hash, order, mixed);
  }

  lemma CompleteIsPermutation(perm: seq<nat>, n: nat)
    requires SameMembers(perm, Range(n))
    ensures IsPermutation(perm, n)
  {
    forall j: nat ensures j in Range(n) <==> j < n {
      if j < n { assert Range(n)[j] == j; }
    }
    DistinctSize(perm);
    assert ToSet(perm) == Upto(n);
    UptoSize(n);
  }

  /** The signature left over: its signers stand in front and take their own. */
  lemma NobodyPicks(c: Crypto, hash: Bytes, signers: seq<Signer>, sigs: seq<Decorated>, j: nat, some: seq<Signer>,
                    at: seq<nat>,
                    order: seq<Signer>, mixed: seq<Decorated>, q: nat)
    requires j < |sigs| && Placed(c, hash, signers, sigs, j, some, at) && SameMembers(order, signers) && some <= order
    requires q < |mixed| && mixed[q] == sigs[j] && |some| <= |mixed|
    requires |some| <= q
    requires forall i :: 0 <= i < |some| ==> Picks(c, hash, order, mixed, |order|)[i] == Some(i)
    ensures q !in Used(Picks(c, hash, order, mixed, |order|))
  {
    hide Signs, Picks, First;
    PicksFit(c, hash, order, mixed);
    forall i | |some| <= i < |order| ensures !Signs(c, hash, order[i], sigs[j]) {
      assert forall k :: 0 <= k < |some| ==> some[k] == order[k] && order[k] != order[i];
      assert order[i] !in some;
      assert order[i] in order;
    }
  }

  /** The greedy search uses every signature in every order of signers and signatures, if and only if
      there is no signature whose signers could all sign elsewhere. */
  lemma AlwaysUsesAllExactly(c: Crypto, hash: Bytes, signers: seq<Signer>, sigs: seq<Decorated>)
    ensures AlwaysUsesAll(c, hash, signers, sigs)
       <==> forall j: nat :: j < |sigs| ==> !Elsewhere(c, hash, signers, sigs, j)
  {
    hide UsesAll, Elsewhere;
    if forall j: nat :: j < |sigs| ==> !Elsewhere(c, hash, signers, sigs, j) {
      forall order, perm | SameMembers(order, signers) && IsPermutation(perm, |sigs|)
        ensures (PermutationBelow(perm, |sigs|); UsesAll(c, hash, order, Permuted(sigs, perm)))
      {
        PermutationBelow(perm, |sigs|);
        NoMiss(c, hash, signers, sigs, order, perm);
      }
    }
    if j: nat :| j < |sigs| && Elsewhere(c, hash, signers, sigs, j) {
      ElsewhereIsMiss(c, hash, signers, sigs, j);
    }
  }

  lemma NoMiss(c: Crypto, hash: Bytes, signers: seq<Signer>, sigs: seq<Decorated>, order: seq<Signer>, perm: seq<nat>)
    requires SameMembers(order, signers) && IsPermutation(perm, |sigs|)
    requires forall i :: 0 <= i < |perm| ==> perm[i] < |sigs|
    requires forall j: nat :: j < |sigs| ==> !Elsewhere(c, hash, signers, sigs, j)
    ensures UsesAll(c, hash, order, Permuted(sigs, perm))
  {
    hide Elsewhere;
    forall q: nat | q < |perm| ensures q in Used(Picks(c, hash, order, Permuted(sigs, perm), |order|)) {
      if q !in Used(Picks(c, hash, order, Permuted(sigs, perm), |order|)) {
        MissIsElsewhere(c, hash, signers, sigs, order, perm, q);
      }
    }
  }
}
