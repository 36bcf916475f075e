/** Signature matching for SEP-10 challenges: every signature on the challenge must be consumed by
    the server or by one of the given client signers, each at most once. */
module Challenge {
  import opened Common
  import opened StrKey

  /** The checksum of StrKey and ed25519 verification (key, message, signature), both arbitrary. */
  datatype Crypto = Crypto(crc: Checksum, verify: (Bytes, Bytes, Bytes) -> bool)

  type Signer = Bytes

  datatype Decorated = Decorated(hint: Bytes, signature: Bytes)

  /** What reading the challenge leaves: its hash, None when hashing fails, and its signatures. */
  datatype Tx = Tx(hash: Option<Bytes>, signatures: seq<Decorated>)

  datatype Failure =
    | Unreadable
    | HashFailed
    | NotAddress
    | NoVerifiableSigners
    | NotSignedByServer
    | NotSignedByClient
    | Unrecognized(found: seq<Signer>)
    | BelowThreshold(weight: int)

  /** keypair.ParseAddress: the public key of a G... address. */
  function Parse(c: Crypto, s: Signer): (key: Option<Bytes>)
    ensures key.Some? ==> |key.value| == 32
  {
    match Decode(c.crc, ACCOUNT, s)
    case Ok(key) => Some(key)
    case Err(_) => None
  }

  /** The hint and the signature both fit the key. */
  predicate Fits(c: Crypto, hash: Bytes, key: Bytes, d: Decorated) {
    |key| == 32 && d.hint == key[28..] && |d.signature| == 64 && c.verify(key, hash, d.signature)
  }

  predicate Signs(c: Crypto, hash: Bytes, s: Signer, d: Decorated) {
    var key := Parse(c, s);
    key.Some? && Fits(c, hash, key.value, d)
  }

  // ---------------------------------------------------------------- greedy matching

  predicate Free(c: Crypto, hash: Bytes, s: Signer, sigs: seq<Decorated>, used: set<nat>, k: nat)
    requires k < |sigs|
  {
    k !in used && Signs(c, hash, s, sigs[k])
  }

  /** The first signature from `j` on that is unused and fits. */
  function First(c: Crypto, hash: Bytes, s: Signer, sigs: seq<Decorated>, used: set<nat>, j: nat): (r: Option<nat>)
    requires j <= |sigs|
    ensures r.Some? ==> j <= r.value < |sigs| && Free(c, hash, s, sigs, used, r.value)
    decreases |sigs| - j
  {
    hide Free;
    if j == |sigs| then None
    else if Free(c, hash, s, sigs, used, j) then Some(j)
    else First(c, hash, s, sigs, used, j + 1)
  }

  lemma {:induction false} FirstIsFirst(c: Crypto, hash: Bytes, s: Signer, sigs: seq<Decorated>, used: set<nat>,
                                        j: nat, k: nat)
    requires j <= k < |sigs| && Free(c, hash, s, sigs, used, k)
    ensures First(c, hash, s, sigs, used, j).Some? && First(c, hash, s, sigs, used, j).value <= k
    decreases k - j
  {
    hide Free;
    if j < k && !Free(c, hash, s, sigs, used, j) {
      FirstIsFirst(c, hash, s, sigs, used, j + 1, k);
    }
  }

  /** The signature each of the first `n` signers consumes, in turn. */
  function Picks(c: Crypto, hash: Bytes, signers: seq<Signer>, sigs: seq<Decorated>, n: nat): (p: seq<Option<nat>>)
    requires n <= |signers|
    ensures |p| == n
  {
    if n == 0 then []
    else
      var before := Picks(c, hash, signers, sigs, n - 1);
      before + [First(c, hash, signers[n - 1], sigs, Used(before), 0)]
  }

  function Used(p: seq<Option<nat>>): (used: set<nat>)
    ensures forall j :: j in used <==> Some(j) in p
  {
    if p == [] then {}
    else Used(p[..|p| - 1]) + match p[|p| - 1] { case None => {} case Some(j) => {j} }
  }

  /** The signers that consumed a signature. */
  function Matched(signers: seq<Signer>, p: seq<Option<nat>>): (found: set<Signer>)
    requires |p| <= |signers|
    ensures forall s :: s in found <==> exists i :: 0 <= i < |p| && signers[i] == s && p[i].Some?
  {
    set i | 0 <= i < |p| && p[i].Some? :: signers[i]
  }

  /** The found signers, each once, in the order of the list. */
  function Listed(signers: seq<Signer>, found: set<Signer>, n: nat): (r: seq<Signer>)
    requires n <= |signers|
    ensures forall s :: s in r <==> s in found && s in signers[..n]
    ensures forall i, j :: 0 <= i < j < |r| ==> r[i] != r[j]
  {
    if n == 0 then []
    else
      var before := Listed(signers, found, n - 1);
      assert signers[..n] == signers[..n - 1] + [signers[n - 1]];
      if signers[n - 1] in found && signers[n - 1] !in signers[..n - 1] then before + [signers[n - 1]] else before
  }

  function VerifyTxSignatures(c: Crypto, tx: Tx, signers: seq<Signer>): (r: Result<seq<Signer>, Failure>) {
    if tx.hash.None? then Err(HashFailed)
    else if exists s :: s in signers && Parse(c, s).None? then Err(NotAddress)
    else
      var p := Picks(c, tx.hash.value, signers, tx.signatures, |signers|);
      Ok(Listed(signers, Matched(signers, p), |signers|))
  }

  /** verifyTxSignatures, its three loops in three methods. */
  method FindSigners(c: Crypto, tx: Tx, signers: seq<Signer>) returns (r: Result<seq<Signer>, Failure>)
    ensures r == VerifyTxSignatures(c, tx, signers)
  {
    if tx.hash.None? { return Err(HashFailed); }
    var found := MatchSigners(c, tx.hash.value, tx.signatures, signers);
    if found.None? { return Err(NotAddress); }
    var list := ListFound(signers, found.value);
    return Ok(list);
  }

  method MatchSigners(c: Crypto, hash: Bytes, sigs: seq<Decorated>, signers: seq<Signer>)
      returns (r: Option<set<Signer>>)
    ensures r.None? <==> exists s :: s in signers && Parse(c, s).None?
    ensures r.Some? ==> r.value == Matched(signers, Picks(c, hash, signers, sigs, |signers|))
  {
    hide Signs, Parse, Used, Matched, Picks, First;
    var used: set<nat>, found: set<Signer> := {}, {};
    NothingPicked(c, hash, signers, sigs);
    for i := 0 to |signers|
      invariant forall k :: 0 <= k < i ==> Parse(c, signers[k]).Some?
      invariant used == Used(Picks(c, hash, signers, sigs, i))
      invariant found == Matched(signers, Picks(c, hash, signers, sigs, i))
    {
      if Parse(c, signers[i]).None? { return None; }
      PickSnoc(c, hash, signers, sigs, i);
      var j := Consume(c, hash, signers[i], sigs, used);
      if j.Some? {
        used := used + {j.value};
        found := found + {signers[i]};
      }
    }
    return Some(found);
  }

  lemma NothingPicked(c: Crypto, hash: Bytes, signers: seq<Signer>, sigs: seq<Decorated>)
    ensures Used(Picks(c, hash, signers, sigs, 0)) == {} && Matched(signers, Picks(c, hash, signers, sigs, 0)) == {}
  {
    NothingMatched(signers);
  }

  /** One more signer picks the first unused signature that fits. */
  lemma PickSnoc(c: Crypto, hash: Bytes, signers: seq<Signer>, sigs: seq<Decorated>, i: nat)
    requires i < |signers|
    ensures var p := Picks(c, hash, signers, sigs, i);
            var j := First(c, hash, signers[i], sigs, Used(p), 0);
            && Picks(c, hash, signers, sigs, i + 1) == p + [j]
            && Used(p + [j]) == (if j.Some? then Used(p) + {j.value} else Used(p))
            && Matched(signers, p + [j]) == (if j.Some? then Matched(signers, p) + {signers[i]}
                                               else Matched(signers, p))
  {
    hide Used, Matched, First;
    var p := Picks(c, hash, signers, sigs, i);
    var j := First(c, hash, signers[i], sigs, Used(p), 0);
    MatchedSnoc(signers, p, j);
    UsedSnoc(p, j);
  }

  /** Whoever picks a signature fits it. */
  lemma {:induction false} PicksSign(c: Crypto, hash: Bytes, signers: seq<Signer>, sigs: seq<Decorated>, n: nat)
    requires n <= |signers|
    ensures var p := Picks(c, hash, signers, sigs, n);
            forall i :: 0 <= i < n && p[i].Some? ==> FitsPick(c, hash, signers[i], sigs, p[i].value)
  {
    hide Signs, First, Picks, Used, Matched;
    if n > 0 {
      PicksSign(c, hash, signers, sigs, n - 1);
      PickSnoc(c, hash, signers, sigs, n - 1);
    }
  }

  predicate FitsPick(c: Crypto, hash: Bytes, s: Signer, sigs: seq<Decorated>, j: nat) {
    j < |sigs| && Signs(c, hash, s, sigs[j])
  }

  lemma NothingMatched(signers: seq<Signer>)
    ensures Used([]) == {} && Matched(signers, []) == {}
  {
  }

  method Consume(c: Crypto, hash: Bytes, s: Signer, sigs: seq<Decorated>, used: set<nat>) returns (r: Option<nat>)
    ensures r == First(c, hash, s, sigs, used, 0)
  {
    hide Signs, Parse;
    for j := 0 to |sigs|
      invariant First(c, hash, s, sigs, used, j) == First(c, hash, s, sigs, used, 0)
    {
      if Free(c, hash, s, sigs, used, j) { return Some(j); }
    }
    return None;
  }

  method ListFound(signers: seq<Signer>, all: set<Signer>) returns (list: seq<Signer>)
    ensures list == Listed(signers, all, |signers|)
  {
    var found := all;
    list := [];
    for i := 0 to |signers|
      invariant list == Listed(signers, all, i)
      invariant found == all - set s | s in signers[..i]
    {
      assert signers[..i + 1] == signers[..i] + [signers[i]];
      if signers[i] in found {
        list := list + [signers[i]];
        found := found - {signers[i]};
      }
    }
  }

  lemma UsedSnoc(p: seq<Option<nat>>, x: Option<nat>)
    ensures Used(p + [x]) == Used(p) + if x.Some? then {x.value} else {}
  {
    assert (p + [x])[..|p|] == p;
  }

  lemma MatchedSnoc(signers: seq<Signer>, p: seq<Option<nat>>, x: Option<nat>)
    requires |p| < |signers|
    ensures Matched(signers, p + [x]) == Matched(signers, p) + if x.Some? then {signers[|p|]} else {}
  {
    var q := p + [x];
    forall s ensures s in Matched(signers, q) <==> s in Matched(signers, p) + if x.Some? then {signers[|p|]} else {} {
      if i :| 0 <= i < |q| && signers[i] == s && q[i].Some? {
        assert i < |p| ==> p[i] == q[i];
      }
      if i :| 0 <= i < |p| && signers[i] == s && p[i].Some? {
        assert q[i] == p[i];
      }
      assert q[|p|] == x;
    }
  }

  // ---------------------------------------------------------------- verifying signers

  /** A client signer worth checking: not the server, and with the version byte of an address. */
  predicate Verifiable(server: Signer, s: Signer) {
    s != server && DecodeString(s).Ok? && DecodeString(s).value[0] == ACCOUNT
  }

  /** Of the keys other than the server's, exactly the account ids are consulted; the version byte of an
      account id is 6 in the five high bits. Every address is one. */
  lemma AddressesAreConsulted(c: Crypto, server: Signer, s: Signer, v: byte, p: Bytes)
    requires s != server && DecodeAny(c.crc, s) == Ok((v, p))
    ensures Verifiable(server, s) <==> v == 48
    ensures Verifiable(server, s) <==> Parse(c, s).Some?
  {
    hide DecodeString, CheckPayloadLength;
  }

  /** The client signers, each once. */
  function Clients(server: Signer, signers: seq<Signer>, n: nat): (r: seq<Signer>)
    requires n <= |signers|
    ensures forall s :: s in r <==> s in signers[..n] && Verifiable(server, s)
    ensures forall i, j :: 0 <= i < j < |r| ==> r[i] != r[j]
  {
    hide Verifiable;
    if n == 0 then []
    else
      var before := Clients(server, signers, n - 1);
      assert signers[..n] == signers[..n - 1] + [signers[n - 1]];
      assert forall s :: s in signers[..n] <==> s in signers[..n - 1] || s == signers[n - 1];
      if Verifiable(server, signers[n - 1]) && signers[n - 1] !in before then before + [signers[n - 1]] else before
  }

  function Without(list: seq<Signer>, s: Signer): (r: seq<Signer>)
    ensures s !in list ==> r == list
    ensures forall x :: x in r <==> x in list && x != s
  {
    if list == [] then []
    else
      var init, last := list[..|list| - 1], list[|list| - 1];
      assert list == init + [last];
      if last == s then Without(init, s) else Without(init, s) + [last]
  }

  function VerifySigners(c: Crypto, tx: Option<Tx>, server: Signer, signers: seq<Signer>): 
      (r: Result<seq<Signer>, Failure>)
  {
    if tx.None? then Err(Unreadable)
    else if Parse(c, server).None? then Err(NotAddress)
    else
      var clients := Clients(server, signers, |signers|);
      if clients == [] then Err(NoVerifiableSigners)
      else
        var all :- VerifyTxSignatures(c, tx.value, [server] + clients);
        var found := Without(all, server);
        if server !in all then Err(NotSignedByServer)
        else if found == [] then Err(NotSignedByClient)
        else if |all| != |tx.value.signatures| then Err(Unrecognized(found))
        else Ok(found)
  }

  /** VerifyChallengeTxSigners; `tx` is None when ReadChallengeTx refuses the challenge. */
  method VerifyChallengeTxSigners(c: Crypto, tx: Option<Tx>, server: Signer, signers: seq<Signer>)
      returns (r: Result<seq<Signer>, Failure>)
    ensures r == VerifySigners(c, tx, server, signers)
  {
    hide Parse, Verifiable, VerifyTxSignatures;
    if tx.None? { return Err(Unreadable); }
    if Parse(c, server).None? { return Err(NotAddress); }
    var clients := Deduplicate(server, signers);
    if clients == [] { return Err(NoVerifiableSigners); }
    var verified := FindSigners(c, tx.value, [server] + clients);
    if verified.Err? { return Err(verified.error); }
    var all := verified.value;
    var found, serverFound := RemoveServer(all, server);
    if !serverFound { return Err(NotSignedByServer); }
    if found == [] { return Err(NotSignedByClient); }
    if |all| != |tx.value.signatures| { return Err(Unrecognized(found)); }
    return Ok(found);
  }

  method Deduplicate(server: Signer, signers: seq<Signer>) returns (clients: seq<Signer>)
    ensures clients == Clients(server, signers, |signers|)
  {
    hide Verifiable;
    clients := [];
    var seen: set<Signer> := {};
    for i := 0 to |signers|
      invariant clients == Clients(server, signers, i) && forall s :: s in seen <==> s in clients
    {
      if Verifiable(server, signers[i]) && signers[i] !in seen {
        clients := clients + [signers[i]];
        seen := seen + {signers[i]};
      }
    }
  }

  method RemoveServer(all: seq<Signer>, server: Signer) returns (found: seq<Signer>, serverFound: bool)
    ensures found == Without(all, server) && (serverFound <==> server in all)
  {
    found, serverFound := [], false;
    for i := 0 to |all|
      invariant found == Without(all[..i], server) && (serverFound <==> server in all[..i])
    {
      assert all[..i + 1] == all[..i] + [all[i]] && all[..i + 1][..i] == all[..i];
      if all[i] == server {
        serverFound := true;
      } else {
        found := found + [all[i]];
      }
    }
    assert all[..|all|] == all;
  }

  // ---------------------------------------------------------------- counting

  ghost predicate Distinct<T(!new)>(s: seq<T>) {
    forall i, j :: 0 <= i < j < |s| ==> s[i] != s[j]
  }

  ghost function ToSet<T>(s: seq<T>): (r: set<T>) {
    set x | x in s
  }

  lemma {:induction false} DistinctSize<T(!new)>(s: seq<T>)
    requires Distinct(s)
    ensures |ToSet(s)| == |s|
  {
    if s != [] {
      var init, last := s[..|s| - 1], s[|s| - 1];
      DistinctSize(init);
      assert s == init + [last];
      assert ToSet(s) == ToSet(init) + {last};
    }
  }

  lemma SameSize<T>(a: set<T>, b: set<T>)
    requires a <= b && |a| == |b|
    ensures a == b
  {
    assert b == a + (b - a);
    assert |b - a| == 0;
  }

  ghost function Range(n: nat): (r: seq<nat>)
    ensures |r| == n && forall j :: 0 <= j < n ==> r[j] == j
  {
    seq(n, j => j)
  }

  ghost function Upto(n: nat): (r: set<nat>)
    ensures forall j: nat :: j in r <==> j < n
  {
    forall j: nat | j < n ensures j in Range(n) {
      assert Range(n)[j] == j;
    }
    ToSet(Range(n))
  }

  lemma UptoSize(n: nat)
    ensures |Upto(n)| == n
  {
    DistinctSize(Range(n));
  }

  // ---------------------------------------------------------------- matching facts

  /** No signature is consumed twice. */
  lemma {:induction false} PicksInjective(c: Crypto, hash: Bytes, signers: seq<Signer>, sigs: seq<Decorated>, n: nat)
    requires n <= |signers|
    ensures Injective(Picks(c, hash, signers, sigs, n))
  {
    hide Signs, Picks, Used, Matched, First;
    if n == 0 {
      NothingPicked(c, hash, signers, sigs);
    } else {
      PicksInjective(c, hash, signers, sigs, n - 1);
      PickSnoc(c, hash, signers, sigs, n - 1);
      var before := Picks(c, hash, signers, sigs, n - 1);
      InjectiveSnoc(before, First(c, hash, signers[n - 1], sigs, Used(before), 0));
    }
  }

  lemma InjectiveSnoc(p: seq<Option<nat>>, x: Option<nat>)
    requires Injective(p) && (x.Some? ==> x.value !in Used(p))
    ensures Injective(p + [x])
  {
    hide Used;
    forall i | 0 <= i < |p| && p[i].Some? ensures p[i] != x {
      assert p[i] in p;
    }
  }

  ghost predicate Injective(p: seq<Option<nat>>) {
    forall i, k :: 0 <= i < k < |p| && p[i].Some? ==> p[i] != p[k]
  }

  /** As many signatures are used as signers matched. */
  lemma {:induction false} UsedPerSigner(signers: seq<Signer>, p: seq<Option<nat>>)
    requires |p| <= |signers| && Distinct(signers) && Injective(p)
    ensures |Used(p)| == |Matched(signers, p)|
  {
    hide Used, Matched;
    NothingMatched(signers);
    if p != [] {
      var init, last := p[..|p| - 1], p[|p| - 1];
      assert p == init + [last];
      UsedPerSigner(signers, init);
      UsedSnoc(init, last);
      MatchedSnoc(signers, init, last);
      if last.Some? {
        NewOnes(signers, init, last);
      }
    } else {
      assert p == [];
    }
  }

  lemma NewOnes(signers: seq<Signer>, p: seq<Option<nat>>, x: Option<nat>)
    requires |p| < |signers| && Distinct(signers) && Injective(p + [x]) && x.Some?
    ensures x.value !in Used(p) && signers[|p|] !in Matched(signers, p)
  {
    var q := p + [x];
    assert q[|p|] == x && forall i :: 0 <= i < |p| ==> q[i] == p[i];
  }

  /** The list of found signers has the size of the set. */
  lemma ListedSize(signers: seq<Signer>, found: set<Signer>)
    requires forall s :: s in found ==> s in signers
    ensures |Listed(signers, found, |signers|)| == |found|
  {
    var list := Listed(signers, found, |signers|);
    assert signers[..|signers|] == signers;
    DistinctSize(list);
    assert ToSet(list) == found;
  }

  // ---------------------------------------------------------------- what success means

  /** `owner[j]` made signature `j`, and no owner made two. */
  ghost predicate Accounts(c: Crypto, tx: Tx, owner: seq<Signer>) {
    && tx.hash.Some? && |owner| == |tx.signatures| && Distinct(owner)
    && forall j :: 0 <= j < |owner| ==> Signs(c, tx.hash.value, owner[j], tx.signatures[j])
  }

  /** If as many signers are found as there are signatures, every signature is used. */
  lemma AllUsed(c: Crypto, hash: Bytes, signers: seq<Signer>, sigs: seq<Decorated>)
    requires Distinct(signers)
    requires |Matched(signers, Picks(c, hash, signers, sigs, |signers|))| == |sigs|
    ensures Used(Picks(c, hash, signers, sigs, |signers|)) == Upto(|sigs|)
  {
    hide Signs, First, Matched, Picks;
    var p := Picks(c, hash, signers, sigs, |signers|);
    PicksInjective(c, hash, signers, sigs, |signers|);
    PicksSign(c, hash, signers, sigs, |signers|);
    UsedPerSigner(signers, p);
    forall j | j in Used(p) ensures j in Upto(|sigs|) {
      var i :| 0 <= i < |p| && p[i] == Some(j);
    }
    UptoSize(|sigs|);
    SameSize(Used(p), Upto(|sigs|));
  }

  /** Then every signature has its own signer. */
  lemma AllConsumed(c: Crypto, tx: Tx, signers: seq<Signer>) returns (owner: seq<Signer>)
    requires tx.hash.Some? && Distinct(signers)
    requires |Matched(signers, Picks(c, tx.hash.value, signers, tx.signatures, |signers|))| == |tx.signatures|
    ensures Accounts(c, tx, owner)
    ensures ToSet(owner) == Matched(signers, Picks(c, tx.hash.value, signers, tx.signatures, |signers|))
  {
    hide Signs, Picks, Matched;
    var p := Picks(c, tx.hash.value, signers, tx.signatures, |signers|);
    PicksInjective(c, tx.hash.value, signers, tx.signatures, |signers|);
    PicksSign(c, tx.hash.value, signers, tx.signatures, |signers|);
    AllUsed(c, tx.hash.value, signers, tx.signatures);
    var at := Inverse(p, |tx.signatures|);
    owner := seq(|at|, j requires 0 <= j < |at| => signers[at[j]]);
    OwnersAreMatched(signers, p, at, owner);
  }

  lemma Inverse(p: seq<Option<nat>>, m: nat) returns (at: seq<nat>)
    requires Used(p) == Upto(m)
    ensures |at| == m && forall j :: 0 <= j < m ==> at[j] < |p| && p[at[j]] == Some(j)
  {
    hide Used;
    at := [];
    while |at| < m
      invariant |at| <= m && forall j :: 0 <= j < |at| ==> at[j] < |p| && p[at[j]] == Some(j)
    {
      assert |at| in Upto(m);
      var i :| 0 <= i < |p| && p[i] == Some(|at|);
      at := at + [i];
    }
  }

  lemma OwnersAreMatched(signers: seq<Signer>, p: seq<Option<nat>>, at: seq<nat>, owner: seq<Signer>)
    requires |p| == |signers| && Distinct(signers) && Injective(p) && |owner| == |at|
    requires forall j :: 0 <= j < |at| ==> at[j] < |p| && p[at[j]] == Some(j) && owner[j] == signers[at[j]]
    requires forall i :: 0 <= i < |p| && p[i].Some? ==> p[i].value < |at|
    ensures Distinct(owner) && ToSet(owner) == Matched(signers, p)
  {
    forall i, j | 0 <= i < j < |owner| ensures owner[i] != owner[j] {
      assert p[at[i]] != p[at[j]];
    }
    forall s | s in Matched(signers, p) ensures s in owner {
      var i :| 0 <= i < |p| && signers[i] == s && p[i].Some?;
      var j := p[i].value;
      assert p[at[j]] == p[i];
      assert at[j] == i;
      assert owner[j] == s;
    }
  }

  /** A successful verification accounts for every signature: they are in bijection with the server
      and the returned signers, which are distinct, given by the caller, and never the server. */
  lemma SuccessAccountsForAll(c: Crypto, tx: Tx, server: Signer, signers: seq<Signer>, found: seq<Signer>)
      returns (owner: seq<Signer>)
    requires VerifySigners(c, Some(tx), server, signers) == Ok(found)
    ensures Accounts(c, tx, owner) && ToSet(owner) == {server} + ToSet(found)
    ensures found != [] && Distinct(found) && server !in found && |found| + 1 == |tx.signatures|
    ensures forall s :: s in found ==> s in signers && Verifiable(server, s)
  {
    hide Verifiable, Signs, Parse, Clients, Without, VerifyTxSignatures, Accounts;
    var all := [server] + Clients(server, signers, |signers|);
    assert signers[..|signers|] == signers;
    AllDistinct(server, signers);
    var list := VerifyTxSignatures(c, tx, all).value;
    owner := EverySignatureOwned(c, tx, all, list);
    WithoutDistinct(list, server);
    WithoutSize(list, server);
    assert ToSet(owner) == {server} + ToSet(found);
  }

  /** As many signers found as signatures: every signature has its owner among them. */
  lemma EverySignatureOwned(c: Crypto, tx: Tx, all: seq<Signer>, list: seq<Signer>) returns (owner: seq<Signer>)
    requires Distinct(all) && VerifyTxSignatures(c, tx, all) == Ok(list) && |list| == |tx.signatures|
    ensures Accounts(c, tx, owner) && ToSet(owner) == ToSet(list) && Distinct(list)
    ensures forall s :: s in list ==> s in all
  {
    hide Signs, Parse, Picks, First, Used, Matched;
    var matched := Matched(all, Picks(c, tx.hash.value, all, tx.signatures, |all|));
    ListedSize(all, matched);
    owner := AllConsumed(c, tx, all);
    assert all[..|all|] == all;
    assert ToSet(list) == matched;
  }

  lemma WithoutSize(list: seq<Signer>, s: Signer)
    requires Distinct(list) && s in list
    ensures |Without(list, s)| == |list| - 1
  {
    WithoutDistinct(list, s);
    DistinctSize(list);
    DistinctSize(Without(list, s));
    assert ToSet(Without(list, s)) == ToSet(list) - {s};
  }

  lemma AllDistinct(server: Signer, signers: seq<Signer>)
    ensures Distinct([server] + Clients(server, signers, |signers|))
  {
    hide Clients;
    var clients := Clients(server, signers, |signers|);
    assert server !in clients;
  }

  lemma {:induction false} WithoutDistinct(list: seq<Signer>, s: Signer)
    requires Distinct(list)
    ensures Distinct(Without(list, s))
  {
    if list != [] {
      WithoutDistinct(list[..|list| - 1], s);
      assert list[|list| - 1] !in list[..|list| - 1];
      assert list[|list| - 1] !in Without(list[..|list| - 1], s);
      assert list == list[..|list| - 1] + [list[|list| - 1]];
    }
  }

  // ---------------------------------------------------------------- completeness

  /** At most one key fits a signature of the transaction, as for ed25519. */
  ghost predicate OneKeyPerSignature(c: Crypto, tx: Tx) {
    tx.hash.Some? ==>
      forall d, k, l :: d in tx.signatures && Fits(c, tx.hash.value, k, d) && Fits(c, tx.hash.value, l, d) ==> k == l
  }

  /** An address is the only one of its key. */
  lemma ParseInjective(c: Crypto, s: Signer, t: Signer)
    requires Parse(c, s).Some? && Parse(c, s) == Parse(c, t)
    ensures s == t
  {
    hide Decode, DecodeAny, Encode;
    var key := Parse(c, s).value;
    DecodeIsDecodeAny(c.crc, ACCOUNT, s, key);
    DecodeIsDecodeAny(c.crc, ACCOUNT, t, key);
    DecodeAnyExactly(c.crc, s, ACCOUNT, key);
    DecodeAnyExactly(c.crc, t, ACCOUNT, key);
  }

  lemma OneSigner(c: Crypto, tx: Tx, s: Signer, t: Signer, d: Decorated)
    requires OneKeyPerSignature(c, tx) && tx.hash.Some? && d in tx.signatures
    requires Signs(c, tx.hash.value, s, d) && Signs(c, tx.hash.value, t, d)
    ensures s == t
  {
    hide Parse, Fits;
    assert Parse(c, s).value == Parse(c, t).value;
    ParseInjective(c, s, t);
  }

  /** When a signature fits at most one key, nobody's signature is taken by somebody else. */
  lemma GreedyFindsOwners(c: Crypto, tx: Tx, signers: seq<Signer>, owner: seq<Signer>)
    requires OneKeyPerSignature(c, tx) && Accounts(c, tx, owner) && Distinct(signers)
    requires forall s :: s in owner ==> s in signers
    ensures Matched(signers, Picks(c, tx.hash.value, signers, tx.signatures, |signers|)) == ToSet(owner)
  {
    hide Signs, OneKeyPerSignature, Picks;
    var hash, sigs := tx.hash.value, tx.signatures;
    var p := Picks(c, hash, signers, sigs, |signers|);
    PicksSign(c, hash, signers, sigs, |signers|);
    forall s ensures s in Matched(signers, p) <==> s in owner {
      if i :| 0 <= i < |p| && signers[i] == s && p[i].Some? {
        OneSigner(c, tx, s, owner[p[i].value], sigs[p[i].value]);
      }
      if j :| 0 <= j < |owner| && owner[j] == s {
        assert owner[j] in owner;
        var i :| 0 <= i < |signers| && signers[i] == s;
        OwnSignatureLeft(c, tx, signers, i, j, |signers|);
      }
    }
  }

  /** A signer who made signature `j` consumes some signature. */
  lemma {:induction false} OwnSignatureLeft(c: Crypto, tx: Tx, signers: seq<Signer>, i: nat, j: nat, n: nat)
    requires OneKeyPerSignature(c, tx) && tx.hash.Some? && Distinct(signers) && i < n <= |signers|
        && j < |tx.signatures|
    requires Signs(c, tx.hash.value, signers[i], tx.signatures[j])
    ensures Picks(c, tx.hash.value, signers, tx.signatures, n)[i].Some?
    decreases n
  {
    hide Signs, OneKeyPerSignature;
    if i < n - 1 {
      OwnSignatureLeft(c, tx, signers, i, j, n - 1);
    } else {
      var before := Picks(c, tx.hash.value, signers, tx.signatures, n - 1);
      if j !in Used(before) {
        FirstIsFirst(c, tx.hash.value, signers[i], tx.signatures, Used(before), 0, j);
      }
      if j in Used(before) {
        PicksSign(c, tx.hash.value, signers, tx.signatures, n - 1);
        var k :| 0 <= k < |before| && before[k] == Some(j);
        OneSigner(c, tx, signers[k], signers[i], tx.signatures[j]);
        assert false;
      }
    }
  }

  /** All signers consulted: the server and the verifiable clients. */
  function Consulted(server: Signer, signers: seq<Signer>): (r: seq<Signer>)
    ensures forall s :: s in r <==> s == server || (s in signers && Verifiable(server, s))
  {
    assert signers[..|signers|] == signers;
    [server] + Clients(server, signers, |signers|)
  }

  /** Exactly which challenges pass, when a signature fits at most one key: every consulted signer is
      an address, and the signatures belong to distinct consulted signers, the server among them and
      not alone. The greedy choice of signatures loses nothing. */
  lemma VerifyExactly(c: Crypto, tx: Tx, server: Signer, signers: seq<Signer>)
    requires OneKeyPerSignature(c, tx)
    ensures VerifySigners(c, Some(tx), server, signers).Ok?
       <==> && (forall s :: s in Consulted(server, signers) ==> Parse(c, s).Some?)
            && exists owner :: Accounts(c, tx, owner) && server in owner && |owner| >= 2
                               && forall s :: s in owner ==> s in Consulted(server, signers)
  {
    hide Parse, Verifiable, Picks, Matched, OneKeyPerSignature, Accounts, Clients;
    var r := VerifySigners(c, Some(tx), server, signers);
    if r.Ok? {
      var owner := SuccessAccountsForAll(c, tx, server, signers, r.value);
      OwnersConsulted(c, tx, owner, server, signers, r.value);
    }
    if forall s :: s in Consulted(server, signers) ==> Parse(c, s).Some? {
      forall owner | Accounts(c, tx, owner) && server in owner && |owner| >= 2
                     && forall s :: s in owner ==> s in Consulted(server, signers)
        ensures r.Ok?
      {
        OwnedChallengePasses(c, tx, server, signers, owner);
      }
    }
  }

  lemma OwnersConsulted(c: Crypto, tx: Tx, owner: seq<Signer>, server: Signer, signers: seq<Signer>, found: seq<Signer>)
    requires VerifySigners(c, Some(tx), server, signers) == Ok(found)
    requires Accounts(c, tx, owner) && ToSet(owner) == {server} + ToSet(found)
    requires found != [] && |found| + 1 == |tx.signatures|
    requires forall s :: s in found ==> s in signers && Verifiable(server, s)
    ensures server in owner && |owner| >= 2 && forall s :: s in owner ==> s in Consulted(server, signers)
    ensures forall s :: s in Consulted(server, signers) ==> Parse(c, s).Some?
  {
    hide Parse, Verifiable, Picks, Matched, Clients, Signs;
    assert server in ToSet(owner);
    forall s | s in owner ensures s in Consulted(server, signers) {
      assert s in ToSet(owner);
    }
  }

  /** The greedy search lists exactly the owners. */
  lemma GreedyListsOwners(c: Crypto, tx: Tx, signers: seq<Signer>, owner: seq<Signer>)
    requires OneKeyPerSignature(c, tx) && Accounts(c, tx, owner) && Distinct(signers)
    requires forall s :: s in owner ==> s in signers
    requires forall s :: s in signers ==> Parse(c, s).Some?
    ensures VerifyTxSignatures(c, tx, signers).Ok?
    ensures var list := VerifyTxSignatures(c, tx, signers).value;
            |list| == |owner| && forall s :: s in list <==> s in owner
  {
    hide Parse, Picks, Matched, OneKeyPerSignature, Signs;
    GreedyFindsOwners(c, tx, signers, owner);
    ListedSize(signers, Matched(signers, Picks(c, tx.hash.value, signers, tx.signatures, |signers|)));
    DistinctSize(owner);
    assert signers[..|signers|] == signers;
  }

  lemma OwnedChallengePasses(c: Crypto, tx: Tx, server: Signer, signers: seq<Signer>, owner: seq<Signer>)
    requires OneKeyPerSignature(c, tx) && Accounts(c, tx, owner) && server in owner && |owner| >= 2
    requires forall s :: s in owner ==> s in Consulted(server, signers)
    requires forall s :: s in Consulted(server, signers) ==> Parse(c, s).Some?
    ensures VerifySigners(c, Some(tx), server, signers).Ok?
  {
    hide Parse, Verifiable, OneKeyPerSignature, Clients, Signs, VerifyTxSignatures, Without;
    var all := Consulted(server, signers);
    AllDistinct(server, signers);
    GreedyListsOwners(c, tx, all, owner);
    var other := if owner[0] == server then owner[1] else owner[0];
    assert other in owner && other != server;
    assert other in Without(VerifyTxSignatures(c, tx, all).value, server);
    assert Clients(server, signers, |signers|) != [];
  }

  /** The first signer of the list is never robbed of a signature. */
  lemma {:induction false} FirstSignerPicks(c: Crypto, hash: Bytes, signers: seq<Signer>, sigs: seq<Decorated>, n: nat,
                                            j: nat)
    requires 1 <= n <= |signers| && j < |sigs| && Signs(c, hash, signers[0], sigs[j])
    ensures Picks(c, hash, signers, sigs, n)[0].Some?
  {
    hide Signs, First;
    if n == 1 {
      var before := Picks(c, hash, signers, sigs, 0);
      assert before == [] && Used(before) == {};
      FirstIsFirst(c, hash, signers[0], sigs, {}, 0, j);
    } else {
      FirstSignerPicks(c, hash, signers, sigs, n - 1, j);
    }
  }

  /** What the refusals say is true: without the server's signature no signature fits the server, and without
      a client's, when a signature fits at most one key, none fits any client consulted. The errors are
      reported in this order. */
  lemma RefusalsAreTrue(c: Crypto, tx: Tx, server: Signer, signers: seq<Signer>, j: nat)
    requires tx.hash.Some? && j < |tx.signatures|
    ensures var r, d, hash := VerifySigners(c, Some(tx), server, signers), tx.signatures[j], tx.hash.value;
            && (r == Err(NotSignedByServer) ==> !Signs(c, hash, server, d))
            && (r == Err(NotSignedByClient) && OneKeyPerSignature(c, tx) ==>
                  forall s :: s in signers && Verifiable(server, s) ==> !Signs(c, hash, s, d))
            && (r == Err(NoVerifiableSigners) <==>
                  Parse(c, server).Some? && forall s :: s in signers ==> !Verifiable(server, s))
            && (r.Err? && r.error.Unrecognized? ==>
                  r.error.found != [] && |r.error.found| + 1 != |tx.signatures|
                  && forall s :: s in r.error.found ==> s in signers && Verifiable(server, s))
  {
    hide Signs, Parse, Verifiable, Picks, Matched, OneKeyPerSignature, Clients, Listed;
    var r, hash := VerifySigners(c, Some(tx), server, signers), tx.hash.value;
    var all := [server] + Clients(server, signers, |signers|);
    assert signers[..|signers|] == signers && all[..|all|] == all;
    AllDistinct(server, signers);
    var p := Picks(c, hash, all, tx.signatures, |all|);
    assert |all| > 1 ==> all[1] in Clients(server, signers, |signers|);
    var list := Listed(all, Matched(all, p), |all|);
    if Signs(c, hash, server, tx.signatures[j]) {
      FirstSignerPicks(c, hash, all, tx.signatures, |all|, j);
      assert all[0] in Matched(all, p);
    }
    if OneKeyPerSignature(c, tx) {
      forall s | s in signers && Verifiable(server, s) && Signs(c, hash, s, tx.signatures[j])
        ensures s in Without(list, server)
      {
        IsNotServer(server, s);
        assert s in all;
        var i :| 0 <= i < |all| && all[i] == s;
        OwnSignatureLeft(c, tx, all, i, j, |all|);
        assert s in Matched(all, p);
      }
    }
    if r.Err? && r.error.Unrecognized? {
      WithoutSize(list, server);
    }
  }

  lemma IsNotServer(server: Signer, s: Signer)
    requires Verifiable(server, s)
    ensures s != server
  {
  }

  // ---------------------------------------------------------------- a greedy miss

  function Key(tag: byte): (k: Bytes)
    ensures |k| == 32 && k[28..] == Zeros(4) && k[0] == tag
  {
    [tag] + Zeros(31)
  }

  function Signature(tag: byte): (d: Decorated) {
    Decorated(Zeros(4), [tag] + Zeros(63))
  }

  /** Key 0 makes signature 0; key 1 makes 1 and 2; key 2 makes 1. */
  function Overlapping(crc: Checksum): (c: Crypto) {
    Crypto(crc, (k: Bytes, m: Bytes, d: Bytes) =>
      |k| > 0 && |d| > 0 && ((k[0] == 0 && d[0] == 0) || (k[0] == 1 && (d[0] == 1 || d[0] == 2))
          || (k[0] == 2 && d[0] == 1)))
  }

  function Address(crc: Checksum, tag: byte): (s: Signer)
    ensures Parse(Overlapping(crc), s) == Some(Key(tag))
  {
    EncodeThenDecode(crc, ACCOUNT, Key(tag));
    DecodeIsDecodeAny(crc, ACCOUNT, Encode(crc, ACCOUNT, Key(tag)).value, Key(tag));
    Encode(crc, ACCOUNT, Key(tag)).value
  }

  lemma OverlapSigns(crc: Checksum, hash: Bytes, k: byte, d: byte)
    requires k <= 2 && d <= 2
    ensures Signs(Overlapping(crc), hash, Address(crc, k), Signature(d))
       <==> (k == 0 && d == 0) || (k == 1 && d >= 1) || (k == 2 && d == 1)
  {
    hide Address, Parse, Zeros;
    assert ([d] + Zeros(63))[0] == d;
  }

  /** With a signature that fits two keys the greedy choice can miss the matching that exists. */
  lemma GreedyCanMiss(crc: Checksum)
    ensures var c := Overlapping(crc);
            var tx := Tx(Some([]), [Signature(0), Signature(1), Signature(2)]);
            var server, a, b := Address(crc, 0), Address(crc, 1), Address(crc, 2);
            Accounts(c, tx, [server, b, a]) && VerifyTxSignatures(c, tx, [server, a, b]) == Ok([server, a])
  {
    hide Address, Signs, Parse, Overlapping, Signature, VerifyTxSignatures;
    var c := Overlapping(crc);
    var sigs := [Signature(0), Signature(1), Signature(2)];
    var server, a, b := Address(crc, 0), Address(crc, 1), Address(crc, 2);
    forall k: byte, d: byte | k <= 2 && d <= 2
      ensures Signs(c, [], Address(crc, k), Signature(d))
              <==> (k == 0 && d == 0) || (k == 1 && d >= 1) || (k == 2 && d == 1)
    {
      OverlapSigns(crc, [], k, d);
    }
    assert server != a && server != b && a != b;
    GreedyThree(c, sigs, server, a, b);
  }

  lemma GreedyThree(c: Crypto, sigs: seq<Decorated>, x: Signer, y: Signer, z: Signer)
    requires |sigs| == 3 && x != y && x != z && y != z
    requires Parse(c, x).Some? && Parse(c, y).Some? && Parse(c, z).Some?
    requires Signs(c, [], x, sigs[0])
    requires !Signs(c, [], y, sigs[0]) && Signs(c, [], y, sigs[1])
    requires !Signs(c, [], z, sigs[0]) && !Signs(c, [], z, sigs[2])
    ensures VerifyTxSignatures(c, Tx(Some([]), sigs), [x, y, z]) == Ok([x, y])
  {
    hide Signs, Parse, Used, Matched, First, Picks, Listed;
    var signers := [x, y, z];
    ThreePicks(c, sigs, x, y, z);
    ListThree(x, y, z);
    assert forall s :: s in signers ==> Parse(c, s).Some?;
  }

  lemma ThreePicks(c: Crypto, sigs: seq<Decorated>, x: Signer, y: Signer, z: Signer)
    requires |sigs| == 3 && x != y && x != z && y != z
    requires Signs(c, [], x, sigs[0])
    requires !Signs(c, [], y, sigs[0]) && Signs(c, [], y, sigs[1])
    requires !Signs(c, [], z, sigs[0]) && !Signs(c, [], z, sigs[2])
    ensures Matched([x, y, z], Picks(c, [], [x, y, z], sigs, 3)) == {x, y}
  {
    hide Signs, Parse, Used, Matched, Picks, First;
    var signers := [x, y, z];
    NothingPicked(c, [], signers, sigs);
    ThreeFirsts(c, sigs, x, y, z);
    PickSnoc(c, [], signers, sigs, 0);
    assert Used(Picks(c, [], signers, sigs, 1)) == {0};
    PickSnoc(c, [], signers, sigs, 1);
    assert Used(Picks(c, [], signers, sigs, 2)) == {0} + {1};
    PickSnoc(c, [], signers, sigs, 2);
  }

  lemma ThreeFirsts(c: Crypto, sigs: seq<Decorated>, x: Signer, y: Signer, z: Signer)
    requires |sigs| == 3
    requires Signs(c, [], x, sigs[0])
    requires !Signs(c, [], y, sigs[0]) && Signs(c, [], y, sigs[1])
    requires !Signs(c, [], z, sigs[0]) && !Signs(c, [], z, sigs[2])
    ensures First(c, [], x, sigs, {}, 0) == Some(0)
    ensures First(c, [], y, sigs, {0}, 0) == Some(1)
    ensures First(c, [], z, sigs, {0} + {1}, 0) == None
  {
    hide Signs, First;
    FirstIsFirst(c, [], x, sigs, {}, 0, 0);
    FirstIsFirst(c, [], y, sigs, {0}, 0, 1);
  }

  lemma ListThree(x: Signer, y: Signer, z: Signer)
    requires x != y && x != z && y != z
    ensures Listed([x, y, z], {x, y}, 3) == [x, y]
  {
    var s := [x, y, z];
    assert s[..0] == [] && s[..1] == [x] && s[..2] == [x, y];
    assert Listed(s, {x, y}, 1) == [x];
    assert Listed(s, {x, y}, 2) == [x, y];
  }

  // ---------------------------------------------------------------- thresholds

  const MIN_INT32: int := -0x8000_0000

  /** int32 arithmetic keeps the low 32 bits. */
  function Wrap(n: int): (w: int)
    ensures MIN_INT32 <= w <= MAX_INT32 && (w - n) % TWO32 == 0
    ensures MIN_INT32 <= n <= MAX_INT32 ==> w == n
  {
    AsInt32(n % TWO32)
  }

  type Summary = m: map<Signer, int> | forall s :: s in m ==> -0x8000_0000 <= m[s] <= 0x7fff_ffff

  function WeightOf(summary: Summary, s: Signer): (w: int) {
    if s in summary then summary[s] else 0
  }

  /** The weights added up without wrapping. */
  function Sum(summary: Summary, found: seq<Signer>): (n: int) {
    if found == [] then 0 else Sum(summary, found[..|found| - 1]) + WeightOf(summary, found[|found| - 1])
  }

  function VerifyThreshold(c: Crypto, tx: Option<Tx>, server: Signer, threshold: byte, summary: Summary,
                           order: seq<Signer>): (r: Result<seq<Signer>, Failure>) {
    var found :- VerifySigners(c, tx, server, order);
    if Wrap(Sum(summary, found)) < threshold then Err(BelowThreshold(Wrap(Sum(summary, found)))) else Ok(found)
  }

  /** VerifyChallengeTxThreshold: the keys of the summary come in an order of the map's choosing. */
  method VerifyChallengeTxThreshold(c: Crypto, tx: Option<Tx>, server: Signer, threshold: byte, summary: Summary)
      returns (r: Result<seq<Signer>, Failure>, ghost order: seq<Signer>)
    ensures Distinct(order) && ToSet(order) == summary.Keys
    ensures r == VerifyThreshold(c, tx, server, threshold, summary, order)
  {
    var signers := KeysInSomeOrder(summary);
    order := signers;
    var verified := VerifyChallengeTxSigners(c, tx, server, signers);
    if verified.Err? { return Err(verified.error), order; }
    var weight := AddWeights(summary, verified.value);
    if weight < threshold { return Err(BelowThreshold(weight)), order; }
    return Ok(verified.value), order;
  }

  method AddWeights(summary: Summary, found: seq<Signer>) returns (weight: int)
    ensures weight == Wrap(Sum(summary, found))
  {
    hide Wrap, WeightOf;
    weight := 0;
    for i := 0 to |found|
      invariant weight == Wrap(Sum(summary, found[..i]))
    {
      assert found[..i + 1][..i] == found[..i];
      WrapAdd(Sum(summary, found[..i]), WeightOf(summary, found[i]));
      weight := Wrap(weight + WeightOf(summary, found[i]));
    }
    assert found[..|found|] == found;
  }

  method KeysInSomeOrder(summary: Summary) returns (signers: seq<Signer>)
    ensures Distinct(signers) && ToSet(signers) == summary.Keys
  {
    signers := [];
    var todo := summary.Keys;
    while todo != {}
      invariant todo <= summary.Keys && Distinct(signers) && ToSet(signers) == summary.Keys - todo
      decreases |todo|
    {
      var s :| s in todo;
      assert s !in ToSet(signers);
      ghost var before := signers;
      signers := signers + [s];
      assert ToSet(signers) == ToSet(before) + {s};
      todo := todo - {s};
    }
  }

  lemma WrapAdd(m: int, n: int)
    ensures Wrap(Wrap(m) + n) == Wrap(m + n)
  {
    assert (Wrap(m) + n) % TWO32 == (m + n) % TWO32;
  }

  /** The verdict is the right one for every threshold exactly when the sum fits an int32, or wraps
      to something that happens to lie on the same side of all thresholds. */
  lemma WeightVerdict(summary: Summary, found: seq<Signer>)
    ensures (forall t :: 0 <= t <= 255 ==> RightAt(Sum(summary, found), t)) <==> RightAlways(Sum(summary, found))
  {
    var n := Sum(summary, found);
    if forall t :: 0 <= t <= 255 ==> RightAt(n, t) {
      assert RightAt(n, 0) && RightAt(n, 255);
    }
  }

  /** The wrapped sum is below the threshold just when the sum is. */
  predicate RightAt(sum: int, t: int) {
    Wrap(sum) < t <==> sum < t
  }

  predicate RightAlways(sum: int) {
    MIN_INT32 <= sum <= MAX_INT32 || (sum > MAX_INT32 && Wrap(sum) >= 255) || (sum < MIN_INT32 && Wrap(sum) < 0)
  }

  /** Weights as the ledger has them cannot overflow. */
  lemma {:induction false} LedgerWeightsFit(summary: Summary, found: seq<Signer>)
    requires forall s :: s in summary ==> 0 <= summary[s] <= 255
    ensures 0 <= Sum(summary, found) <= 255 * |found|
  {
    if found != [] { LedgerWeightsFit(summary, found[..|found| - 1]); }
  }

  /** Two weights of MaxInt32 wrap to -2: enough weight, refused. Two very negative ones wrap to 1:
      not enough weight, accepted. */
  lemma WeightsCanWrap(s: Signer, t: Signer)
    requires s != t
    ensures Sum(map[s := MAX_INT32, t := MAX_INT32], [s, t]) > 255
        && Wrap(Sum(map[s := MAX_INT32, t := MAX_INT32], [s, t])) == -2
    ensures Sum(map[s := MIN_INT32, t := MIN_INT32 + 1], [s, t]) < 0
        && Wrap(Sum(map[s := MIN_INT32, t := MIN_INT32 + 1], [s, t])) == 1
  {
    TwoWeights(map[s := MAX_INT32, t := MAX_INT32], s, t);
    TwoWeights(map[s := MIN_INT32, t := MIN_INT32 + 1], s, t);
  }

  lemma TwoWeights(summary: Summary, s: Signer, t: Signer)
    ensures Sum(summary, [s, t]) == WeightOf(summary, s) + WeightOf(summary, t)
  {
    assert [s, t][..1] == [s] && [s][..0] == [];
    assert Sum(summary, [s]) == WeightOf(summary, s);
  }

  /** Exactly which verified challenges pass, when the summed weight fits an int32: those that reach the
      threshold, be it just so. */
  lemma ThresholdExactly(c: Crypto, tx: Option<Tx>, server: Signer, threshold: byte, summary: Summary,
                         order: seq<Signer>)
    ensures var verified, r := VerifySigners(c, tx, server, order),
                               VerifyThreshold(c, tx, server, threshold, summary, order);
            if verified.Err? then r == verified
            else MIN_INT32 <= Sum(summary, verified.value) <= MAX_INT32 ==>
              r == if Sum(summary, verified.value) >= threshold then verified
                   else Err(BelowThreshold(Sum(summary, verified.value)))
  {
    hide VerifySigners;
  }

  /** What a passed threshold check means: every signature has its own signer among the server and
      the returned ones, whose weights, if their sum fits an int32, reach the threshold. */
  lemma ThresholdMeans(c: Crypto, tx: Tx, server: Signer, threshold: byte, summary: Summary, order: seq<Signer>,
                       found: seq<Signer>)
      returns (owner: seq<Signer>)
    requires VerifyThreshold(c, Some(tx), server, threshold, summary, order) == Ok(found)
    requires ToSet(order) == summary.Keys
    ensures Accounts(c, tx, owner) && ToSet(owner) == {server} + ToSet(found) && Distinct(found) && server !in found
    ensures forall s :: s in found ==> s in summary
    ensures MIN_INT32 <= Sum(summary, found) <= MAX_INT32 ==> Sum(summary, found) >= threshold
  {
    hide VerifySigners, Verifiable, Accounts;
    owner := SuccessAccountsForAll(c, tx, server, order, found);
    forall s | s in found ensures s in summary {
      assert s in ToSet(order);
    }
  }
}
