/** Scanning an archive for its checkpoint files: one existence check per file, or one listing per
    directory prefix, which must report the same files missing. */
module ArchiveScan {
  import opened Common
  import opened Checkpoints

  // ---------------------------------------------------------------- directory prefixes

  /** A DirPrefix, or the first components of one; two hex digits each in a path. */
  type Prefix = seq<byte>

  /** CheckpointPrefix: the three high bytes of the ledger number. */
  function CheckpointPrefix(seq_: uint32): (p: Prefix)
    ensures |p| == 3
  {
    [seq_ / 0x100 / 0x100 / 0x100, seq_ / 0x100 / 0x100 % 0x100, seq_ / 0x100 % 0x100]
  }

  /** The file of checkpoint `n` lies below the directory `p`. */
  predicate Below(p: Prefix, n: uint32) {
    p <= CheckpointPrefix(n)
  }

  ghost predicate Covered(res: seq<Prefix>, n: uint32) {
    exists k :: 0 <= k < |res| && Below(res[k], n)
  }

  /** RangePaths: the directories from low's to high's, at the first component where they differ. */
  method RangePaths(r: Range) returns (res: seq<Prefix>)
    ensures forall n: uint32 :: r.low <= n <= r.high ==> Covered(res, n)
    ensures forall n: uint32, k, l :: 0 <= k < l < |res| ==> !(Below(res[k], n) && Below(res[l], n))
    ensures r.low <= r.high ==> forall k :: 0 <= k < |res| ==> Useful(r, res[k])
  {
    res := [];
    var lowpre, highpre := CheckpointPrefix(r.low), CheckpointPrefix(r.high);
    var diff := 0;
    while diff < 2 && lowpre[diff] == highpre[diff]
      invariant 0 <= diff <= 2 && lowpre[..diff] == highpre[..diff]
    {
      diff := diff + 1;
    }
    var first: int, last: int := lowpre[diff], highpre[diff];
    for i := first to (if first <= last then last + 1 else first)
      invariant |res| == i - first
      invariant forall k :: 0 <= k < |res| ==> res[k] == lowpre[..diff] + [first + k]
    {
      res := res + [lowpre[..diff] + [i]];
    }
    if r.low <= r.high {
      PathsCover(r, diff, res);
      PathsUseful(r, diff, res);
    }
    PathsDisjoint(lowpre[..diff], first, res);
  }

  /** Some number of the range lies below the directory. */
  ghost predicate Useful(r: Range, p: Prefix) {
    exists n: uint32 :: Below(p, n) && r.low <= n <= r.high
  }

  lemma PathsUseful(r: Range, diff: nat, res: seq<Prefix>)
    requires r.low <= r.high && diff <= 2
    requires CheckpointPrefix(r.low)[..diff] == CheckpointPrefix(r.high)[..diff]
    requires var first: int, last: int := CheckpointPrefix(r.low)[diff], CheckpointPrefix(r.high)[diff];
             && (first <= last ==> |res| == last + 1 - first) && (first > last ==> res == [])
             && forall k :: 0 <= k < |res| ==>
                  0 <= first + k < 0x100 && res[k] == CheckpointPrefix(r.low)[..diff] + [first + k]
    ensures forall k :: 0 <= k < |res| ==> Useful(r, res[k])
  {
    var a, b := CheckpointPrefix(r.low), CheckpointPrefix(r.high);
    hide CheckpointPrefix;
    var first: int, last: int := a[diff], b[diff];
    forall k | 0 <= k < |res| ensures Useful(r, res[k]) {
      assert a[..diff + 1] == a[..diff] + [a[diff]] && b[..diff + 1] == b[..diff] + [b[diff]];
      if k == 0 {
        assert Below(res[k], r.low);
      } else if first + k == last {
        assert Below(res[k], r.high);
      } else {
        var n := FirstBelow(r, diff, first + k);
        assert Below(res[k], n);
      }
    }
  }

  /** The first number below a directory strictly between the two ends. */
  lemma FirstBelow(r: Range, diff: nat, x: byte) returns (n: uint32)
    requires r.low <= r.high && diff <= 2
    requires CheckpointPrefix(r.low)[..diff] == CheckpointPrefix(r.high)[..diff]
    requires CheckpointPrefix(r.low)[diff] < x < CheckpointPrefix(r.high)[diff]
    ensures r.low <= n <= r.high && CheckpointPrefix(r.low)[..diff] + [x] <= CheckpointPrefix(n)
  {
    var a, b := CheckpointPrefix(r.low), CheckpointPrefix(r.high);
    if diff == 0 {
      n := FirstBelowZero(r.low, r.high, x);
    } else if diff == 1 {
      assert a[..1][0] == b[..1][0];
      n := FirstBelowOne(r.low, r.high, x);
    } else {
      assert a[..2][0] == b[..2][0] && a[..2][1] == b[..2][1];
      SameQuotient(r.low / 0x100 / 0x100, r.high / 0x100 / 0x100);
      n := FirstBelowTwo(r.low, r.high, x);
    }
    var c := CheckpointPrefix(n);
    assert forall i :: 0 <= i < diff ==> a[..diff][i] == c[i];
    assert c[..diff + 1] == a[..diff] + [x];
  }

  lemma FirstBelowZero(low: uint32, high: uint32, x: int) returns (n: uint32)
    requires low / 0x100 / 0x100 / 0x100 < x < high / 0x100 / 0x100 / 0x100
    ensures low <= n <= high && n / 0x100 / 0x100 / 0x100 == x
  {
    var m := Between256(low / 0x100 / 0x100, high / 0x100 / 0x100, x);
    var l := Between256(low / 0x100, high / 0x100, m);
    n := Between256(low, high, l);
  }

  lemma FirstBelowOne(low: uint32, high: uint32, x: int) returns (n: uint32)
    requires low / 0x100 / 0x100 / 0x100 == high / 0x100 / 0x100 / 0x100
    requires low / 0x100 / 0x100 % 0x100 < x < high / 0x100 / 0x100 % 0x100
    ensures low <= n <= high && n / 0x100 / 0x100 / 0x100 == low / 0x100 / 0x100 / 0x100
        && n / 0x100 / 0x100 % 0x100 == x
  {
    var m := Digit256(low / 0x100 / 0x100, high / 0x100 / 0x100, x);
    var l := Between256(low / 0x100, high / 0x100, m);
    n := Between256(low, high, l);
  }

  lemma FirstBelowTwo(low: uint32, high: uint32, x: int) returns (n: uint32)
    requires low / 0x100 / 0x100 == high / 0x100 / 0x100
    requires low / 0x100 % 0x100 < x < high / 0x100 % 0x100
    ensures low <= n <= high && n / 0x100 / 0x100 == low / 0x100 / 0x100 && n / 0x100 % 0x100 == x
  {
    var m := Digit256(low / 0x100, high / 0x100, x);
    n := Between256(low, high, m);
  }

  /** A number with quotient `x`, between two whose quotients lie on either side. */
  lemma Between256(low: nat, high: nat, x: int) returns (n: nat)
    requires low / 0x100 < x < high / 0x100
    ensures low < n <= high && n / 0x100 == x
  {
    n := x * 0x100;
  }

  /** A number with last digit `x`, between two with the same quotient. */
  lemma Digit256(low: nat, high: nat, x: int) returns (n: nat)
    requires low / 0x100 == high / 0x100 && low % 0x100 < x < high % 0x100
    ensures low < n < high && n / 0x100 == low / 0x100 && n % 0x100 == x
  {
    n := low / 0x100 * 0x100 + x;
  }

  lemma PathsDisjoint(head: Prefix, first: int, res: seq<Prefix>)
    requires forall k :: 0 <= k < |res| ==> 0 <= first + k < 0x100 && res[k] == head + [first + k]
    ensures forall n: uint32, k, l :: 0 <= k < l < |res| ==> !(Below(res[k], n) && Below(res[l], n))
  {
    hide CheckpointPrefix;
    forall n: uint32, k, l | 0 <= k < l < |res| ensures !(Below(res[k], n) && Below(res[l], n)) {
      assert res[k][|head|] == first + k && res[l][|head|] == first + l;
    }
  }

  /** Ledger numbers between two with a common directory share it, and are ordered below it. */
  lemma Between(low: uint32, n: uint32, high: uint32, diff: nat)
    requires low <= n <= high && diff <= 2
    requires CheckpointPrefix(low)[..diff] == CheckpointPrefix(high)[..diff]
    ensures CheckpointPrefix(n)[..diff] == CheckpointPrefix(low)[..diff]
    ensures CheckpointPrefix(low)[diff] <= CheckpointPrefix(n)[diff] <= CheckpointPrefix(high)[diff]
  {
    var a, c := CheckpointPrefix(low), CheckpointPrefix(high);
    if diff == 1 {
      assert a[..1][0] == c[..1][0];
      BetweenOne(low, n, high);
    }
    if diff == 2 {
      assert a[..2][0] == c[..2][0] && a[..2][1] == c[..2][1];
      SameQuotient(low / 0x100 / 0x100, high / 0x100 / 0x100);
      BetweenTwo(low, n, high);
    }
  }

  lemma BetweenOne(low: uint32, n: uint32, high: uint32)
    requires low <= n <= high && low / 0x100 / 0x100 / 0x100 == high / 0x100 / 0x100 / 0x100
    ensures low / 0x100 / 0x100 / 0x100 == n / 0x100 / 0x100 / 0x100
    ensures low / 0x100 / 0x100 % 0x100 <= n / 0x100 / 0x100 % 0x100 <= high / 0x100 / 0x100 % 0x100
  {
    Order256(low, n, high);
    Order256(low / 0x100, n / 0x100, high / 0x100);
    Order256(low / 0x100 / 0x100, n / 0x100 / 0x100, high / 0x100 / 0x100);
  }

  lemma BetweenTwo(low: uint32, n: uint32, high: uint32)
    requires low <= n <= high && low / 0x100 / 0x100 == high / 0x100 / 0x100
    ensures low / 0x100 / 0x100 == n / 0x100 / 0x100
    ensures low / 0x100 % 0x100 <= n / 0x100 % 0x100 <= high / 0x100 % 0x100
  {
    Order256(low, n, high);
    Order256(low / 0x100, n / 0x100, high / 0x100);
  }

  lemma SameQuotient(x: nat, z: nat)
    requires x / 0x100 == z / 0x100 && x % 0x100 == z % 0x100
    ensures x == z
  {
  }

  /** Order of quotients, and of last digits below one quotient. */
  lemma Order256(x: nat, y: nat, z: nat)
    requires x <= y <= z
    ensures x / 0x100 <= y / 0x100 <= z / 0x100
    ensures x / 0x100 == z / 0x100 ==> x % 0x100 <= y % 0x100 <= z % 0x100
  {
  }

  lemma PathsCover(r: Range, diff: nat, res: seq<Prefix>)
    requires r.low <= r.high && diff <= 2
    requires CheckpointPrefix(r.low)[..diff] == CheckpointPrefix(r.high)[..diff]
    requires var first: int, last: int := CheckpointPrefix(r.low)[diff], CheckpointPrefix(r.high)[diff];
             && (first <= last ==> |res| == last + 1 - first)
             && forall k :: 0 <= k < |res| ==>
                  0 <= first + k < 0x100 && res[k] == CheckpointPrefix(r.low)[..diff] + [first + k]
    ensures forall n: uint32 :: r.low <= n <= r.high ==> Covered(res, n)
  {
    hide CheckpointPrefix;
    forall n: uint32 | r.low <= n <= r.high ensures Covered(res, n) {
      Between(r.low, n, r.high, diff);
      var p := CheckpointPrefix(n);
      var k: int := p[diff] as int - CheckpointPrefix(r.low)[diff] as int;
      assert p[..diff + 1] == p[..diff] + [p[diff]];
      assert res[k] == p[..diff + 1];
      assert Below(res[k], n);
    }
  }

  // ---------------------------------------------------------------- scanning

  datatype Category = History | Ledger | Transactions | Results | Scp

  const CATEGORIES: seq<Category> := [History, Ledger, Transactions, Results, Scp]

  predicate Required(c: Category) {
    c != Scp
  }

  /** A checkpoint file, by its canonical path. */
  type File = (Category, uint32)

  /** What a scan has noted: present or absent. */
  type Notes = map<File, bool>

  datatype Options = Options(range: Range, concurrency: nat, skipOptional: bool, verify: bool)

  /** The backend: the checkpoint files, all at canonical paths; those that fail verification; how many
      errors listing a directory reports; and which files a listing with errors leaves out. */
  datatype Backend = Backend(files: set<File>, broken: set<File>, listErrors: (Category, Prefix) -> nat,
      lost: File -> bool)

  /** No listing reports an error, and no file fails verification if that is asked for. */
  ghost predicate Faultless(backend: Backend, o: Options) {
    (forall c: Category, p: Prefix :: backend.listErrors(c, p) == 0) && (o.verify ==> backend.broken == {})
  }

  predicate Scans(o: Options, c: Category) {
    !(o.skipOptional && !Required(c))
  }

  /** The files one existence check is made for. */
  ghost function Asked(f: Freq, o: Options): (fs: set<File>)
    ensures forall c: Category, n: uint32 ::
              (c, n) in fs <==> !(o.skipOptional && c == Scp) && n in Grid(f, o.range.low, o.range.high)
  {
    AllCategories();
    set c: Category, n: uint32 | c in CATEGORIES && n in Grid(f, o.range.low, o.range.high) && Scans(o, c) :: (c, n)
  }

  lemma AllCategories()
    ensures forall c: Category :: c in CATEGORIES
  {
    forall c: Category ensures c in CATEGORIES {
      match c
      case History => assert CATEGORIES[0] == c;
      case Ledger => assert CATEGORIES[1] == c;
      case Transactions => assert CATEGORIES[2] == c;
      case Results => assert CATEGORIES[3] == c;
      case Scp => assert CATEGORIES[4] == c;
    }
  }

  ghost function SlowNotes(files: set<File>, f: Freq, o: Options, m: Notes): (m': Notes) {
    m + map k | k in Asked(f, o) :: k in files
  }

  predicate Listable(files: set<File>, o: Options, k: File) {
    k in files && Scans(o, k.0) && o.range.low <= k.1 <= o.range.high
  }

  ghost function FastNotes(files: set<File>, o: Options, m: Notes): (m': Notes) {
    m + map k | k in files && Listable(files, o, k) :: true
  }

  predicate Present(m: Notes, k: File) {
    k in m && m[k]
  }

  /** The numbers of `s` whose file was not noted as present, in order. */
  function Absent(m: Notes, c: Category, s: seq<uint32>): (r: seq<uint32>)
  {
    if s == [] then []
    else
      var n := s[|s| - 1];
      Absent(m, c, s[..|s| - 1]) + if Present(m, (c, n)) then [] else [n]
  }

  /** A Grid, as ledger numbers. */
  function Generated(f: Freq, r: Range): (s: seq<uint32>)
    ensures s == Grid(f, r.low, r.high)
  {
    Grid(f, r.low, r.high)
  }

  ghost function MissingOf(m: Notes, f: Freq, r: Range): (missing: map<Category, seq<uint32>>)
    ensures forall c: Category :: c in missing
  {
    AllCategories();
    map c | c in CATEGORIES :: Absent(m, c, Generated(f, r))
  }

  class Archive {
    const freq: Freq
    const backend: Backend
    var checkpointFiles: Notes

    constructor (freq: Freq, backend: Backend)
      ensures this.freq == freq && this.backend == backend && checkpointFiles == map[]
    {
      this.freq := freq;
      this.backend := backend;
      checkpointFiles := map[];
    }

    method NoteCheckpointFile(c: Category, n: uint32, present: bool)
      modifies this
      ensures checkpointFiles == old(checkpointFiles)[(c, n) := present]
    {
      checkpointFiles := checkpointFiles[(c, n) := present];
    }

    /** ListCategoryCheckpoints: the files of a category below a directory, all of them if the listing
        reports no error. */
    function List(c: Category, p: Prefix): (ns: set<uint32>)
      ensures forall n :: n in ns ==> (c, n) in backend.files && Below(p, n)
      ensures backend.listErrors(c, p) == 0 ==> forall n :: (c, n) in backend.files && Below(p, n) ==> n in ns
    {
      set k | k in backend.files && k.0 == c && Below(p, k.1)
          && (backend.listErrors(c, p) == 0 || !backend.lost(k)) :: k.1
    }

    /** noteError of VerifyCategoryCheckpoint, made only when asked to and only of files that are there. */
    function Failure(o: Options, k: File): (n: nat) {
      if o.verify && k in backend.files && k in backend.broken then 1 else 0
    }

    /** ScanCheckpoints: clamp the range to the archive's own and scan, by listing where the backend can
        list. From cleared notes, and if nothing went wrong, the files then reported missing do not
        depend on how the scan was done. */
    method ScanCheckpoints(o: Options, current: Range, canList: bool) returns (ok: bool, o': Options, ghost errors: nat)
      modifies this
      ensures o' == o.(range := Clamp(freq, o.range, current))
      ensures ok <==> o.concurrency != 0 && Wrap(errors) == 0
      ensures o.concurrency != 0 && errors == 0 && old(checkpointFiles) == map[] ==>
                forall c: Category, n: uint32 ::
                  n in MissingOf(checkpointFiles, freq, o'.range)[c]
                  <==> n in Grid(freq, o'.range.low, o'.range.high) && !(Scans(o, c) && (c, n) in backend.files)
    {
      hide SlowNotes, FastNotes, MissingOf, Grid;
      o' := o.(range := Clamp(freq, o.range, current));
      if canList {
        ok, errors := ScanCheckpointsFast(o');
      } else {
        ok, errors := ScanCheckpointsSlow(o');
      }
      MissingEverywhere(backend.files, freq, o');
    }

    /** ScanCheckpointsSlow, with its workers taking the requests in any order. `ok` is false for zero
        concurrency and for a nonzero 32-bit error count; `errors` counts the files that fail
        verification. */
    method ScanCheckpointsSlow(o: Options) returns (ok: bool, ghost errors: nat)
      modifies this
      ensures ok <==> o.concurrency != 0 && Wrap(errors) == 0
      ensures o.concurrency != 0 ==>
                && checkpointFiles == SlowNotes(backend.files, freq, o, old(checkpointFiles))
                && errors == |Failing(backend, o, Asked(freq, o))|
      ensures o.concurrency == 0 ==> checkpointFiles == old(checkpointFiles) && errors == 0
    {
      errors := 0;
      if o.concurrency == 0 { return false, 0; }
      ghost var was := checkpointFiles;
      var todo := SlowRequests(o);
      var errs;
      errs, errors := CheckAll(o, todo);
      AllAsked(backend.files, freq, o, was);
      ok := errs == 0;
    }

    /** The workers of the slow scan: one check and one note a request. */
    method CheckAll(o: Options, asked: set<File>) returns (errs: uint32, ghost errors: nat)
      modifies this
      ensures checkpointFiles == old(checkpointFiles) + Existence(backend.files, asked)
      ensures errors == |Failing(backend, o, asked)| && errs == Wrap(errors)
    {
      hide Existence, Failing;
      var todo := asked;
      errs, errors := 0, 0;
      NothingAsked(backend, o, checkpointFiles);
      assert asked - todo == {};
      while todo != {}
        invariant todo <= asked
        invariant checkpointFiles == old(checkpointFiles) + Existence(backend.files, asked - todo)
        invariant errors == |Failing(backend, o, asked - todo)| && errs == Wrap(errors)
        decreases |todo|
      {
        var r :| r in todo;
        TakeOut(asked, todo, r);
        var failed := CheckOne(o, r, asked - todo, old(checkpointFiles));
        WrapTwice(errors, failed);
        errs := Wrap(errs + failed);
        errors := errors + failed;
        todo := todo - {r};
      }
      assert asked - {} == asked;
    }

    method CheckOne(o: Options, r: File, ghost done: set<File>, ghost was: Notes) returns (failed: nat)
      requires r !in done && checkpointFiles == was + Existence(backend.files, done)
      modifies this
      ensures checkpointFiles == was + Existence(backend.files, done + {r})
      ensures |Failing(backend, o, done + {r})| == |Failing(backend, o, done)| + failed
    {
      hide Existence, Failing;
      ExistenceGrows(backend.files, was, done, r);
      FailingGrows(backend, o, done, r);
      NoteCheckpointFile(r.0, r.1, r in backend.files);
      failed := Failure(o, r);
    }

    method SlowRequests(o: Options) returns (todo: set<File>)
      ensures todo == Asked(freq, o)
    {
      todo := {};
      var checkpoints := GenerateCheckpoints(freq, o.range);
      for i := 0 to |CATEGORIES|
        invariant forall c: Category, n: uint32 ::
                    (c, n) in todo <==> c in CATEGORIES[..i] && Scans(o, c) && n in checkpoints
      {
        var c := CATEGORIES[i];
        if Scans(o, c) {
          todo := todo + set n | n in checkpoints :: (c, n);
        }
        assert CATEGORIES[..i + 1] == CATEGORIES[..i] + [c];
      }
      AllCategories();
      assert CATEGORIES[..|CATEGORIES|] == CATEGORIES;
      forall k: File ensures k in todo <==> k in Asked(freq, o) {
        assert k == (k.0, k.1);
      }
    }

    /** ScanCheckpointsFast: requests are listed, and listed files noted, in any interleaving. Whatever
        goes wrong, nothing is noted that is not there; if nothing does, everything there is noted. */
    method ScanCheckpointsFast(o: Options) returns (ok: bool, ghost errors: nat)
      modifies this
      ensures ok <==> o.concurrency != 0 && Wrap(errors) == 0
      ensures o.concurrency != 0 ==> NotesSome(backend.files, o, old(checkpointFiles), checkpointFiles)
      ensures o.concurrency != 0 && errors == 0 ==>
                && checkpointFiles == FastNotes(backend.files, o, old(checkpointFiles))
                && forall k :: Listable(backend.files, o, k) ==> !(o.verify && k in backend.broken)
      ensures Faultless(backend, o) || o.concurrency == 0 ==> errors == 0
      ensures o.concurrency == 0 ==> checkpointFiles == old(checkpointFiles)
    {
      errors := 0;
      if o.concurrency == 0 { return false, 0; }
      ghost var was := checkpointFiles;
      ghost var done;
      var requests := FastRequests(o);
      var errs;
      errs, errors, done := ListAndNote(o, requests);
      hide Underway, FastNotes, NotesSome;
      AllListed(backend, o, done, was, errors == 0);
      ok := errs == 0;
    }

    /** The workers of the fast scan. */
    method ListAndNote(o: Options, asked: set<(Category, Prefix)>)
        returns (errs: uint32, ghost errors: nat, ghost done: set<File>)
      requires forall q :: q in asked ==> Scans(o, q.0)
      requires forall k :: Listable(backend.files, o, k) ==> Pending(asked, k)
      modifies this
      ensures checkpointFiles == old(checkpointFiles) + Marks(done) && errs == Wrap(errors)
      ensures Underway(backend, o, {}, {}, done, errors == 0)
      ensures Faultless(backend, o) ==> errors == 0
    {
      hide Marks, Underway;
      var requests, listed: set<File> := asked, {};
      errs, errors, done := 0, 0, {};
      NothingListed(backend, o, requests, checkpointFiles);
      while requests != {} || listed != {}
        invariant checkpointFiles == old(checkpointFiles) + Marks(done) && errs == Wrap(errors)
        invariant Underway(backend, o, requests, listed, done, errors == 0)
        invariant Faultless(backend, o) ==> errors == 0
        decreases |requests|, |listed|
      {
        var more: bool, count: nat := *, 0;
        if listed == {} || (requests != {} && more) {
          var q :| q in requests;
          listed, count := ListOne(o, requests, listed, done, q, errors == 0);
          requests := requests - {q};
        } else {
          var k :| k in listed;
          count, done := NoteOne(o, requests, listed, done, k, errors == 0, old(checkpointFiles));
          listed := listed - {k};
        }
        WrapTwice(errors, count);
        errs := Wrap(errs + Wrap(count));
        errors := errors + count;
      }
    }

    method ListOne(o: Options, requests: set<(Category, Prefix)>, listed: set<File>, ghost done: set<File>,
                   q: (Category, Prefix), ghost errorFree: bool) returns (listed': set<File>, count: nat)
      requires Underway(backend, o, requests, listed, done, errorFree) && q in requests
      ensures Underway(backend, o, requests - {q}, listed', done, errorFree && count == 0)
      ensures Faultless(backend, o) ==> count == 0
    {
      hide Underway;
      count := backend.listErrors(q.0, q.1);
      ListingUnderway(backend, o, requests, listed, done, q, List(q.0, q.1), errorFree);
      listed' := listed + set n | n in List(q.0, q.1) :: (q.0, n);
    }

    method NoteOne(o: Options, ghost requests: set<(Category, Prefix)>, ghost listed: set<File>, ghost done: set<File>,
                   k: File, ghost errorFree: bool, ghost was: Notes) returns (count: nat, ghost done': set<File>)
      requires Underway(backend, o, requests, listed, done, errorFree) && k in listed
      requires checkpointFiles == was + Marks(done)
      modifies this
      ensures Underway(backend, o, requests, listed - {k}, done', errorFree && count == 0)
      ensures checkpointFiles == was + Marks(done')
      ensures Faultless(backend, o) ==> count == 0
    {
      hide Underway, Marks;
      Noted(backend, o, requests, listed, done, k, errorFree);
      count, done' := 0, done;
      if !(k.1 < o.range.low || k.1 > o.range.high) {
        MarksGrow(was, done, k);
        NoteCheckpointFile(k.0, k.1, true);
        done' := done + {k};
        count := if o.verify && k in backend.broken then 1 else 0;
      }
    }

    method FastRequests(o: Options) returns (requests: set<(Category, Prefix)>)
      ensures forall q :: q in requests ==> Scans(o, q.0)
      ensures forall k :: Listable(backend.files, o, k) ==> Pending(requests, k)
    {
      requests := {};
      var paths := RangePaths(o.range);
      for i := 0 to |CATEGORIES|
        invariant forall q :: q in requests <==> q.0 in CATEGORIES[..i] && Scans(o, q.0) && q.1 in paths
      {
        var c := CATEGORIES[i];
        if Scans(o, c) {
          requests := requests + set p | p in paths :: (c, p);
        }
        assert CATEGORIES[..i + 1] == CATEGORIES[..i] + [c];
      }
      AllCategories();
      assert CATEGORIES[..|CATEGORIES|] == CATEGORIES;
      forall k | Listable(backend.files, o, k) ensures Pending(requests, k) {
        assert Covered(paths, k.1);
        var j :| 0 <= j < |paths| && Below(paths[j], k.1);
        assert (k.0, paths[j]) in requests;
      }
    }

    method CheckCheckpointFilesMissing(o: Options) returns (missing: map<Category, seq<uint32>>)
      ensures missing == MissingOf(checkpointFiles, freq, o.range)
    {
      hide Absent, Grid, Present;
      missing := map[];
      var checkpoints := GenerateCheckpoints(freq, o.range);
      AllCategories();
      for i := 0 to |CATEGORIES|
        invariant missing == map c | c in CATEGORIES[..i] :: Absent(checkpointFiles, c, checkpoints)
      {
        var c := CATEGORIES[i];
        var absent := FindAbsent(c, checkpoints);
        missing := missing[c := absent];
        assert CATEGORIES[..i + 1] == CATEGORIES[..i] + [c];
      }
      assert CATEGORIES[..|CATEGORIES|] == CATEGORIES;
    }

    method FindAbsent(c: Category, checkpoints: seq<uint32>) returns (absent: seq<uint32>)
      ensures absent == Absent(checkpointFiles, c, checkpoints)
    {
      absent := [];
      for j := 0 to |checkpoints|
        invariant absent == Absent(checkpointFiles, c, checkpoints[..j])
      {
        assert checkpoints[..j + 1][..j] == checkpoints[..j];
        if !Present(checkpointFiles, (c, checkpoints[j])) {
          absent := absent + [checkpoints[j]];
        }
      }
      assert checkpoints[..|checkpoints|] == checkpoints;
    }
  }

  /** Some request will list the file. */
  ghost predicate Pending(requests: set<(Category, Prefix)>, k: File) {
    exists p :: (k.0, p) in requests && Below(p, k.1)
  }

  // ---------------------------------------------------------------- bookkeeping of the scans

  ghost function Existence(files: set<File>, ks: set<File>): (m: Notes) {
    map k | k in ks :: k in files
  }

  ghost function Marks(ks: set<File>): (m: Notes) {
    map k | k in ks :: true
  }

  lemma ExistenceGrows(files: set<File>, was: Notes, ks: set<File>, r: File)
    ensures was + Existence(files, ks + {r}) == (was + Existence(files, ks))[(r.0, r.1) := r in files]
  {
    assert r == (r.0, r.1);
  }

  lemma MarksGrow(was: Notes, ks: set<File>, k: File)
    ensures was + Marks(ks + {k}) == (was + Marks(ks))[(k.0, k.1) := true]
  {
    assert k == (k.0, k.1);
  }

  /** The files among `ks` whose verification fails. */
  ghost function Failing(backend: Backend, o: Options, ks: set<File>): (r: set<File>) {
    if o.verify then ks * backend.files * backend.broken else {}
  }

  lemma FailingGrows(backend: Backend, o: Options, ks: set<File>, r: File)
    requires r !in ks
    ensures |Failing(backend, o, ks + {r})|
         == |Failing(backend, o, ks)| + if o.verify && r in backend.files && r in backend.broken then 1 else 0
  {
    var some, more := Failing(backend, o, ks), Failing(backend, o, ks + {r});
    assert more == if r in backend.files && o.verify && r in backend.broken then some + {r} else some;
  }

  lemma TakeOut<T>(all: set<T>, todo: set<T>, r: T)
    requires r in todo && todo <= all
    ensures all - (todo - {r}) == (all - todo) + {r} && r !in all - todo
  {
  }

  lemma WrapZero()
    ensures Wrap(0) == 0
  {
  }

  lemma WrapTwice(m: nat, n: nat)
    ensures Wrap(Wrap(m) + Wrap(n)) == Wrap(m + n) && Wrap(Wrap(m) + n) == Wrap(m + n)
  {
  }

  /** While no error was counted, every file to be found is noted, listed, or below a directory still to
      be listed; nothing else is ever noted. */
  ghost predicate Underway(backend: Backend, o: Options, requests: set<(Category, Prefix)>, listed: set<File>,
                           done: set<File>,
                           errorFree: bool) {
    && (forall q :: q in requests ==> Scans(o, q.0))
    && (forall k :: k in listed ==> k in backend.files && Scans(o, k.0))
    && (forall k :: k in done ==> Listable(backend.files, o, k))
    && (errorFree ==>
          && (forall k :: k in done ==> !(o.verify && k in backend.broken))
          && forall k :: Listable(backend.files, o, k) ==> k in done || k in listed || Pending(requests, k))
  }

  lemma ListingUnderway(backend: Backend, o: Options, requests: set<(Category, Prefix)>, listed: set<File>,
                        done: set<File>,
                        q: (Category, Prefix), ns: set<uint32>, errorFree: bool)
    requires Underway(backend, o, requests, listed, done, errorFree) && q in requests
    requires forall n :: n in ns ==> (q.0, n) in backend.files && Below(q.1, n)
    requires backend.listErrors(q.0, q.1) == 0 ==> forall n :: (q.0, n) in backend.files && Below(q.1, n) ==> n in ns
    ensures Underway(backend, o, requests - {q}, listed + set n | n in ns :: (q.0, n), done,
                     errorFree && backend.listErrors(q.0, q.1) == 0)
  {
    var found := set n | n in ns :: (q.0, n);
    if errorFree && backend.listErrors(q.0, q.1) == 0 {
      forall k | Listable(backend.files, o, k) ensures k in done || k in listed + found || Pending(requests - {q}, k) {
        if k !in done && k !in listed {
          var p :| (k.0, p) in requests && Below(p, k.1);
          assert k == (k.0, k.1);
          assert (k.0, p) == q ==> k.1 in ns;
          assert (k.0, p) != q ==> (k.0, p) in requests - {q};
        }
      }
    }
  }

  lemma NothingAsked(backend: Backend, o: Options, was: Notes)
    ensures was + Existence(backend.files, {}) == was && |Failing(backend, o, {})| == 0
  {
    assert Failing(backend, o, {}) == {};
  }

  lemma AllAsked(files: set<File>, f: Freq, o: Options, was: Notes)
    ensures was + Existence(files, Asked(f, o)) == SlowNotes(files, f, o, was)
  {
  }

  lemma NothingListed(backend: Backend, o: Options, requests: set<(Category, Prefix)>, was: Notes)
    requires forall q :: q in requests ==> Scans(o, q.0)
    requires forall k :: Listable(backend.files, o, k) ==> Pending(requests, k)
    ensures Underway(backend, o, requests, {}, {}, true) && was + Marks({}) == was
  {
  }

  /** A listed file is noted when it lies in the range, and dropped otherwise. */
  lemma Noted(backend: Backend, o: Options, requests: set<(Category, Prefix)>, listed: set<File>, done: set<File>,
              k: File,
              errorFree: bool)
    requires Underway(backend, o, requests, listed, done, errorFree) && k in listed
    ensures Listable(backend.files, o, k) <==> !(k.1 < o.range.low || k.1 > o.range.high)
    ensures Listable(backend.files, o, k) ==>
              Underway(backend, o, requests, listed - {k}, done + {k}, errorFree && !(o.verify && k in backend.broken))
    ensures !Listable(backend.files, o, k) ==> Underway(backend, o, requests, listed - {k}, done, errorFree)
  {
  }

  /** Notes of some files that are there and were to be listed. */
  ghost predicate NotesSome(files: set<File>, o: Options, m: Notes, m': Notes) {
    exists done: set<File> :: (forall k :: k in done ==> Listable(files, o, k)) && m' == m + Marks(done)
  }

  lemma AllListed(backend: Backend, o: Options, done: set<File>, was: Notes, errorFree: bool)
    requires Underway(backend, o, {}, {}, done, errorFree)
    ensures NotesSome(backend.files, o, was, was + Marks(done))
    ensures errorFree ==>
              && was + Marks(done) == FastNotes(backend.files, o, was)
              && forall k :: Listable(backend.files, o, k) ==> !(o.verify && k in backend.broken)
  {
    if errorFree {
      forall k ensures k in done <==> k in backend.files && Listable(backend.files, o, k) {
        if Listable(backend.files, o, k) { assert !Pending({}, k); }
      }
    }
  }

  // ---------------------------------------------------------------- the scans agree

  /** No earlier scan left a note of a scanned file that is not there. */
  ghost predicate NothingStale(files: set<File>, f: Freq, o: Options, m: Notes) {
    forall k :: k in Asked(f, o) && Present(m, k) ==> k in files
  }

  /** What each scan makes of one file. */
  lemma NotesAt(files: set<File>, f: Freq, o: Options, m: Notes, k: File)
    requires k.1 in Grid(f, o.range.low, o.range.high)
    ensures Present(SlowNotes(files, f, o, m), k) <==> if Scans(o, k.0) then k in files else Present(m, k)
    ensures Present(FastNotes(files, o, m), k) <==> Present(m, k) || (Scans(o, k.0) && k in files)
  {
    hide Grid;
    assert k == (k.0, k.1);
  }

  lemma {:induction false} AbsentHas(m: Notes, c: Category, s: seq<uint32>, n: uint32)
    ensures n in Absent(m, c, s) <==> n in s && !Present(m, (c, n))
  {
    if s != [] {
      AbsentHas(m, c, s[..|s| - 1], n);
      assert s == s[..|s| - 1] + [s[|s| - 1]];
    }
  }

  lemma {:induction false} AbsentSame(m: Notes, m': Notes, c: Category, s: seq<uint32>)
    requires forall n :: n in s ==> (Present(m, (c, n)) <==> Present(m', (c, n)))
    ensures Absent(m, c, s) == Absent(m', c, s)
  {
    if s != [] { AbsentSame(m, m', c, s[..|s| - 1]); }
  }

  /** The two scans report the same files missing exactly when nothing stale was noted before. */
  lemma ScansAgree(files: set<File>, f: Freq, o: Options, m: Notes)
    ensures MissingOf(SlowNotes(files, f, o, m), f, o.range) == MissingOf(FastNotes(files, o, m), f, o.range)
       <==> NothingStale(files, f, o, m)
  {
    hide Grid, SlowNotes, FastNotes, Absent;
    var slow, fast := SlowNotes(files, f, o, m), FastNotes(files, o, m);
    var a, b, s := MissingOf(slow, f, o.range), MissingOf(fast, f, o.range), Generated(f, o.range);
    AllCategories();
    if NothingStale(files, f, o, m) {
      forall c: Category ensures a[c] == b[c] {
        forall n | n in s ensures Present(slow, (c, n)) <==> Present(fast, (c, n)) {
          NotesAt(files, f, o, m, (c, n));
          assert (c, n) in Asked(f, o) <==> Scans(o, c);
        }
        AbsentSame(slow, fast, c, s);
      }
      assert a == b;
    } else {
      var k :| k in Asked(f, o) && Present(m, k) && k !in files;
      assert k == (k.0, k.1);
      NotesAt(files, f, o, m, k);
      AbsentHas(slow, k.0, s, k.1);
      AbsentHas(fast, k.0, s, k.1);
      assert a[k.0] != b[k.0];
    }
  }

  /** From cleared notes both report exactly the checkpoints of the range without a file, and all of
      them for a category that was skipped. */
  lemma MissingExactly(files: set<File>, f: Freq, o: Options, c: Category, n: uint32)
    ensures MissingOf(SlowNotes(files, f, o, map[]), f, o.range) == MissingOf(FastNotes(files, o, map[]), f, o.range)
    ensures n in MissingOf(FastNotes(files, o, map[]), f, o.range)[c]
       <==> n in Grid(f, o.range.low, o.range.high) && !(Scans(o, c) && (c, n) in files)
  {
    hide Grid, SlowNotes, FastNotes, Absent;
    ScansAgree(files, f, o, map[]);
    AllCategories();
    AbsentHas(FastNotes(files, o, map[]), c, Generated(f, o.range), n);
    if n in Grid(f, o.range.low, o.range.high) { NotesAt(files, f, o, map[], (c, n)); }
  }

  lemma MissingEverywhere(files: set<File>, f: Freq, o: Options)
    ensures MissingOf(SlowNotes(files, f, o, map[]), f, o.range) == MissingOf(FastNotes(files, o, map[]), f, o.range)
    ensures forall c: Category, n: uint32 ::
              n in MissingOf(FastNotes(files, o, map[]), f, o.range)[c]
              <==> n in Grid(f, o.range.low, o.range.high) && !(Scans(o, c) && (c, n) in files)
  {
    hide Grid, SlowNotes, FastNotes, MissingOf;
    MissingExactly(files, f, o, History, 0);
    forall c: Category, n: uint32
      ensures n in MissingOf(FastNotes(files, o, map[]), f, o.range)[c]
              <==> n in Grid(f, o.range.low, o.range.high) && !(Scans(o, c) && (c, n) in files)
    {
      MissingExactly(files, f, o, c, n);
    }
  }

  /** The scans can disagree: a note from before that a file at ledger 63 is there, and no file. */
  lemma StaleNoteKept()
    ensures var o, m := Options(Range(63, 63), 1, false, false), map[(History, 63) := true];
            MissingOf(SlowNotes({}, 64, o, m), 64, o.range) != MissingOf(FastNotes({}, o, m), 64, o.range)
  {
    var o, m: Notes := Options(Range(63, 63), 1, false, false), map[(History, 63) := true];
    GridHas(64, 63, 63, 63);
    assert (History, 63) in Asked(64, o) && Present(m, (History, 63));
    ScansAgree({}, 64, o, m);
  }
}
