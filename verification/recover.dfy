/** The deleted-file recovery of forensic/src/lib.rs: a walk along the chain of
    snapshots, newest first, carving every file a snapshot still lists and the live
    dataset no longer does. */
module Recovery {
  import opened Bytes

  const WALK_BUDGET := 4096

  datatype DirEntry = DirEntry(name: seq<byte>, obj: u64)

  /** A dataset's root directory, and the content its objects read back to, if any. */
  datatype Root = Root(entries: seq<DirEntry>, read: u64 -> Option<seq<byte>>)

  /** A dataset: the snapshot before it (0 for none), and its root if that can be read. */
  datatype Dataset = Dataset(prev: u64, root: Option<Root>)

  /** What the image yields: the head dataset, if the pool opens, the dataset of each
      object id, and the digest of a content. */
  datatype Pool = Pool(head: Option<Dataset>, dataset: u64 -> Option<Dataset>,
                       digest: seq<byte> -> seq<byte>)

  datatype RecoveredFile = RecoveredFile(path: seq<byte>, source: u64, inode: u64, size: nat,
                                         content: seq<byte>, contentSha256: seq<byte>)

  function RootNames(ds: Dataset): seq<DirEntry> {
    if ds.root.Some? then ds.root.value.entries else []
  }

  predicate Lists(entries: seq<DirEntry>, name: seq<byte>) {
    exists i :: 0 <= i < |entries| && entries[i].name == name
  }

  predicate HasPath(files: seq<RecoveredFile>, path: seq<byte>) {
    exists i :: 0 <= i < |files| && files[i].path == path
  }

  function Carve(pool: Pool, snapObj: u64, e: DirEntry, content: seq<byte>): RecoveredFile {
    RecoveredFile(e.name, snapObj, e.obj, |content|, content, pool.digest(content))
  }

  // ---- one snapshot --------------------------------------------------------

  function FromEntries(pool: Pool, snapObj: u64, read: u64 -> Option<seq<byte>>, entries: seq<DirEntry>,
                       live: seq<DirEntry>, files: seq<RecoveredFile>): seq<RecoveredFile>
  {
    if entries == [] then files
    else
      var e := entries[0];
      var next :=
        if Lists(live, e.name) || HasPath(files, e.name) then files
        else
          match read(e.obj)
          case None => files
          case Some(content) => files + [Carve(pool, snapObj, e, content)];
      FromEntries(pool, snapObj, read, entries[1..], live, next)
  }

  function FromSnapshot(pool: Pool, snapObj: u64, ds: Dataset, live: seq<DirEntry>, files: seq<RecoveredFile>)
    : seq<RecoveredFile>
  {
    match ds.root
    case None => files
    case Some(root) => FromEntries(pool, snapObj, root.read, root.entries, live, files)
  }

  /** The files recovered so far. */
  class Recovered {
    var files: seq<RecoveredFile>

    constructor ()
      ensures files == []
    {
      files := [];
    }

    method RecoverFromSnapshot(pool: Pool, snapObj: u64, ds: Dataset, live: seq<DirEntry>)
      modifies this
      ensures files == FromSnapshot(pool, snapObj, ds, live, old(files))
    {
      hide Lists, HasPath;
      if ds.root.None? { return; }
      var root := ds.root.value;
      var k := 0;
      while k < |root.entries|
        invariant 0 <= k <= |root.entries|
        invariant FromEntries(pool, snapObj, root.read, root.entries[k..], live, files)
               == FromEntries(pool, snapObj, root.read, root.entries, live, old(files))
      {
        var e := root.entries[k];
        assert root.entries[k..][0] == e && root.entries[k..][1..] == root.entries[k + 1..];
        k := k + 1;
        if Lists(live, e.name) { continue; }
        if HasPath(files, e.name) { continue; }
        var content := root.read(e.obj);
        if content.None? { continue; }
        files := files + [Carve(pool, snapObj, e, content.value)];
      }
    }
  }

  // ---- the walk ------------------------------------------------------------

  /** The snapshots examined from `snap` on: it ends at 0, at a repeated id, at an id that
      is no dataset, or when the budget is spent. */
  function Visited(pool: Pool, snap: u64, budget: nat, seen: seq<u64>): seq<u64>
    decreases budget
  {
    if snap == 0 || budget == 0 || snap in seen || pool.dataset(snap).None? then []
    else [snap] + Visited(pool, pool.dataset(snap).value.prev, budget - 1, seen + [snap])
  }

  function FromChain(pool: Pool, chain: seq<u64>, live: seq<DirEntry>, files: seq<RecoveredFile>)
    : seq<RecoveredFile>
  {
    if chain == [] then files
    else FromChain(pool, chain[1..], live,
                   match pool.dataset(chain[0])
                   case None => files
                   case Some(ds) => FromSnapshot(pool, chain[0], ds, live, files))
  }

  function Chain(pool: Pool): seq<u64> {
    match pool.head
    case None => []
    case Some(head) => Visited(pool, head.prev, WALK_BUDGET, [])
  }

  function LiveNames(pool: Pool): seq<DirEntry> {
    match pool.head
    case None => []
    case Some(head) => RootNames(head)
  }

  function RecoveredFiles(pool: Pool): seq<RecoveredFile> {
    FromChain(pool, Chain(pool), LiveNames(pool), [])
  }

  method RecoverDeleted(pool: Pool) returns (files: seq<RecoveredFile>)
    ensures files == RecoveredFiles(pool)
  {
    hide FromSnapshot;
    if pool.head.None? { return []; }
    var live := RootNames(pool.head.value);
    var out := new Recovered();
    var snapObj := pool.head.value.prev;
    var budget := WALK_BUDGET;
    var seen := [];
    while snapObj != 0 && budget > 0
      invariant budget >= 0
      invariant FromChain(pool, Visited(pool, snapObj, budget, seen), live, out.files) == RecoveredFiles(pool)
      decreases budget
    {
      ghost var before := budget;
      budget := budget - 1;
      if snapObj in seen { break; }
      ghost var earlier := seen;
      seen := seen + [snapObj];
      if pool.dataset(snapObj).None? { break; }
      var ds := pool.dataset(snapObj).value;
      VisitStep(pool, snapObj, before, earlier);
      out.RecoverFromSnapshot(pool, snapObj, ds, live);
      snapObj := ds.prev;
    }
    files := out.files;
  }

  lemma VisitStep(pool: Pool, snap: u64, budget: nat, seen: seq<u64>)
    requires snap != 0 && budget > 0 && snap !in seen && pool.dataset(snap).Some?
    ensures Visited(pool, snap, budget, seen) != [] && Visited(pool, snap, budget, seen)[0] == snap
    ensures Visited(pool, snap, budget, seen)[1..]
         == Visited(pool, pool.dataset(snap).value.prev, budget - 1, seen + [snap])
  {
  }

  // ---- which snapshots are visited -----------------------------------------

  /** The k-th snapshot of the chain that starts at `snap`, if the chain gets that far. */
  function Nth(pool: Pool, snap: u64, k: nat): Option<u64>
    decreases k
  {
    if snap == 0 || pool.dataset(snap).None? then None
    else if k == 0 then Some(snap)
    else Nth(pool, pool.dataset(snap).value.prev, k - 1)
  }

  /** Distinct ids, in chain order, at most `budget` many; and the walk ends early only at
      the chain's end or at an id already seen. */
  lemma {:induction false} VisitedInOrder(pool: Pool, snap: u64, budget: nat, seen: seq<u64>)
    ensures var v := Visited(pool, snap, budget, seen);
            |v| <= budget && Distinct(v) &&
            (forall k :: 0 <= k < |v| ==> v[k] !in seen && Nth(pool, snap, k) == Some(v[k])) &&
            (|v| == budget || Nth(pool, snap, |v|) == None || Nth(pool, snap, |v|).value in seen + v)
    decreases budget
  {
    var v := Visited(pool, snap, budget, seen);
    if v == [] {
    } else {
      var prev := pool.dataset(snap).value.prev;
      VisitedInOrder(pool, prev, budget - 1, seen + [snap]);
      var w := Visited(pool, prev, budget - 1, seen + [snap]);
      assert v == [snap] + w && seen + v == seen + [snap] + w;
    }
  }

  /** One link further; 0 where the chain ends. */
  function Previous(pool: Pool, id: u64): u64 {
    match pool.dataset(id)
    case None => 0
    case Some(ds) => ds.prev
  }

  lemma {:induction false} NthStep(pool: Pool, snap: u64, k: nat)
    requires Nth(pool, snap, k).Some?
    ensures Nth(pool, snap, k + 1) == Nth(pool, Previous(pool, Nth(pool, snap, k).value), 0)
    decreases k
  {
    if k == 0 {
    } else {
      NthStep(pool, Previous(pool, snap), k - 1);
    }
  }

  lemma NthBefore(pool: Pool, snap: u64, k: nat)
    requires Nth(pool, snap, k + 1).Some?
    ensures Nth(pool, snap, k).Some?
    decreases k
  {
    if k > 0 {
      NthBefore(pool, Previous(pool, snap), k - 1);
    }
  }

  lemma VisitedCloses(pool: Pool, snap: u64, budget: nat, i: nat) returns (j: nat)
    requires |Visited(pool, snap, budget, [])| < budget && i <= |Visited(pool, snap, budget, [])|
    requires Nth(pool, snap, i).Some?
    ensures j < |Visited(pool, snap, budget, [])|
    ensures Nth(pool, snap, j) == Nth(pool, snap, i) == Some(Visited(pool, snap, budget, [])[j])
  {
    hide Nth, Visited, Distinct;
    var v := Visited(pool, snap, budget, []);
    VisitedInOrder(pool, snap, budget, []);
    assert [] + v == v;
    j := i;
    if i == |v| {
      j :| 0 <= j < |v| && v[j] == Nth(pool, snap, i).value;
    }
  }

  /** Unless the budget runs out, every snapshot the chain reaches is visited, however
      often the chain goes round. */
  lemma {:induction false} EveryReachableIsVisited(pool: Pool, snap: u64, budget: nat, k: nat) returns (i: nat)
    requires |Visited(pool, snap, budget, [])| < budget && Nth(pool, snap, k).Some?
    ensures i < |Visited(pool, snap, budget, [])|
    ensures Nth(pool, snap, i) == Nth(pool, snap, k) == Some(Visited(pool, snap, budget, [])[i])
    decreases k
  {
    hide Nth, Visited, Previous;
    if k == 0 {
      i := VisitedCloses(pool, snap, budget, 0);
    } else {
      NthBefore(pool, snap, k - 1);
      NthStep(pool, snap, k - 1);
      i := EveryReachableIsVisited(pool, snap, budget, k - 1);
      NthStep(pool, snap, i);
      i := VisitedCloses(pool, snap, budget, i + 1);
    }
  }

  // ---- which files are recovered -------------------------------------------

  /** What one listed entry could contribute: nothing if it is live or unreadable. */
  function Candidate(pool: Pool, snapObj: u64, read: u64 -> Option<seq<byte>>, e: DirEntry,
                     live: seq<DirEntry>): seq<RecoveredFile>
  {
    if Lists(live, e.name) || read(e.obj).None? then []
    else [Carve(pool, snapObj, e, read(e.obj).value)]
  }

  function CandidatesOf(pool: Pool, snapObj: u64, read: u64 -> Option<seq<byte>>, entries: seq<DirEntry>,
                        live: seq<DirEntry>): seq<RecoveredFile>
  {
    if entries == [] then []
    else Candidate(pool, snapObj, read, entries[0], live)
         + CandidatesOf(pool, snapObj, read, entries[1..], live)
  }

  function SnapshotCandidates(pool: Pool, snapObj: u64, live: seq<DirEntry>): seq<RecoveredFile> {
    match pool.dataset(snapObj)
    case None => []
    case Some(ds) =>
      match ds.root
      case None => []
      case Some(root) => CandidatesOf(pool, snapObj, root.read, root.entries, live)
  }

  function ChainCandidates(pool: Pool, chain: seq<u64>, live: seq<DirEntry>): seq<RecoveredFile> {
    if chain == [] then []
    else SnapshotCandidates(pool, chain[0], live) + ChainCandidates(pool, chain[1..], live)
  }

  /** Keep of `more` what introduces a path that neither `files` nor an earlier one has. */
  function AddFirst(files: seq<RecoveredFile>, more: seq<RecoveredFile>): seq<RecoveredFile>
    decreases |more|
  {
    if more == [] then files
    else AddFirst(if HasPath(files, more[0].path) then files else files + [more[0]], more[1..])
  }

  lemma {:induction false} AddFirstAppend(files: seq<RecoveredFile>, x: seq<RecoveredFile>, y: seq<RecoveredFile>)
    ensures AddFirst(files, x + y) == AddFirst(AddFirst(files, x), y)
    decreases |x|
  {
    hide HasPath;
    if x == [] {
      assert x + y == y;
    } else {
      SplitHead(x, y);
      AddFirstAppend(if HasPath(files, x[0].path) then files else files + [x[0]], x[1..], y);
    }
  }

  lemma {:induction false} EntriesAddCandidates(pool: Pool, snapObj: u64, read: u64 -> Option<seq<byte>>,
                                                entries: seq<DirEntry>, live: seq<DirEntry>,
                                                files: seq<RecoveredFile>)
    ensures FromEntries(pool, snapObj, read, entries, live, files)
         == AddFirst(files, CandidatesOf(pool, snapObj, read, entries, live))
    decreases |entries|
  {
    hide HasPath, Lists;
    if entries == [] {
    } else {
      var now := Candidate(pool, snapObj, read, entries[0], live);
      AddFirstAppend(files, now, CandidatesOf(pool, snapObj, read, entries[1..], live));
      EntriesAddCandidates(pool, snapObj, read, entries[1..], live, AddFirst(files, now));
    }
  }

  lemma {:induction false} ChainAddsCandidates(pool: Pool, chain: seq<u64>, live: seq<DirEntry>,
                                               files: seq<RecoveredFile>)
    ensures FromChain(pool, chain, live, files) == AddFirst(files, ChainCandidates(pool, chain, live))
    decreases |chain|
  {
    hide CandidatesOf, FromEntries;
    if chain == [] {
    } else {
      var now := SnapshotCandidates(pool, chain[0], live);
      if pool.dataset(chain[0]).Some? && pool.dataset(chain[0]).value.root.Some? {
        var root := pool.dataset(chain[0]).value.root.value;
        EntriesAddCandidates(pool, chain[0], root.read, root.entries, live, files);
      }
      AddFirstAppend(files, now, ChainCandidates(pool, chain[1..], live));
      ChainAddsCandidates(pool, chain[1..], live, AddFirst(files, now));
    }
  }

  predicate DistinctPaths(files: seq<RecoveredFile>) {
    forall i, j :: 0 <= i < j < |files| ==> files[i].path != files[j].path
  }

  /** `f` is the first of its path in `more`. */
  predicate FirstOfPath(more: seq<RecoveredFile>, f: RecoveredFile) {
    exists k :: 0 <= k < |more| && IsFirst(more, f, k)
  }

  predicate IsFirst(more: seq<RecoveredFile>, f: RecoveredFile, k: nat) {
    k < |more| && more[k] == f && forall j :: 0 <= j < k ==> more[j].path != f.path
  }

  lemma {:induction false} AddFirstExactly(files: seq<RecoveredFile>, more: seq<RecoveredFile>)
    requires DistinctPaths(files)
    ensures files <= AddFirst(files, more) && DistinctPaths(AddFirst(files, more))
    ensures forall f :: f in AddFirst(files, more)
              <==> f in files || (!HasPath(files, f.path) && FirstOfPath(more, f))
    decreases |more|
  {
    if more == [] {
    } else {
      var next := if HasPath(files, more[0].path) then files else files + [more[0]];
      AddFirstExactly(next, more[1..]);
      forall f ensures f in AddFirst(files, more)
                  <==> f in files || (!HasPath(files, f.path) && FirstOfPath(more, f))
      {
        FirstStep(more, f);
        HasPathStep(files, more[0], f.path);
      }
    }
  }

  lemma FirstStep(more: seq<RecoveredFile>, f: RecoveredFile)
    requires more != []
    ensures FirstOfPath(more, f) <==> more[0] == f || (more[0].path != f.path && FirstOfPath(more[1..], f))
  {
    if more[0] == f { assert IsFirst(more, f, 0); }
    if more[0].path != f.path && FirstOfPath(more[1..], f) {
      var k :| 0 <= k < |more[1..]| && IsFirst(more[1..], f, k);
      assert forall j :: 0 < j < k + 1 ==> more[j] == more[1..][j - 1];
      assert IsFirst(more, f, k + 1);
    }
    if FirstOfPath(more, f) && more[0] != f {
      var k :| 0 <= k < |more| && IsFirst(more, f, k);
      assert forall j :: 0 <= j < k - 1 ==> more[1..][j] == more[j + 1];
      assert IsFirst(more[1..], f, k - 1);
    }
  }

  lemma HasPathStep(files: seq<RecoveredFile>, g: RecoveredFile, path: seq<byte>)
    ensures HasPath(files + [g], path) <==> HasPath(files, path) || g.path == path
  {
    if HasPath(files, path) {
      var i :| 0 <= i < |files| && files[i].path == path;
      assert (files + [g])[i].path == path;
    }
    assert (files + [g])[|files|] == g;
  }

  lemma FirstAppend(x: seq<RecoveredFile>, y: seq<RecoveredFile>, f: RecoveredFile)
    ensures FirstOfPath(x + y, f) <==> FirstOfPath(x, f) || (!HasPath(x, f.path) && FirstOfPath(y, f))
    decreases |x|
  {
    hide IsFirst;
    if x == [] {
      assert x + y == y;
      assert !FirstOfPath(x, f);
    } else {
      SplitHead(x, y);
      FirstStep(x + y, f);
      FirstStep(x, f);
      FirstAppend(x[1..], y, f);
      HasPathTail(x, f.path);
    }
  }

  lemma HasPathTail(x: seq<RecoveredFile>, path: seq<byte>)
    requires x != []
    ensures HasPath(x, path) <==> x[0].path == path || HasPath(x[1..], path)
  {
    if HasPath(x[1..], path) {
      var i :| 0 <= i < |x[1..]| && x[1..][i].path == path;
      assert x[i + 1].path == path;
    }
    if HasPath(x, path) && x[0].path != path {
      var i :| 0 <= i < |x| && x[i].path == path;
      assert x[1..][i - 1].path == path;
    }
  }

  // ---- the listings themselves ---------------------------------------------

  /** Entry `k` of this listing has that name and reads back. */
  predicate Readable(root: Root, k: nat, path: seq<byte>) {
    k < |root.entries| && root.entries[k].name == path && root.read(root.entries[k].obj).Some?
  }

  predicate RootOffers(root: Root, path: seq<byte>) {
    exists k :: 0 <= k < |root.entries| && Readable(root, k, path)
  }

  /** `f` is carved from entry `k`, and no earlier entry of its name reads back. */
  predicate CarvedAt(pool: Pool, id: u64, root: Root, f: RecoveredFile, k: nat) {
    Readable(root, k, f.path) &&
    f == Carve(pool, id, root.entries[k], root.read(root.entries[k].obj).value) &&
    forall j :: 0 <= j < k ==> !Readable(root, j, f.path)
  }

  predicate CarvedFrom(pool: Pool, id: u64, root: Root, f: RecoveredFile) {
    exists k :: 0 <= k < |root.entries| && CarvedAt(pool, id, root, f, k)
  }

  function Tail(root: Root): Root
    requires root.entries != []
  {
    root.(entries := root.entries[1..])
  }

  lemma OffersStep(root: Root, path: seq<byte>)
    requires root.entries != []
    ensures RootOffers(root, path) <==> Readable(root, 0, path) || RootOffers(Tail(root), path)
  {
    if RootOffers(Tail(root), path) {
      var k :| 0 <= k < |Tail(root).entries| && Readable(Tail(root), k, path);
      assert Readable(root, k + 1, path);
    }
    if RootOffers(root, path) && !Readable(root, 0, path) {
      var k :| 0 <= k < |root.entries| && Readable(root, k, path);
      assert Readable(Tail(root), k - 1, path);
    }
  }

  lemma CarvedStep(pool: Pool, id: u64, root: Root, f: RecoveredFile)
    requires root.entries != []
    ensures CarvedFrom(pool, id, root, f)
       <==> if Readable(root, 0, f.path) then CarvedAt(pool, id, root, f, 0)
            else CarvedFrom(pool, id, Tail(root), f)
  {
    hide Carve;
    forall k: nat ensures Readable(Tail(root), k, f.path) <==> Readable(root, k + 1, f.path) { }
    if Readable(root, 0, f.path) {
      assert forall k :: 0 < k ==> !CarvedAt(pool, id, root, f, k);
    } else {
      forall k: nat | CarvedAt(pool, id, Tail(root), f, k) ensures CarvedAt(pool, id, root, f, k + 1) {
        forall j | 0 <= j < k + 1 ensures !Readable(root, j, f.path) {
          if j > 0 { assert !Readable(Tail(root), j - 1, f.path); }
        }
      }
      forall k: nat | k > 0 && CarvedAt(pool, id, root, f, k) ensures CarvedAt(pool, id, Tail(root), f, k - 1) {
      }
    }
  }

  lemma {:induction false} CandidatesOffer(pool: Pool, id: u64, root: Root, live: seq<DirEntry>, path: seq<byte>)
    ensures HasPath(CandidatesOf(pool, id, root.read, root.entries, live), path)
       <==> !Lists(live, path) && RootOffers(root, path)
    decreases |root.entries|
  {
    hide Lists, RootOffers, HasPath;
    if root.entries == [] {
      NothingOffered(root, path);
    } else {
      OffersStep(root, path);
      CandidatesOffer(pool, id, Tail(root), live, path);
      var now := Candidate(pool, id, root.read, root.entries[0], live);
      EmptyOrHead(now, CandidatesOf(pool, id, root.read, root.entries[1..], live));
      if now != [] {
        HasPathTail(CandidatesOf(pool, id, root.read, root.entries, live), path);
      }
    }
  }

  lemma EmptyOrHead<T>(s: seq<T>, rest: seq<T>)
    requires |s| <= 1
    ensures s == [] ==> s + rest == rest
    ensures s != [] ==> s + rest == [s[0]] + rest && (s + rest)[1..] == rest
  {
  }

  lemma NothingOffered(root: Root, path: seq<byte>)
    requires root.entries == []
    ensures !RootOffers(root, path) && !HasPath([], path)
  {
  }

  lemma {:induction false} CandidatesCarve(pool: Pool, id: u64, root: Root, live: seq<DirEntry>, f: RecoveredFile)
    ensures FirstOfPath(CandidatesOf(pool, id, root.read, root.entries, live), f)
       <==> !Lists(live, f.path) && CarvedFrom(pool, id, root, f)
    decreases |root.entries|
  {
    hide Lists, FirstOfPath, HasPath;
    if root.entries == [] {
      NothingCarved(f);
    } else {
      CarvedStep(pool, id, root, f);
      CandidatesCarve(pool, id, Tail(root), live, f);
      var now := Candidate(pool, id, root.read, root.entries[0], live);
      EmptyOrHead(now, CandidatesOf(pool, id, root.read, root.entries[1..], live));
      if now != [] {
        FirstStep(CandidatesOf(pool, id, root.read, root.entries, live), f);
      }
    }
  }

  lemma NothingCarved(f: RecoveredFile)
    ensures !FirstOfPath([], f)
  {
  }

  // ---- the whole recovery --------------------------------------------------

  /** Snapshot `id` lists a readable file of that name. */
  predicate Offers(pool: Pool, id: u64, path: seq<byte>) {
    pool.dataset(id).Some? && pool.dataset(id).value.root.Some? &&
    RootOffers(pool.dataset(id).value.root.value, path)
  }

  predicate Carved(pool: Pool, id: u64, f: RecoveredFile) {
    pool.dataset(id).Some? && pool.dataset(id).value.root.Some? &&
    CarvedFrom(pool, id, pool.dataset(id).value.root.value, f)
  }

  /** `f` is carved from snapshot `i` of the chain, and no newer one offers its name. */
  predicate NewestAt(pool: Pool, chain: seq<u64>, f: RecoveredFile, i: nat) {
    i < |chain| && Carved(pool, chain[i], f) && forall j :: 0 <= j < i ==> !Offers(pool, chain[j], f.path)
  }

  predicate Newest(pool: Pool, chain: seq<u64>, f: RecoveredFile) {
    exists i :: 0 <= i < |chain| && NewestAt(pool, chain, f, i)
  }

  lemma NewestStep(pool: Pool, chain: seq<u64>, f: RecoveredFile)
    requires chain != []
    ensures Newest(pool, chain, f)
       <==> Carved(pool, chain[0], f) || (!Offers(pool, chain[0], f.path) && Newest(pool, chain[1..], f))
  {
    hide Carved, Offers;
    if Carved(pool, chain[0], f) { assert NewestAt(pool, chain, f, 0); }
    if !Offers(pool, chain[0], f.path) && Newest(pool, chain[1..], f) {
      var i :| 0 <= i < |chain[1..]| && NewestAt(pool, chain[1..], f, i);
      assert forall j :: 0 < j < i + 1 ==> chain[j] == chain[1..][j - 1];
      assert NewestAt(pool, chain, f, i + 1);
    }
    if Newest(pool, chain, f) && !Carved(pool, chain[0], f) {
      var i :| 0 <= i < |chain| && NewestAt(pool, chain, f, i);
      assert forall j :: 0 <= j < i - 1 ==> chain[1..][j] == chain[j + 1];
      assert NewestAt(pool, chain[1..], f, i - 1);
    }
  }

  lemma SnapshotContributes(pool: Pool, id: u64, live: seq<DirEntry>, f: RecoveredFile)
    ensures FirstOfPath(SnapshotCandidates(pool, id, live), f) <==> !Lists(live, f.path) && Carved(pool, id, f)
    ensures HasPath(SnapshotCandidates(pool, id, live), f.path) <==> !Lists(live, f.path) && Offers(pool, id, f.path)
  {
    hide CandidatesOf, FirstOfPath, Lists;
    NothingCarved(f);
    if pool.dataset(id).Some? && pool.dataset(id).value.root.Some? {
      var root := pool.dataset(id).value.root.value;
      CandidatesCarve(pool, id, root, live, f);
      CandidatesOffer(pool, id, root, live, f.path);
    }
  }

  lemma {:induction false} ChainContributes(pool: Pool, chain: seq<u64>, live: seq<DirEntry>, f: RecoveredFile)
    ensures FirstOfPath(ChainCandidates(pool, chain, live), f) <==> !Lists(live, f.path) && Newest(pool, chain, f)
    decreases |chain|
  {
    hide FirstOfPath, Lists, Carved, Offers, HasPath, NewestAt;
    if chain == [] {
      NothingCarved(f);
    } else {
      var now := SnapshotCandidates(pool, chain[0], live);
      NewestStep(pool, chain, f);
      SnapshotContributes(pool, chain[0], live, f);
      FirstAppend(now, ChainCandidates(pool, chain[1..], live), f);
      ChainContributes(pool, chain[1..], live, f);
    }
  }

  /** Exactly these files are recovered, each once: the name is not live, the content comes
      from the first visited snapshot that lists the name readably, and from the first
      readable entry of that name there. */
  lemma RecoveredExactly(pool: Pool)
    ensures DistinctPaths(RecoveredFiles(pool))
    ensures forall f :: f in RecoveredFiles(pool)
              <==> !Lists(LiveNames(pool), f.path) && Newest(pool, Chain(pool), f)
  {
    hide FromChain, FirstOfPath, Lists, Newest, Chain, ChainCandidates, AddFirst;
    ChainAddsCandidates(pool, Chain(pool), LiveNames(pool), []);
    AddFirstExactly([], ChainCandidates(pool, Chain(pool), LiveNames(pool)));
    forall f ensures f in RecoveredFiles(pool)
                <==> !Lists(LiveNames(pool), f.path) && Newest(pool, Chain(pool), f)
    {
      ChainContributes(pool, Chain(pool), LiveNames(pool), f);
    }
  }

  lemma FirstOffer(pool: Pool, chain: seq<u64>, path: seq<byte>, i: nat) returns (j: nat)
    requires i < |chain| && Offers(pool, chain[i], path)
    ensures j <= i && Offers(pool, chain[j], path)
    ensures forall k :: 0 <= k < j ==> !Offers(pool, chain[k], path)
    decreases i
  {
    hide Offers;
    if k :| 0 <= k < i && Offers(pool, chain[k], path) {
      j := FirstOffer(pool, chain, path, k);
    } else {
      j := i;
    }
  }

  lemma FirstReadable(pool: Pool, id: u64, root: Root, path: seq<byte>, k: nat) returns (f: RecoveredFile)
    requires Readable(root, k, path)
    ensures CarvedFrom(pool, id, root, f) && f.path == path
    decreases k
  {
    hide Readable;
    if j :| 0 <= j < k && Readable(root, j, path) {
      f := FirstReadable(pool, id, root, path, j);
    } else {
      f := CarveAt(pool, id, root, path, k);
    }
  }

  lemma CarveAt(pool: Pool, id: u64, root: Root, path: seq<byte>, k: nat) returns (f: RecoveredFile)
    requires Readable(root, k, path) && forall j :: 0 <= j < k ==> !Readable(root, j, path)
    ensures CarvedFrom(pool, id, root, f) && f.path == path
  {
    f := Carve(pool, id, root.entries[k], root.read(root.entries[k].obj).value);
    assert CarvedAt(pool, id, root, f, k);
  }

  /** Every deleted name that any visited snapshot still offers is recovered, from a
      snapshot at least as new. */
  lemma EveryOfferedNameIsRecovered(pool: Pool, i: nat, path: seq<byte>) returns (f: RecoveredFile)
    requires i < |Chain(pool)| && Offers(pool, Chain(pool)[i], path) && !Lists(LiveNames(pool), path)
    ensures f in RecoveredFiles(pool) && f.path == path && f.source in Chain(pool)[..i + 1]
  {
    hide Chain, LiveNames, RecoveredFiles, Lists;
    var chain := Chain(pool);
    var j := FirstOffer(pool, chain, path, i);
    var root := pool.dataset(chain[j]).value.root.value;
    var k :| 0 <= k < |root.entries| && Readable(root, k, path);
    f := FirstReadable(pool, chain[j], root, path, k);
    assert NewestAt(pool, chain, f, j);
    assert chain[..i + 1][j] == chain[j];
    RecoveredExactly(pool);
  }

  lemma {:induction false} ChainAppend(pool: Pool, x: seq<u64>, y: seq<u64>, live: seq<DirEntry>,
                                       files: seq<RecoveredFile>)
    ensures FromChain(pool, x + y, live, files) == FromChain(pool, y, live, FromChain(pool, x, live, files))
    decreases |x|
  {
    hide FromSnapshot;
    if x == [] {
      assert x + y == y;
    } else {
      SplitHead(x, y);
      var next := match pool.dataset(x[0])
                  case None => files
                  case Some(ds) => FromSnapshot(pool, x[0], ds, live, files);
      ChainAppend(pool, x[1..], y, live, next);
    }
  }

  /** Older snapshots only add after what newer ones gave: they change and remove nothing. */
  lemma OlderSnapshotsOnlyAppend(pool: Pool, newer: seq<u64>, older: seq<u64>, live: seq<DirEntry>)
    ensures FromChain(pool, newer, live, []) <= FromChain(pool, newer + older, live, [])
  {
    hide FromChain, ChainCandidates, AddFirst, FirstOfPath, HasPath;
    ChainAppend(pool, newer, older, live, []);
    ChainAddsCandidates(pool, newer, live, []);
    AddFirstExactly([], ChainCandidates(pool, newer, live));
    var files := FromChain(pool, newer, live, []);
    ChainAddsCandidates(pool, older, live, files);
    AddFirstExactly(files, ChainCandidates(pool, older, live));
  }

  // ---- in terms of the head ------------------------------------------------

  /** The same, written out: not live means not listed by the head's own root, which lists
      nothing if it cannot be read; the walk starts at the head's previous snapshot and
      examines at most 4096. Without a head nothing is recovered. */
  lemma RecoveredAgainstHead(pool: Pool)
    ensures pool.head.None? ==> RecoveredFiles(pool) == []
    ensures pool.head.Some? ==>
      var root := pool.head.value.root;
      forall f :: f in RecoveredFiles(pool)
        <==> (root.None? || forall i :: 0 <= i < |root.value.entries| ==> root.value.entries[i].name != f.path)
             && Newest(pool, Visited(pool, pool.head.value.prev, 4096, []), f)
  {
    hide Newest, Visited;
    if pool.head.Some? {
      RecoveredExactly(pool);
    }
  }

  /** What is recovered is the directory entry's name and object, under the snapshot's id,
      with the content read, its length and its digest. */
  lemma RecoveredFields(pool: Pool, f: RecoveredFile) returns (root: Root, k: nat)
    requires f in RecoveredFiles(pool)
    ensures pool.dataset(f.source).Some? && pool.dataset(f.source).value.root == Some(root)
    ensures k < |root.entries| && root.entries[k] == DirEntry(f.path, f.inode)
    ensures root.read(f.inode) == Some(f.content) && f.size == |f.content|
    ensures f.contentSha256 == pool.digest(f.content)
  {
    hide RecoveredFiles, Chain;
    RecoveredExactly(pool);
    var chain := Chain(pool);
    var i :| 0 <= i < |chain| && NewestAt(pool, chain, f, i);
    root := pool.dataset(chain[i]).value.root.value;
    k :| 0 <= k < |root.entries| && CarvedAt(pool, chain[i], root, f, k);
  }
}
