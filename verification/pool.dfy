/** A pool as it lies in an image: from the label through the active uberblock, the object
    directory and the DSL datasets to each root directory and file (core/src/label.rs,
    core/src/objset.rs, core/src/dsl.rs, core/src/zpl.rs), and the recovery of
    forensic/src/lib.rs on it. */
module PoolImage {
  import opened Arithmetic
  import opened Bytes
  import opened BlockPointer
  import opened ReadOne
  import opened DnodePhys
  import opened BlockTree
  import opened Objects
  import opened Stored
  import Zap
  import opened SystemAttributes
  import SaObjects
  import Nvlist
  import Label
  import Recovery

  const OBJSET_MIN_SIZE := 1024
  const DS_BP_OFFSET := 128
  const NVLIST_OFFSET := 0x4000
  const NVLIST_SIZE := 0x1_C000
  const DMU_OT_SA := 44
  const DMU_OT_ZNODE := 17
  const ZNODE_PHYS_SIZE := 264

  // The names the walk looks up, in ASCII.
  const ROOT_DATASET: seq<byte> := [114, 111, 111, 116, 95, 100, 97, 116, 97, 115, 101, 116]
  const ROOT: seq<byte> := [82, 79, 79, 84]
  const SA_ATTRS: seq<byte> := [83, 65, 95, 65, 84, 84, 82, 83]
  const REGISTRY: seq<byte> := [82, 69, 71, 73, 83, 84, 82, 89]
  const LAYOUTS: seq<byte> := [76, 65, 89, 79, 85, 84, 83]
  const VDEV_TREE: seq<byte> := [118, 100, 101, 118, 95, 116, 114, 101, 101]
  const ASHIFT: seq<byte> := [97, 115, 104, 105, 102, 116]

  // ---- objsets -------------------------------------------------------------

  datatype Objset = Objset(meta: Dnode, endian: Endian)

  function ParseObjset(data: seq<byte>, e: Endian): Option<Objset> {
    if |data| < OBJSET_MIN_SIZE then None
    else
      match ParseDnode(data, e)
      case None => None
      case Some(meta) => Some(Objset(meta, e))
  }

  function ReadObjset(rd: Reader, bp: Blkptr, e: Endian): Option<Objset> {
    match rd(bp)
    case Err(_) => None
    case Ok(block) => ParseObjset(block.data, e)
  }

  /** A name's value in a ZAP object of an objset. */
  function Lookup(rd: Reader, os: Objset, id: nat, name: seq<byte>): Option<u64> {
    match ObjectData(rd, os.meta, os.endian, id)
    case None => None
    case Some(data) => Zap.ZapLookup(data, name)
  }

  // ---- file sizes ----------------------------------------------------------

  function SaContext(rd: Reader, os: Objset): Option<(SaRegistry, SaLayouts)> {
    match Lookup(rd, os, 1, SA_ATTRS)
    case None => None
    case Some(master) =>
      match (Lookup(rd, os, master, REGISTRY), Lookup(rd, os, master, LAYOUTS))
      case (Some(r), Some(l)) => SaLists(ObjectData(rd, os.meta, os.endian, r), ObjectData(rd, os.meta, os.endian, l))
      case _ => None
  }

  function SaLists(registry: Option<seq<byte>>, layouts: Option<seq<byte>>): Option<(SaRegistry, SaLayouts)> {
    if registry.None? || layouts.None? then None
    else Some((SaObjects.ParseSaRegistry(registry.value),
               SaLayouts(SaObjects.LayoutsOf(Zap.ArrayListing(layouts.value)))))
  }

  /** The size in an object's metadata, of either format. */
  function BonusSize(d: Dnode, context: (SaRegistry, SaLayouts)): Option<nat> {
    if d.bonustype == DMU_OT_SA then
      match Decoded(d.bonus, context.0, context.1, d.endian)
      case None => None
      case Some(attrs) => if attrs.Get(Size) == [] then None else Some(attrs.Get(Size)[0])
    else if d.bonustype == DMU_OT_ZNODE && |d.bonus| >= ZNODE_PHYS_SIZE then Some(ReadU64(d.endian, d.bonus, 80))
    else None
  }

  function FileSize(rd: Reader, os: Objset, obj: u64): Option<nat> {
    match (SaContext(rd, os), MosDnode(rd, os.meta, os.endian, obj))
    case (Some(context), Some(d)) => BonusSize(d, context)
    case _ => None
  }

  function FileData(rd: Reader, os: Objset, obj: u64): Option<seq<byte>> {
    match ZplFile(rd, os.meta, os.endian, obj, FileSize(rd, os, obj))
    case Err(_) => None
    case Ok(content) => Some(content)
  }

  // ---- datasets ------------------------------------------------------------

  function Entries(listing: seq<Zap.Named<u64>>): seq<Recovery.DirEntry> {
    seq(|listing|, i requires 0 <= i < |listing| => Recovery.DirEntry(listing[i].name, listing[i].value))
  }

  /** The root directory the master node names, and how its files read. */
  function RootOf(rd: Reader, os: Objset): Option<Recovery.Root> {
    match Lookup(rd, os, 1, ROOT)
    case None => None
    case Some(root) =>
      Some(Recovery.Root(Entries(DirListing(rd, os.meta, os.endian, root)), (obj: u64) => FileData(rd, os, obj)))
  }

  function DatasetPointer(d: Dnode): Blkptr {
    match Slice(d.bonus, DS_BP_OFFSET, DS_BP_OFFSET + BLKPTR_SIZE)
    case None => Parse([], d.endian)
    case Some(raw) => Parse(raw, d.endian)
  }

  function DatasetOf(rd: Reader, d: Dnode, e: Endian): Recovery.Dataset {
    Recovery.Dataset(Le64(d.bonus, 8),
                     match ReadObjset(rd, DatasetPointer(d), e)
                     case None => None
                     case Some(os) => RootOf(rd, os))
  }

  function DatasetAt(rd: Reader, mos: Objset, id: u64): Option<Recovery.Dataset> {
    match MosDnode(rd, mos.meta, mos.endian, id)
    case None => None
    case Some(d) => Some(DatasetOf(rd, d, mos.endian))
  }

  /** The head dataset: object directory, root directory of the DSL, its head. */
  function HeadDataset(rd: Reader, mos: Objset): Option<Recovery.Dataset> {
    match Lookup(rd, mos, 1, ROOT_DATASET)
    case None => None
    case Some(root) =>
      match MosDnode(rd, mos.meta, mos.endian, root)
      case None => None
      case Some(dir) => if Le64(dir.bonus, 8) == 0 then None else DatasetAt(rd, mos, Le64(dir.bonus, 8))
  }

  // ---- the label -----------------------------------------------------------

  function GetFrom(pairs: seq<Nvlist.NvPair>, name: seq<byte>): Option<Nvlist.NvValue> {
    if pairs == [] then None
    else if pairs[0].name == name then Some(pairs[0].value)
    else GetFrom(pairs[1..], name)
  }

  /** The first `ashift` of the first `vdev_tree`, if it is a plausible one. */
  function SlotShift(config: Nvlist.NvList): (shift: nat)
    ensures 10 <= shift <= 16
  {
    match GetFrom(config.pairs, VDEV_TREE)
    case Some(Nested(tree)) =>
      (match GetFrom(tree.pairs, ASHIFT)
       case Some(U64(v)) => if 10 <= v <= 16 then v else 10
       case _ => 10)
    case _ => 10
  }

  function LabelUberblock(image: seq<byte>): Option<Label.Uberblock> {
    if |image| < Label.LABEL_SIZE then None
    else
      match Nvlist.Parse(image[NVLIST_OFFSET..NVLIST_OFFSET + NVLIST_SIZE])
      case Err(_) => None
      case Ok(config) =>
        var ring := image[Label.RING_OFFSET..Label.RING_OFFSET + Label.RING_SIZE];
        var size := Power(2, SlotShift(config));
        match Label.ActiveSlot(ring, size, Quot(Label.RING_SIZE, size))
        case None => None
        case Some((ub, _)) => Some(ub)
  }

  function OpenMos(env: Env, image: seq<byte>): Option<Objset> {
    match LabelUberblock(image)
    case None => None
    case Some(ub) => ReadObjset(ImageReader(env, image), Parse(ub.rootbp, ub.endian), ub.endian)
  }

  // ---- recovery ------------------------------------------------------------

  function ImagePool(env: Env, image: seq<byte>, digest: seq<byte> -> seq<byte>): Recovery.Pool {
    var rd := ImageReader(env, image);
    match OpenMos(env, image)
    case None => Recovery.Pool(None, (id: u64) => None, digest)
    case Some(mos) => Recovery.Pool(HeadDataset(rd, mos), (id: u64) => DatasetAt(rd, mos, id), digest)
  }

  /** The recovery of an image's deleted files. */
  method RecoverImage(env: Env, image: seq<byte>, digest: seq<byte> -> seq<byte>)
      returns (files: seq<Recovery.RecoveredFile>)
    ensures files == Recovery.RecoveredFiles(ImagePool(env, image, digest))
  {
    hide ImagePool, Recovery.RecoveredFiles;
    files := Recovery.RecoverDeleted(ImagePool(env, image, digest));
  }

  /** Every file recovered from an image is read whole from a snapshot of its head's chain:
      its directory lists the name under that object, whose content it is. */
  lemma RecoveredComesFromImage(env: Env, image: seq<byte>, digest: seq<byte> -> seq<byte>,
                                f: Recovery.RecoveredFile) returns (mos: Objset, snapshot: Dnode, os: Objset)
    requires f in Recovery.RecoveredFiles(ImagePool(env, image, digest))
    ensures OpenMos(env, image) == Some(mos)
    ensures var rd := ImageReader(env, image);
      && MosDnode(rd, mos.meta, mos.endian, f.source) == Some(snapshot)
      && ReadObjset(rd, DatasetPointer(snapshot), mos.endian) == Some(os)
      && Lookup(rd, os, 1, ROOT).Some?
      && Zap.Named(f.path, f.inode) in DirListing(rd, os.meta, os.endian, Lookup(rd, os, 1, ROOT).value)
      && FileData(rd, os, f.inode) == Some(f.content) && f.size == |f.content| && f.contentSha256 == digest(f.content)
  {
    hide Recovery.RecoveredFiles, MosDnode, Lookup, DirListing, FileData, ReadObjset, OpenMos, HeadDataset, ReadBlock;
    var pool, rd := ImagePool(env, image, digest), ImageReader(env, image);
    Recovery.RecoveredExactly(pool);
    var chain := Recovery.Chain(pool);
    var i :| 0 <= i < |chain| && Recovery.NewestAt(pool, chain, f, i);
    var root := pool.dataset(chain[i]).value.root.value;
    var k :| 0 <= k < |root.entries| && Recovery.CarvedAt(pool, chain[i], root, f, k);
    mos := OpenMos(env, image).value;
    snapshot := MosDnode(rd, mos.meta, mos.endian, f.source).value;
    os := ReadObjset(rd, DatasetPointer(snapshot), mos.endian).value;
    var listing := DirListing(rd, os.meta, os.endian, Lookup(rd, os, 1, ROOT).value);
    assert listing[k] == Zap.Named(f.path, f.inode);
  }

  /** A truncated image, or one without a readable configuration or uberblock, yields nothing. */
  lemma NothingFromNoPool(env: Env, image: seq<byte>, digest: seq<byte> -> seq<byte>)
    requires LabelUberblock(image) == None
    ensures Recovery.RecoveredFiles(ImagePool(env, image, digest)) == []
  {
    hide LabelUberblock;
  }

  // ---- the layouts walked --------------------------------------------------

  /** A dataset's bonus: the previous snapshot's id at byte 8, the pointer to its objset at
      bytes 128 to 256, a hole where the bonus ends before. */
  lemma DatasetLayout(rd: Reader, d: Dnode, e: Endian, prev: u64)
    ensures At(d.bonus, 8, LeBytes(prev, 8)) ==> DatasetOf(rd, d, e).prev == prev
    ensures |d.bonus| >= 256 ==> DatasetPointer(d) == Parse(d.bonus[128..256], d.endian)
    ensures |d.bonus| < 256 ==> DatasetPointer(d).IsHole()
  {
    hide Parse, ReadNat, LeBytes, At;
    if At(d.bonus, 8, LeBytes(prev, 8)) { ReadsLe64(d.bonus, 8, prev); }
    ParseZeros([], d.endian);
  }

  /** A directory's bonus names the head dataset at byte 8; 0 names none. */
  lemma HeadLayout(rd: Reader, mos: Objset, root: u64, dir: Dnode, head: u64)
    requires Lookup(rd, mos, 1, [114, 111, 111, 116, 95, 100, 97, 116, 97, 115, 101, 116]) == Some(root)
    requires MosDnode(rd, mos.meta, mos.endian, root) == Some(dir) && At(dir.bonus, 8, LeBytes(head, 8))
    ensures HeadDataset(rd, mos) == if head == 0 then None else DatasetAt(rd, mos, head)
  {
    hide Lookup, MosDnode, DatasetAt, LeBytes, At, ReadNat;
    ReadsLe64(dir.bonus, 8, head);
  }

  /** An objset needs 1024 bytes, and its meta-dnode is its first. */
  lemma ObjsetLayout(data: seq<byte>, e: Endian)
    ensures |data| < 1024 ==> ParseObjset(data, e) == None
    ensures |data| >= 1024 ==>
      ParseDnode(data, e).Some? && ParseObjset(data, e) == Some(Objset(ParseDnode(data, e).value, e))
  {
    hide BlkptrSlots, ReadNat;
  }

  /** The root directory is the object the master node, object 1, names "ROOT". */
  lemma RootLayout(rd: Reader, os: Objset)
    ensures RootOf(rd, os).Some? <==> Lookup(rd, os, 1, [82, 79, 79, 84]).Some?
    ensures RootOf(rd, os).Some? ==>
      var listing := DirListing(rd, os.meta, os.endian, Lookup(rd, os, 1, [82, 79, 79, 84]).value);
      |RootOf(rd, os).value.entries| == |listing| && forall i :: 0 <= i < |listing| ==>
        RootOf(rd, os).value.entries[i] == Recovery.DirEntry(listing[i].name, listing[i].value)
  {
    hide Lookup, DirListing;
  }

  /** A file's size by its bonus: the decoded size attribute under bonus type 44, the number
      at byte 80 of at least 264 under type 17, unknown otherwise. */
  lemma SizeLayout(d: Dnode, registry: SaRegistry, layouts: SaLayouts)
    ensures d.bonustype == 44 ==>
      BonusSize(d, (registry, layouts)) == match Decoded(d.bonus, registry, layouts, d.endian)
                                           case None => None
                                           case Some(attrs) =>
                                             if attrs.Get(Size) == [] then None else Some(attrs.Get(Size)[0])
    ensures d.bonustype == 17 && |d.bonus| >= 264 ==>
      BonusSize(d, (registry, layouts)) == Some(ReadU64(d.endian, d.bonus, 80))
    ensures d.bonustype == 17 && |d.bonus| < 264 ==> BonusSize(d, (registry, layouts)) == None
    ensures d.bonustype != 17 && d.bonustype != 44 ==> BonusSize(d, (registry, layouts)) == None
  {
    hide Decoded, ReadU64;
  }

  /** The label: 256 KiB, the configuration in its bytes 16 to 128 KiB, the ring in the rest.
      The slots are those of the first "ashift" of the first "vdev_tree", if it is 10 to 16,
      and of 1 KiB otherwise. */
  lemma LabelLayout(image: seq<byte>, config: Nvlist.NvList)
    ensures |image| < 0x4_0000 ==> LabelUberblock(image) == None
    ensures |image| >= 0x4_0000 && Nvlist.Parse(image[0x4000..0x2_0000]).Err? ==> LabelUberblock(image) == None
    ensures |image| >= 0x4_0000 && Nvlist.Parse(image[0x4000..0x2_0000]) == Ok(config) ==>
      var size := Power(2, SlotShift(config));
      LabelUberblock(image) == match Label.ActiveSlot(image[0x2_0000..0x4_0000], size, Quot(0x2_0000, size))
                               case None => None
                               case Some((ub, _)) => Some(ub)
  {
    hide Nvlist.Parse, Label.ActiveSlot, SlotShift, Power;
  }

  lemma ShiftOfConfig(before: seq<Nvlist.NvPair>, after: seq<Nvlist.NvPair>, tree: seq<Nvlist.NvPair>,
                      rest: seq<Nvlist.NvPair>, v: u64)
    requires forall i :: 0 <= i < |before| ==> before[i].name != [118, 100, 101, 118, 95, 116, 114, 101, 101]
    requires forall i :: 0 <= i < |tree| ==> tree[i].name != [97, 115, 104, 105, 102, 116]
    ensures var ashift := Nvlist.NvPair([97, 115, 104, 105, 102, 116], Nvlist.U64(v));
      var vdev := Nvlist.NvPair([118, 100, 101, 118, 95, 116, 114, 101, 101],
                                Nvlist.Nested(Nvlist.NvList(tree + [ashift] + rest)));
      SlotShift(Nvlist.NvList(before + [vdev] + after)) == if 10 <= v <= 16 then v else 10
  {
    var ashift := Nvlist.NvPair([97, 115, 104, 105, 102, 116], Nvlist.U64(v));
    var vdev := Nvlist.NvPair([118, 100, 101, 118, 95, 116, 114, 101, 101],
                              Nvlist.Nested(Nvlist.NvList(tree + [ashift] + rest)));
    GetPast(tree, ashift, rest);
    GetPast(before, vdev, after);
  }

  lemma {:induction false} GetPast(before: seq<Nvlist.NvPair>, pair: Nvlist.NvPair, after: seq<Nvlist.NvPair>)
    requires forall i :: 0 <= i < |before| ==> before[i].name != pair.name
    ensures GetFrom(before + [pair] + after, pair.name) == Some(pair.value)
    decreases |before|
  {
    if before == [] {
      assert before + [pair] + after == [pair] + after;
    } else {
      SplitHead(before, [pair]);
      SplitHead(before + [pair], after);
      GetPast(before[1..], pair, after);
    }
  }

  /** The registry and layouts are the objects named "REGISTRY" and "LAYOUTS" in the one the
      master node names "SA_ATTRS"; without any of them no size is known. */
  lemma ContextLayout(rd: Reader, os: Objset, obj: u64)
    ensures var master := Lookup(rd, os, 1, [83, 65, 95, 65, 84, 84, 82, 83]);
      var r := if master.None? then None else Lookup(rd, os, master.value, [82, 69, 71, 73, 83, 84, 82, 89]);
      var l := if master.None? then None else Lookup(rd, os, master.value, [76, 65, 89, 79, 85, 84, 83]);
      && (r.None? || l.None? ==> SaContext(rd, os) == None && FileSize(rd, os, obj) == None)
      && (r.Some? && l.Some? ==>
            var registry := ObjectData(rd, os.meta, os.endian, r.value);
            var layouts := ObjectData(rd, os.meta, os.endian, l.value);
            SaContext(rd, os) == if registry.None? || layouts.None? then None
                                 else Some((SaObjects.ParseSaRegistry(registry.value),
                                            SaLayouts(SaObjects.LayoutsOf(Zap.ArrayListing(layouts.value))))))
  {
    hide Lookup, ObjectData, SaObjects.ParseSaRegistry, SaObjects.LayoutsOf, Zap.ArrayListing, MosDnode;
  }
}
