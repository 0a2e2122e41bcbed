/** ZAP objects read from an image: the directory listing of core/src/zpl.rs (zpl_list_dir),
    and what a stored object lists when it is read back through its block tree. */
module Stored {
  import opened Arithmetic
  import opened Bytes
  import opened ReadOne
  import opened DnodePhys
  import opened BlockTree
  import opened Objects
  import opened Zap
  import opened ZapStore

  const DIRENT_OBJ_MASK := 0x1_0000_0000_0000

  /** The low 48 bits of a directory value are the object id. */
  function Masked(entries: seq<Named<u64>>): (r: seq<Named<u64>>)
    ensures |r| == |entries|
    ensures forall i :: 0 <= i < |r| ==> r[i] == Named(entries[i].name, entries[i].value % DIRENT_OBJ_MASK)
  {
    seq(|entries|, i requires 0 <= i < |entries| => Named(entries[i].name, entries[i].value % DIRENT_OBJ_MASK))
  }

  function ObjectData(rd: Reader, meta: Dnode, e: Endian, id: nat): Option<seq<byte>> {
    match MosDnode(rd, meta, e, id)
    case None => None
    case Some(d) =>
      match ZapObject(rd, d)
      case Err(_) => None
      case Ok(data) => Some(data)
  }

  /** A directory that is absent or cannot be read lists nothing. */
  function DirListing(rd: Reader, meta: Dnode, e: Endian, id: nat): seq<Named<u64>> {
    match ObjectData(rd, meta, e, id)
    case None => []
    case Some(data) => Masked(Listing(data))
  }

  method ZplListDir(env: Env, image: seq<byte>, meta: Dnode, e: Endian, id: u64) returns (r: seq<Named<u64>>)
    ensures r == DirListing(ImageReader(env, image), meta, e, id)
  {
    hide MosDnode, ZapObject, Listing, ReadBlock;
    var dir := MosDnodeAt(env, image, meta, e, id);
    if dir.None? { return []; }
    var data := ReadZapObject(env, image, dir.value);
    if data.Err? { return []; }
    var entries := ZapList(data.value);
    r := Masked(entries);
  }

  // ---- stored objects ------------------------------------------------------

  /** Where block `k` of an object lies in its data. */
  function BlockStart(d: Dnode, k: nat): nat {
    MulNonneg(k, d.DataBlockSize());
    k * d.DataBlockSize()
  }

  /** The object's blocks are the consecutive pieces of `data`. */
  predicate Holds(rd: Reader, d: Dnode, data: seq<byte>, n: nat) {
    |data| == BlockStart(d, n) && forall k :: 0 <= k < n ==> HoldsBlock(rd, d, data, k)
  }

  predicate HoldsBlock(rd: Reader, d: Dnode, data: seq<byte>, k: nat) {
    ReadDnodeData(rd, d, k).Ok? && At(data, BlockStart(d, k), ReadDnodeData(rd, d, k).value.data)
    && |ReadDnodeData(rd, d, k).value.data| == d.DataBlockSize()
  }

  lemma {:induction false} HeldBlocksRead(rd: Reader, d: Dnode, data: seq<byte>, n: nat, k: nat)
    requires Holds(rd, d, data, n) && k <= n
    ensures BlockStart(d, k) <= |data| && ReadBlocks(rd, d, k) == Ok(data[..BlockStart(d, k)])
    decreases k
  {
    hide ReadDnodeData;
    if k == 0 {
      assert 0 * d.DataBlockSize() == 0;
    } else {
      HeldBlocksRead(rd, d, data, n, k - 1);
      assert HoldsBlock(rd, d, data, k - 1);
      Distribute(d.DataBlockSize(), k - 1, 1);
      NextPiece(data, BlockStart(d, k - 1), ReadDnodeData(rd, d, k - 1).value.data);
    }
  }

  lemma NextPiece(data: seq<byte>, off: nat, bs: seq<byte>)
    requires At(data, off, bs)
    ensures off + |bs| <= |data| && data[..off] + bs == data[..off + |bs|]
  {
  }

  /** An object whose blocks hold `data` reads back as `data`. */
  lemma HeldObjectReads(rd: Reader, d: Dnode, data: seq<byte>)
    requires d.DataBlockSize() > 0 && Holds(rd, d, data, ZapBlocks(d))
    ensures ZapObject(rd, d) == Ok(data)
  {
    hide ReadDnodeData, Holds, ZapBlocks;
    HeldBlocksRead(rd, d, data, ZapBlocks(d), ZapBlocks(d));
    HeldLength(rd, d, data, ZapBlocks(d));
    assert data[..|data|] == data;
  }

  lemma HeldLength(rd: Reader, d: Dnode, data: seq<byte>, n: nat)
    requires Holds(rd, d, data, n)
    ensures |data| == BlockStart(d, n)
  {
  }

  /** A written fat object, stored in the blocks of a directory object of an image, lists
      exactly its entries, with the object ids of their values' first eight bytes. */
  lemma StoredDirectoryLists(rd: Reader, meta: Dnode, e: Endian, id: nat, d: Dnode, o: Object)
    requires o.Ok() && MosDnode(rd, meta, e, id) == Some(d)
    requires d.DataBlockSize() > 0 && Holds(rd, d, o.Print(), ZapBlocks(d))
    ensures var entries, listing := ListedRegions(o.regions), DirListing(rd, meta, e, id);
            |listing| == |entries| && forall i :: 0 <= i < |entries| ==>
              listing[i].name == entries[i].name
              && listing[i].value == BeNat(Take(entries[i].value, 8)) % 0x1_0000_0000_0000
  {
    hide MosDnode, ZapObject, Listing, ListedRegions, Holds, ZapBlocks, Object.Print;
    HeldObjectReads(rd, d, o.Print());
    WrittenObjectLists(o);
  }

  /** The same for a written micro object. */
  lemma StoredMicroLists(rd: Reader, meta: Dnode, e: Endian, id: nat, d: Dnode, header: seq<byte>,
                         slots: seq<ZapStore.Slot>, pad: seq<byte>)
    requires |header| == MZAP_HDR_SIZE && Le64(header, 0) == ZBT_MICRO && AllSlots(slots) && |pad| < MZAP_ENT_SIZE
    requires MosDnode(rd, meta, e, id) == Some(d) && d.DataBlockSize() > 0
    requires Holds(rd, d, header + PrintSlots(slots) + pad, ZapBlocks(d))
    ensures DirListing(rd, meta, e, id) == Masked(ListedSlots(slots))
    ensures var entries, listing := ListedSlots(slots), DirListing(rd, meta, e, id);
            |listing| == |entries| && forall i :: 0 <= i < |entries| ==>
              listing[i] == Named(entries[i].name, entries[i].value % 0x1_0000_0000_0000)
  {
    hide MosDnode, ZapObject, Listing, ListedSlots, Holds, ZapBlocks, PrintSlots, AllSlots;
    HeldObjectReads(rd, d, header + PrintSlots(slots) + pad);
    WrittenMicroLists(header, slots, pad);
  }
}
