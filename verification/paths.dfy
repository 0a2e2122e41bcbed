/** Path resolution through directory listings (core/src/zpl.rs, zpl_lookup). */
module Paths {
  import opened Bytes
  import opened Zap

  const SLASH := 47

  /** A directory object's listing. */
  type Directory = u64 -> seq<Named<u64>>

  function Piece(name: seq<byte>): seq<seq<byte>> { if name == [] then [] else [name] }

  /** The non-empty pieces between slashes; `name` is the piece begun already. */
  function Split(path: seq<byte>, name: seq<byte>): seq<seq<byte>>
    decreases |path|
  {
    if path == [] then Piece(name)
    else if path[0] == SLASH then Piece(name) + Split(path[1..], [])
    else Split(path[1..], name + [path[0]])
  }

  function Components(path: seq<byte>): seq<seq<byte>> { Split(path, []) }

  function Resolve(dir: Directory, at: u64, names: seq<seq<byte>>): Option<u64>
    decreases |names|
  {
    if names == [] then Some(at)
    else
      match Find(dir(at), names[0])
      case None => None
      case Some(next) => Resolve(dir, next, names[1..])
  }

  method ZplLookup(dir: Directory, root: u64, path: seq<byte>) returns (r: Option<u64>)
    ensures r == Resolve(dir, root, Components(path))
  {
    var names := Components(path);
    var current := root;
    var k := 0;
    while k < |names|
      invariant 0 <= k <= |names|
      invariant Resolve(dir, current, names[k..]) == Resolve(dir, root, names)
    {
      assert names[k..][0] == names[k] && names[k..][1..] == names[k + 1..];
      var next := Find(dir(current), names[k]);
      if next.None? { return None; }
      current := next.value;
      k := k + 1;
    }
    r := Some(current);
  }

  lemma {:induction false} SplitAtSlash(p: seq<byte>, q: seq<byte>, name: seq<byte>)
    ensures Split(p + [SLASH] + q, name) == Split(p, name) + Components(q)
    decreases |p|
  {
    if p == [] {
      assert p + [SLASH] + q == [SLASH] + q;
      SplitHead([SLASH], q);
    } else {
      SplitHead(p, [SLASH]);
      SplitHead(p + [SLASH], q);
      if p[0] == SLASH {
        SplitAtSlash(p[1..], q, []);
        Reassociate(Piece(name), Split(p[1..], []), Components(q));
      } else {
        SplitAtSlash(p[1..], q, name + [p[0]]);
      }
    }
  }

  lemma {:induction false} ResolveAppend(dir: Directory, at: u64, x: seq<seq<byte>>, y: seq<seq<byte>>)
    ensures Resolve(dir, at, x + y)
         == match Resolve(dir, at, x)
            case None => None
            case Some(mid) => Resolve(dir, mid, y)
    decreases |x|
  {
    if x == [] {
      assert x + y == y;
    } else {
      SplitHead(x, y);
      if Find(dir(at), x[0]).Some? {
        ResolveAppend(dir, Find(dir(at), x[0]).value, x[1..], y);
      }
    }
  }

  /** Resolving `p/q` is resolving `q` from where `p` leads, however many slashes meet. */
  lemma LookupComposes(dir: Directory, root: u64, p: seq<byte>, q: seq<byte>)
    ensures Resolve(dir, root, Components(p + [SLASH] + q))
         == match Resolve(dir, root, Components(p))
            case None => None
            case Some(mid) => Resolve(dir, mid, Components(q))
  {
    SplitAtSlash(p, q, []);
    ResolveAppend(dir, root, Components(p), Components(q));
  }

  predicate IsName(name: seq<byte>) { name != [] && forall i :: 0 <= i < |name| ==> name[i] != SLASH }

  function Join(names: seq<seq<byte>>): seq<byte> {
    if names == [] then [] else names[0] + [SLASH] + Join(names[1..])
  }

  lemma {:induction false} SplitName(rest: seq<byte>, begun: seq<byte>)
    requires forall i :: 0 <= i < |rest| ==> rest[i] != SLASH
    ensures Split(rest, begun) == Piece(begun + rest)
    decreases |rest|
  {
    if rest == [] {
      assert begun + rest == begun;
    } else {
      SplitName(rest[1..], begun + [rest[0]]);
      assert begun + [rest[0]] + rest[1..] == begun + rest;
    }
  }

  /** Joining names with slashes and taking the path apart gives the names back. */
  lemma {:induction false} JoinedComponents(names: seq<seq<byte>>)
    requires forall i :: 0 <= i < |names| ==> IsName(names[i])
    ensures Components(Join(names)) == names
    decreases |names|
  {
    if names == [] {
    } else {
      SplitAtSlash(names[0], Join(names[1..]), []);
      SplitName(names[0], []);
      assert [] + names[0] == names[0];
      JoinedComponents(names[1..]);
    }
  }

  lemma PieceStep(p: seq<byte>, q: seq<byte>)
    requires forall i :: 0 <= i < |p| ==> p[i] != 47
    ensures Components(p + [47] + q) == Piece(p) + Components(q)
  {
    SplitAtSlash(p, q, []);
    SplitName(p, []);
    assert [] + p == p;
  }

  /** Slashes are byte 47; empty pieces between them vanish. */
  lemma KnownPath()
    ensures Components([47, 97, 98, 47, 47, 99, 47]) == [[97, 98], [99]] && Components([]) == []
  {
    hide Components;
    var ab: seq<byte>, c: seq<byte>, none: seq<byte> := [97, 98], [99], [];
    EmptyPath();
    PieceStep(c, none);
    assert c + [47] + none == [99, 47];
    PieceStep(none, [99, 47]);
    assert none + [47] + [99, 47] == [47, 99, 47];
    PieceStep(ab, [47, 99, 47]);
    assert ab + [47] + [47, 99, 47] == [97, 98, 47, 47, 99, 47];
    PieceStep(none, [97, 98, 47, 47, 99, 47]);
    assert none + [47] + [97, 98, 47, 47, 99, 47] == [47, 97, 98, 47, 47, 99, 47];
  }

  lemma EmptyPath()
    ensures Components([]) == []
  {
  }
}
