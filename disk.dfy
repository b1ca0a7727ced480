/** The filesystem the cache lives on: a map from path to directory or file.
    Which operations fail is fixed by the set of broken paths (permissions,
    I/O errors); an operation on a broken path fails and changes nothing. */
module Disk {
  import opened Common

  datatype Node = Dir | Regular(data: Bytes)

  /** What is left of nodes once p and everything below it is removed. */
  function Without(nodes: map<Path, Node>, p: Path): (m: map<Path, Node>)
    ensures forall q :: q in m <==> q in nodes && !(p <= q)
    ensures forall q :: q in m ==> m[q] == nodes[q]
  {
    map q | q in nodes && !(p <= q) :: nodes[q]
  }

  /** The directory p lives in; [] is the working directory, which always exists. */
  function Parent(p: Path): (d: Path)
    ensures p != [] ==> |d| == |p| - 1 && d == p[..|p| - 1]
  {
    if p == [] then [] else p[..|p| - 1]
  }

  /** p is the working directory or a directory in nodes. */
  predicate IsDirIn(nodes: map<Path, Node>, p: Path)
  {
    p == [] || (p in nodes && nodes[p].Dir?)
  }

  /** Every directory on the way to p, p included: its non-empty prefixes. */
  function Ancestry(p: Path): (ps: set<Path>)
    ensures forall q :: q in ps <==> 1 <= |q| <= |p| && q == p[..|q|]
  {
    set k | 1 <= k <= |p| :: p[..k]
  }

  /** nodes once every missing directory on the way to p, p included, has been made. */
  function MadeDirs(nodes: map<Path, Node>, p: Path): map<Path, Node>
  {
    map q | q in nodes.Keys + Ancestry(p) :: if q in nodes then nodes[q] else Dir
  }

  /** MkdirAll keeps every node there was and adds only directories on the way to p;
      where none of those was a file, all of them are directories afterwards. */
  lemma MadeDirsNodes(nodes: map<Path, Node>, p: Path)
    ensures var m := MadeDirs(nodes, p);
      && (forall q :: q in m <==> q in nodes || q in Ancestry(p))
      && (forall q :: q in nodes ==> m[q] == nodes[q])
      && (forall q :: q in m && q !in nodes ==> m[q] == Dir)
      && ((forall q :: q in Ancestry(p) && q in nodes ==> nodes[q].Dir?) ==>
            forall q :: q in Ancestry(p) ==> IsDirIn(m, q))
  {
  }

  /** os.MkdirAll succeeds unless the path is broken or it or a directory on the way
      to it is a file. */
  predicate CanMkdirIn(nodes: map<Path, Node>, broken: set<Path>, p: Path)
  {
    p !in broken && forall q :: q in Ancestry(p) && q in nodes ==> nodes[q].Dir?
  }

  /** os.Create succeeds unless the path is broken, is a directory, or its parent is not
      a directory. */
  predicate CanCreateIn(nodes: map<Path, Node>, broken: set<Path>, p: Path)
  {
    p !in broken && !(p in nodes && nodes[p].Dir?) && IsDirIn(nodes, Parent(p))
  }

  /** The error os.Create returns when it fails: ENOENT when the parent is missing. */
  function CreateErrorIn(nodes: map<Path, Node>, broken: set<Path>, p: Path): (e: Error)
    ensures e.NotExist? ==> p !in broken && Parent(p) != [] && Parent(p) !in nodes
  {
    if p !in broken && Parent(p) != [] && Parent(p) !in nodes then NotExist(p) else IoFailure(p)
  }

  class FileSystem {
    var nodes: map<Path, Node>
    const broken: set<Path>

    constructor (nodes: map<Path, Node>, broken: set<Path>)
      ensures this.nodes == nodes && this.broken == broken
    {
      this.nodes := nodes;
      this.broken := broken;
    }

    predicate CanMkdir(p: Path)
      reads this
    {
      CanMkdirIn(nodes, broken, p)
    }

    predicate CanCreate(p: Path)
      reads this
    {
      CanCreateIn(nodes, broken, p)
    }

    function CreateError(p: Path): Error
      reads this
    {
      CreateErrorIn(nodes, broken, p)
    }

    /** os.Stat(p) returns no error. */
    predicate Exists(p: Path)
      reads this
    {
      p in nodes && p !in broken
    }

    /** os.Open followed by reading to the end. */
    function Read(p: Path): (r: Result<Bytes>)
      reads this
      ensures r.Ok? <==> p !in broken && p in nodes && nodes[p].Regular?
      ensures r.Ok? ==> r.value == nodes[p].data
      ensures p !in broken && p !in nodes ==> r == Err(NotExist(p))
    {
      if p in broken then Err(IoFailure(p))
      else if p !in nodes then Err(NotExist(p))
      else if nodes[p].Dir? then Err(IoFailure(p))
      else Ok(nodes[p].data)
    }

    /** os.MkdirAll(p, 0755): p and every missing directory on the way to it are made. */
    method MkdirAll(p: Path) returns (o: Outcome)
      modifies this
      ensures o.Pass? <==> old(CanMkdir(p))
      ensures o.Fail? ==> o.error == IoFailure(p)
      ensures nodes == if o.Pass? then MadeDirs(old(nodes), p) else old(nodes)
      ensures o.Pass? ==> forall q :: q in Ancestry(p) ==> IsDirIn(nodes, q)
    {
      if CanMkdir(p) {
        MadeDirsNodes(nodes, p);
        nodes := MadeDirs(nodes, p);
        o := Pass;
      } else {
        o := Fail(IoFailure(p));
      }
    }

    /** os.RemoveAll(p): removes p and everything below it; a missing p is not an error. */
    method RemoveAll(p: Path) returns (o: Outcome)
      modifies this
      ensures o == if p in broken then Fail(IoFailure(p)) else Pass
      ensures nodes == if p in broken then old(nodes) else Without(old(nodes), p)
    {
      if p in broken {
        o := Fail(IoFailure(p));
      } else {
        nodes := Without(nodes, p);
        o := Pass;
      }
    }

    /** os.Create(p) followed by writing data. */
    method WriteFile(p: Path, data: Bytes) returns (o: Outcome)
      modifies this
      ensures o.Pass? <==> old(CanCreate(p))
      ensures o.Fail? ==> o.error == old(CreateError(p))
      ensures nodes == if o.Pass? then old(nodes)[p := Regular(data)] else old(nodes)
    {
      if CanCreate(p) {
        nodes := nodes[p := Regular(data)];
        o := Pass;
      } else {
        o := Fail(CreateError(p));
      }
    }
  }
}
