/** The generational cache (cache/cache.go): a newest-first list of transactions,
    each a directory of entry files, bounded by numTx and recorded in the control
    file cache.json inside the cache directory. */
module Cache {
  import opened Common
  import opened Codec
  import Numerals
  import opened Disk

  const CtlName: Str := [99, 97, 99, 104, 101, 46, 106, 115, 111, 110]  // cache.json

  /** Tx: Name and CreateAt are saved in the control file; dir is derived from Name. */
  datatype Tx = Tx(name: Str, createAt: Str, dir: Path)

  /** A transaction's name: its creation time in milliseconds, in base 16. */
  function TxName(millis: int): (name: Str)
    ensures |name| >= 1
    ensures forall i :: 0 <= i < |name| ==> Numerals.IsLowerHex(name[i]) || name[i] == Numerals.Minus
  {
    Numerals.FormatInt(millis, 16)
  }

  /** No transaction is called like the control file: cache.json is not a base-16 numeral. */
  lemma TxNameNotCtl(millis: int)
    ensures TxName(millis) != CtlName
  {
    assert !Numerals.IsLowerHex(CtlName[5]) && CtlName[5] != Numerals.Minus;
  }

  /** Transactions created at distinct milliseconds get distinct names, hence distinct directories. */
  lemma TxNamesDistinct(dir: Path, a: int, b: int)
    requires a != b
    ensures TxName(a) != TxName(b)
    ensures Join(dir, TxName(a)) != Join(dir, TxName(b))
  {
    Numerals.FormatIntInjective(a, b, 16);
    assert Join(dir, TxName(a))[|dir|] == TxName(a);
  }

  /** newTx: creates the transaction directory dir/name. */
  method NewTx(fs: FileSystem, dir: Path, name: Str, createAt: Str) returns (r: Result<Tx>)
    modifies fs
    ensures r.Ok? <==> old(fs.CanMkdir(Join(dir, name)))
    ensures r.Ok? ==> r.value == Tx(name, createAt, Join(dir, name))
    ensures r.Err? ==> r.error == IoFailure(Join(dir, name))
    ensures fs.nodes == if r.Ok? then MadeDirs(old(fs.nodes), Join(dir, name)) else old(fs.nodes)
  {
    var p := Join(dir, name);
    var o := fs.MkdirAll(p);
    if o.Fail? {
      return Err(o.error);
    }
    r := Ok(Tx(name, createAt, p));
  }

  // ---------------------------------------------------------------- retention

  /** The transactions discard keeps: the first n. */
  function Keep(trans: seq<Tx>, n: nat): (kept: seq<Tx>)
    ensures |kept| == Min(n, |trans|) && kept <= trans
  {
    if |trans| <= n then trans else trans[..n]
  }

  /** The transactions discard removes: all after the first n, in order. */
  function Evicted(trans: seq<Tx>, n: nat): (gone: seq<Tx>)
    ensures Keep(trans, n) + gone == trans
  {
    if |trans| <= n then [] else trans[n..]
  }

  function Dirs(txs: seq<Tx>): (ds: seq<Path>)
    ensures |ds| == |txs| && forall i :: 0 <= i < |txs| ==> ds[i] == txs[i].dir
  {
    seq(|txs|, i requires 0 <= i < |txs| => txs[i].dir)
  }

  /** os.RemoveAll applied to each of dirs in turn, stopping at the first failure:
      the error (or nil) and the filesystem left behind. */
  function RemoveEach(nodes: map<Path, Node>, broken: set<Path>, dirs: seq<Path>): (Outcome, map<Path, Node>)
  {
    if dirs == [] then (Pass, nodes)
    else if dirs[0] in broken then (Fail(IoFailure(dirs[0])), nodes)
    else RemoveEach(Without(nodes, dirs[0]), broken, dirs[1..])
  }

  /** The index of the first broken path in dirs, or |dirs|. */
  function FirstBroken(dirs: seq<Path>, broken: set<Path>): (k: nat)
    ensures k <= |dirs|
    ensures forall i :: 0 <= i < k ==> dirs[i] !in broken
    ensures k < |dirs| ==> dirs[k] in broken
  {
    if dirs == [] || dirs[0] in broken then 0 else 1 + FirstBroken(dirs[1..], broken)
  }

  /** nodes without every path at or below one of dirs. */
  function RemovedAll(nodes: map<Path, Node>, dirs: seq<Path>): (m: map<Path, Node>)
    ensures forall q :: q in m <==> q in nodes && forall i :: 0 <= i < |dirs| ==> !(dirs[i] <= q)
    ensures forall q :: q in m ==> m[q] == nodes[q]
  {
    map q | q in nodes && (forall i :: 0 <= i < |dirs| ==> !(dirs[i] <= q)) :: nodes[q]
  }

  lemma RemovedAllCons(nodes: map<Path, Node>, d: Path, dirs: seq<Path>)
    ensures RemovedAll(Without(nodes, d), dirs) == RemovedAll(nodes, [d] + dirs)
  {
    var a, b := RemovedAll(Without(nodes, d), dirs), RemovedAll(nodes, [d] + dirs);
    var dds := [d] + dirs;
    forall q
      ensures q in a <==> q in b
    {
      if q in b {
        assert dds[0] == d;
        forall i | 0 <= i < |dirs|
          ensures !(dirs[i] <= q)
        {
          assert dirs[i] == dds[i + 1];
        }
      }
      if q in a {
        forall i | 0 <= i < |dds|
          ensures !(dds[i] <= q)
        {
          if i > 0 {
            assert dds[i] == dirs[i - 1];
          }
        }
      }
    }
    assert a == b;
  }

  /** RemoveEach in closed form: the directories before the first broken one are
      gone, that one's error is returned; with none broken, all are gone. */
  lemma {:induction false} RemoveEachClosedForm(nodes: map<Path, Node>, broken: set<Path>, dirs: seq<Path>)
    ensures var k := FirstBroken(dirs, broken);
      RemoveEach(nodes, broken, dirs)
        == if k < |dirs| then (Fail(IoFailure(dirs[k])), RemovedAll(nodes, dirs[..k]))
           else (Pass, RemovedAll(nodes, dirs))
    decreases |dirs|
  {
    if dirs == [] {
      assert RemovedAll(nodes, dirs) == nodes;
    } else if dirs[0] in broken {
      assert RemovedAll(nodes, dirs[..0]) == nodes;
    } else {
      var k := FirstBroken(dirs, broken);
      RemoveEachClosedForm(Without(nodes, dirs[0]), broken, dirs[1..]);
      if k < |dirs| {
        RemovedAllCons(nodes, dirs[0], dirs[1..][..k - 1]);
        assert [dirs[0]] + dirs[1..][..k - 1] == dirs[..k];
      } else {
        RemovedAllCons(nodes, dirs[0], dirs[1..]);
        assert [dirs[0]] + dirs[1..] == dirs;
      }
    }
  }

  /** Running RemoveEach over ds then more is running it over ds + more. */
  lemma {:induction false} RemoveEachAppend(nodes: map<Path, Node>, broken: set<Path>, ds: seq<Path>, more: seq<Path>)
    ensures var r := RemoveEach(nodes, broken, ds);
      RemoveEach(nodes, broken, ds + more) == if r.0.Fail? then r else RemoveEach(r.1, broken, more)
    decreases |ds|
  {
    if ds == [] {
      assert ds + more == more;
    } else {
      assert (ds + more)[0] == ds[0] && (ds + more)[1..] == ds[1..] + more;
      if ds[0] !in broken {
        RemoveEachAppend(Without(nodes, ds[0]), broken, ds[1..], more);
      }
    }
  }

  /** The transactions after a successful NewTransaction: the new one in front, then
      the first numTx of the result kept. */
  function Push(trans: seq<Tx>, t: Tx, n: nat): (r: seq<Tx>)
    ensures |r| <= n && (n >= 1 ==> |r| >= 1 && r[0] == t)
  {
    Keep([t] + trans, n)
  }

  function Reverse<T>(s: seq<T>): (r: seq<T>)
    ensures |r| == |s| && forall i :: 0 <= i < |s| ==> r[i] == s[|s| - 1 - i]
  {
    if s == [] then [] else [s[|s| - 1]] + Reverse(s[..|s| - 1])
  }

  /** The transactions left after creating each of created in turn from none. */
  function Replay(created: seq<Tx>, n: nat): seq<Tx>
  {
    if created == [] then [] else Push(Replay(created[..|created| - 1], n), created[|created| - 1], n)
  }

  /** Retention: the cache holds the last n transactions created, newest first. */
  lemma {:induction false} ReplayKeepsNewest(created: seq<Tx>, n: nat)
    ensures Replay(created, n) == Reverse(created)[..Min(n, |created|)]
  {
    if created != [] {
      var init, last := created[..|created| - 1], created[|created| - 1];
      ReplayKeepsNewest(init, n);
      var r, rev := Replay(created, n), Reverse(created);
      var m := Min(n, |created|);
      assert |r| == m;
      forall i | 0 <= i < m
        ensures r[i] == rev[i]
      {
        if i > 0 {
          assert r[i] == ([last] + Replay(init, n))[i];
          assert Replay(init, n)[i - 1] == Reverse(init)[i - 1];
        }
      }
    }
  }

  /** What NewTransaction leaves behind, from the list and the filesystem before it: the
      reply, the list and the filesystem. If the directory cannot be made nothing
      changes. Otherwise the new transaction goes in front and discard runs; if discard
      fails its error is returned, the list is not cut and the control file is not
      saved. Otherwise the list is cut to numTx and the control file is written. */
  function Created(dir: Path, numTx: nat, broken: set<Path>, trans: seq<Tx>, nodes: map<Path, Node>,
                   millis: int, createAt: Str): (e: (Result<Tx>, seq<Tx>, map<Path, Node>))
    ensures var p := Join(dir, TxName(millis));
      !CanMkdirIn(nodes, broken, p) ==> e == (Err(IoFailure(p)), trans, nodes)
    ensures e.0.Ok? ==> e.0.value == Tx(TxName(millis), createAt, Join(dir, TxName(millis)))
    ensures e.0.Ok? ==>
      && e.1 == Push(trans, e.0.value, numTx)
      && Join(dir, CtlName) in e.2 && e.2[Join(dir, CtlName)] == Regular(EncodeCtl(RecordsOf(e.1)))
    ensures e.1 == trans || e.1 == [Tx(TxName(millis), createAt, Join(dir, TxName(millis)))] + trans
         || e.1 == Push(trans, Tx(TxName(millis), createAt, Join(dir, TxName(millis))), numTx)
  {
    var name := TxName(millis);
    var p := Join(dir, name);
    if !CanMkdirIn(nodes, broken, p) then (Err(IoFailure(p)), trans, nodes)
    else
      var t := Tx(name, createAt, p);
      var run := RemoveEach(MadeDirs(nodes, p), broken, Dirs(Evicted([t] + trans, numTx)));
      if run.0.Fail? then (Err(run.0.error), [t] + trans, run.1)
      else
        var kept := Push(trans, t, numTx);
        var c := Join(dir, CtlName);
        if CanCreateIn(run.1, broken, c) then (Ok(t), kept, run.1[c := Regular(EncodeCtl(RecordsOf(kept)))])
        else (Err(CreateErrorIn(run.1, broken, c)), kept, run.1)
  }

  /** The first transaction of an empty cache: with room for one and a directory that can
      be made, the list becomes that one transaction and its directory is there. */
  lemma CreatedFirst(dir: Path, numTx: nat, broken: set<Path>, nodes: map<Path, Node>, millis: int, createAt: Str)
    requires numTx >= 1 && CanMkdirIn(nodes, broken, Join(dir, TxName(millis)))
    ensures var e := Created(dir, numTx, broken, [], nodes, millis, createAt);
      && e.1 == [Tx(TxName(millis), createAt, Join(dir, TxName(millis)))]
      && IsDirIn(e.2, Join(dir, TxName(millis)))
  {
    var p := Join(dir, TxName(millis));
    var t := Tx(TxName(millis), createAt, p);
    MadeDirsNodes(nodes, p);
    assert p in Ancestry(p);
    assert Evicted([t], numTx) == [];
    TxNameNotCtl(millis);
  }

  /** Every transaction NewTransaction leaves in the list lives in the directory named after it. */
  lemma CreatedFollowsNames(dir: Path, numTx: nat, broken: set<Path>, trans: seq<Tx>, nodes: map<Path, Node>,
                            millis: int, createAt: Str)
    requires DirsFollowNames(dir, trans)
    ensures DirsFollowNames(dir, Created(dir, numTx, broken, trans, nodes, millis, createAt).1)
  {
    var t := Tx(TxName(millis), createAt, Join(dir, TxName(millis)));
    var grown := [t] + trans;
    forall i | 0 <= i < |grown|
      ensures grown[i].dir == Join(dir, grown[i].name)
    {
      if i > 0 {
        assert grown[i] == trans[i - 1];
      }
    }
    var kept := Push(trans, t, numTx);
    forall i | 0 <= i < |kept|
      ensures kept[i].dir == Join(dir, kept[i].name)
    {
      assert kept[i] == grown[i];
    }
  }

  // ---------------------------------------------------------------- control file

  // The member names of the control file, as the json tags of Cache and Tx spell them.
  const TransactionsName: Str := [116, 114, 97, 110, 115, 97, 99, 116, 105, 111, 110, 115]  // transactions
  const NameName: Str := [110, 97, 109, 101]  // name
  const CreateAtName: Str := [99, 114, 101, 97, 116, 101, 95, 97, 116]  // create_at

  /** A saved transaction: {"name":...,"create_at":...}; dir is not saved. */
  function EncodeRecord(r: (Str, Str)): (e: Bytes)
    ensures |e| >= 2 && e[0] == OpenBrace
  {
    EncodeObject([NameName, CreateAtName], [Text(r.0), Text(r.1)])
  }

  function DecodeRecord(t: Bytes): Option<((Str, Str), Bytes)>
  {
    var p :- DecodeObject([NameName, CreateAtName], [TextKind, TextKind], t);
    if |p.0| == 2 && p.0[0].Text? && p.0[1].Text? then Some(((p.0[0].s, p.0[1].s), p.1)) else None
  }

  lemma RecordRoundTrip(r: (Str, Str), rest: Bytes)
    ensures DecodeRecord(EncodeRecord(r) + rest) == Some((r, rest))
  {
    var vs := [Text(r.0), Text(r.1)];
    assert KindsOf(vs) == [TextKind, TextKind];
    ObjectRoundTrip([NameName, CreateAtName], vs, rest);
  }

  const CtlHead: Bytes := [OpenBrace] + EncodeStr(TransactionsName) + [Colon]

  /** The control file: {"transactions":[...]}, what jsonb.Save writes for a Cache. */
  function EncodeCtl(records: seq<(Str, Str)>): Bytes
  {
    CtlHead + EncodeSeq(records, EncodeRecord, OpenBracket, CloseBracket) + [CloseBrace]
  }

  /** What jsonb.Load reads back: the saved records, with nothing but blanks after them. */
  function DecodeCtl(t: Bytes): Option<seq<(Str, Str)>>
  {
    var t1 :- Expect(CtlHead, t);
    var p :- DecodeSeq(t1, DecodeRecord, OpenBracket, CloseBracket);
    var t2 :- Expect([CloseBrace], p.1);
    if SkipBlanks(t2) == [] then Some(p.0) else None
  }

  lemma RecordCodec()
    ensures ItemCodec(EncodeRecord, DecodeRecord, CloseBracket)
  {
    forall r, rest ensures DecodeRecord(EncodeRecord(r) + rest) == Some((r, rest)) {
      RecordRoundTrip(r, rest);
    }
  }

  lemma CtlList(records: seq<(Str, Str)>)
    ensures DecodeSeq(EncodeSeq(records, EncodeRecord, OpenBracket, CloseBracket) + [CloseBrace],
                      DecodeRecord, OpenBracket, CloseBracket) == Some((records, [CloseBrace]))
  {
    RecordCodec();
    SeqRoundTrip(records, EncodeRecord, DecodeRecord, OpenBracket, CloseBracket, [CloseBrace]);
  }

  /** The control file gives back the records it was saved from. */
  lemma CtlRoundTrip(records: seq<(Str, Str)>)
    ensures DecodeCtl(EncodeCtl(records)) == Some(records)
  {
    var list := EncodeSeq(records, EncodeRecord, OpenBracket, CloseBracket);
    assert EncodeCtl(records) == CtlHead + (list + [CloseBrace]) by {
      Assoc(CtlHead, list, [CloseBrace]);
    }
    ExpectLit(CtlHead, list + [CloseBrace]);
    CtlList(records);
    ExpectLit([CloseBrace], []);
  }

  function RecordsOf(trans: seq<Tx>): (rs: seq<(Str, Str)>)
    ensures |rs| == |trans| && forall i :: 0 <= i < |trans| ==> rs[i] == (trans[i].name, trans[i].createAt)
  {
    seq(|trans|, i requires 0 <= i < |trans| => (trans[i].name, trans[i].createAt))
  }

  /** The transactions a control file's records stand for: loadCtlFile sets each dir from its name. */
  function FromRecords(dir: Path, rs: seq<(Str, Str)>): (trans: seq<Tx>)
    ensures |trans| == |rs|
    ensures forall i :: 0 <= i < |rs| ==> trans[i] == Tx(rs[i].0, rs[i].1, Join(dir, rs[i].0))
  {
    seq(|rs|, i requires 0 <= i < |rs| => Tx(rs[i].0, rs[i].1, Join(dir, rs[i].0)))
  }

  /** Every transaction lives in the directory named after it. */
  predicate DirsFollowNames(dir: Path, trans: seq<Tx>)
  {
    forall i :: 0 <= i < |trans| ==> trans[i].dir == Join(dir, trans[i].name)
  }

  /** Saving then loading the control file gives back the same transactions. */
  lemma SaveLoadTransactions(dir: Path, trans: seq<Tx>)
    requires DirsFollowNames(dir, trans)
    ensures DecodeCtl(EncodeCtl(RecordsOf(trans))) == Some(RecordsOf(trans))
    ensures FromRecords(dir, RecordsOf(trans)) == trans
  {
    CtlRoundTrip(RecordsOf(trans));
  }

  /** The position of the first transaction called name, or |trans|. */
  function Find(trans: seq<Tx>, name: Str): (k: nat)
    ensures k <= |trans|
    ensures forall i :: 0 <= i < k ==> trans[i].name != name
    ensures k < |trans| ==> trans[k].name == name
  {
    if trans == [] || trans[0].name == name then 0 else 1 + Find(trans[1..], name)
  }

  class Cache {
    const dir: Path
    const numTx: nat
    var trans: seq<Tx>
    const disk: FileSystem

    constructor (dir: Path, numTx: nat, disk: FileSystem)
      ensures this.dir == dir && this.numTx == numTx && this.disk == disk && trans == []
    {
      this.dir := dir;
      this.numTx := numTx;
      this.disk := disk;
      trans := [];
    }

    predicate Valid()
      reads this
    {
      DirsFollowNames(dir, trans)
    }

    function CtlPath(): Path
    {
      Join(dir, CtlName)
    }

    /** discard: removes the directories of the transactions past the first numTx, in
        order, then drops them from trans. A failed removal is returned at once: the
        directories before it are gone but trans is not truncated. */
    method Discard() returns (o: Outcome)
      modifies this, disk
      ensures var run := RemoveEach(old(disk.nodes), disk.broken, Dirs(Evicted(old(trans), numTx)));
        o == run.0 && disk.nodes == run.1 && trans == if o.Pass? then Keep(old(trans), numTx) else old(trans)
      ensures old(Valid()) ==> Valid()
    {
      if |trans| <= numTx {
        return Pass;
      }
      ghost var dirs := Dirs(trans[numTx..]);
      var i := numTx;
      while i < |trans|
        invariant numTx <= i <= |trans| && trans == old(trans)
        invariant RemoveEach(old(disk.nodes), disk.broken, dirs[..i - numTx]) == (Pass, disk.nodes)
      {
        ghost var before := disk.nodes;
        o := disk.RemoveAll(trans[i].dir);
        RemoveEachAppend(old(disk.nodes), disk.broken, dirs[..i - numTx], [trans[i].dir]);
        assert dirs[..i - numTx] + [trans[i].dir] == dirs[..i + 1 - numTx];
        if o.Fail? {
          RemoveEachAppend(old(disk.nodes), disk.broken, dirs[..i + 1 - numTx], dirs[i + 1 - numTx..]);
          assert dirs[..i + 1 - numTx] + dirs[i + 1 - numTx..] == dirs;
          return;
        }
        i := i + 1;
      }
      assert dirs[..i - numTx] == dirs;
      trans := trans[..numTx];
      o := Pass;
    }

    /** saveCtlFile: writes the control file from trans. */
    method SaveCtlFile() returns (o: Outcome)
      modifies disk
      ensures o.Pass? <==> old(disk.CanCreate(CtlPath()))
      ensures o.Fail? ==> o.error == old(disk.CreateError(CtlPath()))
      ensures disk.nodes == if o.Pass? then old(disk.nodes)[CtlPath() := Regular(EncodeCtl(RecordsOf(trans)))]
                            else old(disk.nodes)
    {
      o := disk.WriteFile(CtlPath(), EncodeCtl(RecordsOf(trans)));
    }

    /** loadCtlFile: reads the control file, then sets each transaction's dir from its name.
        A read error is returned as is; contents that do not decode are Malformed. */
    method LoadCtlFile() returns (o: Outcome)
      modifies this
      ensures disk.Read(CtlPath()).Err? ==> o == Fail(disk.Read(CtlPath()).error) && trans == old(trans)
      ensures disk.Read(CtlPath()).Ok? && DecodeCtl(disk.Read(CtlPath()).value).None? ==>
        o == Fail(Malformed(CtlPath())) && trans == old(trans)
      ensures disk.Read(CtlPath()).Ok? && DecodeCtl(disk.Read(CtlPath()).value).Some? ==>
        o == Pass && trans == FromRecords(dir, DecodeCtl(disk.Read(CtlPath()).value).value)
      ensures o.Pass? ==> Valid()
    {
      var data := disk.Read(CtlPath());
      if data.Err? {
        return Fail(data.error);
      }
      var rs := DecodeCtl(data.value);
      if rs.None? {
        return Fail(Malformed(CtlPath()));
      }
      FixDirs(rs.value);
      o := Pass;
    }

    /** The dir fix-up of loadCtlFile: decoded transactions carry no dir; each gets dir/name. */
    method FixDirs(rs: seq<(Str, Str)>)
      modifies this
      ensures trans == FromRecords(dir, rs)
    {
      trans := seq(|rs|, i requires 0 <= i < |rs| => Tx(rs[i].0, rs[i].1, []));
      var i := 0;
      while i < |trans|
        invariant 0 <= i <= |trans| == |rs|
        invariant forall j :: 0 <= j < i ==> trans[j] == Tx(rs[j].0, rs[j].1, Join(dir, rs[j].0))
        invariant forall j :: i <= j < |trans| ==> trans[j] == Tx(rs[j].0, rs[j].1, [])
      {
        trans := trans[i := trans[i].(dir := Join(dir, trans[i].name))];
        i := i + 1;
      }
    }

    /** NewTransaction: creates the directory of a transaction named after the clock,
        puts it in front of trans, discards the excess and saves the control file. */
    method NewTransaction(millis: int, createAt: Str) returns (r: Result<Tx>)
      modifies this, disk
      ensures (r, trans, disk.nodes) == Created(dir, numTx, disk.broken, old(trans), old(disk.nodes), millis, createAt)
      ensures old(Valid()) ==> Valid()
    {
      ghost var e := Created(dir, numTx, disk.broken, trans, disk.nodes, millis, createAt);
      if Valid() {
        CreatedFollowsNames(dir, numTx, disk.broken, trans, disk.nodes, millis, createAt);
      }
      var name := TxName(millis);
      var made := NewTx(disk, dir, name, createAt);
      if made.Err? {
        return Err(made.error);
      }
      var t := made.value;
      trans := [t] + trans;
      var o := Discard();
      if o.Fail? {
        assert (Err(o.error), trans, disk.nodes) == e;
        return Err(o.error);
      }
      assert trans == e.1;
      assert disk.CanCreate(CtlPath()) == CanCreateIn(disk.nodes, disk.broken, Join(dir, CtlName));
      o := SaveCtlFile();
      if o.Fail? {
        return Err(o.error);
      }
      r := Ok(t);
    }

    /** GetLastTransaction: the newest transaction. With none, one is created and its
        error ignored; Go then indexes Trans[0], so the call needs numTx >= 1 and a
        directory that can be made. */
    method GetLastTransaction(millis: int, createAt: Str) returns (t: Tx)
      requires |trans| > 0 || (numTx >= 1 && disk.CanMkdir(Join(dir, TxName(millis))))
      modifies this, disk
      ensures |old(trans)| > 0 ==> t == old(trans)[0] && trans == old(trans) && disk.nodes == old(disk.nodes)
      ensures |old(trans)| == 0 ==> t == Tx(TxName(millis), createAt, Join(dir, TxName(millis))) && trans == [t]
      ensures |old(trans)| == 0 ==>
        && disk.nodes == Created(dir, numTx, disk.broken, [], old(disk.nodes), millis, createAt).2
        && IsDirIn(disk.nodes, Join(dir, TxName(millis)))
      ensures old(Valid()) ==> Valid()
    {
      if |trans| == 0 {
        CreatedFirst(dir, numTx, disk.broken, disk.nodes, millis, createAt);
        var _ := NewTransaction(millis, createAt);
      }
      t := trans[0];
    }

    /** GetTransaction: the first transaction called name, or errNoSuchTx wrapped with the name. */
    method GetTransaction(name: Str) returns (r: Result<Tx>)
      ensures r.Ok? <==> exists i :: 0 <= i < |trans| && trans[i].name == name
      ensures r.Ok? ==> r.value.name == name && r.value == trans[Find(trans, name)]
      ensures r.Err? ==> r.error == NoSuchTx(name)
    {
      var i := 0;
      while i < |trans|
        invariant 0 <= i <= |trans|
        invariant forall j :: 0 <= j < i ==> trans[j].name != name
      {
        if trans[i].name == name {
          assert Find(trans, name) == i by { FindFirst(trans, name, i); }
          return Ok(trans[i]);
        }
        i := i + 1;
      }
      r := Err(NoSuchTx(name));
    }
  }

  lemma FindFirst(trans: seq<Tx>, name: Str, i: nat)
    requires i < |trans| && trans[i].name == name
    requires forall j :: 0 <= j < i ==> trans[j].name != name
    ensures Find(trans, name) == i
  {
  }

  /** New: a missing control file (ENOENT) is an empty cache, any other load error is
      returned; then the excess transactions are discarded, without saving. */
  method New(dir: Path, numTx: nat, disk: FileSystem) returns (r: Result<Cache>)
    modifies disk
    ensures r.Ok? ==> fresh(r.value) && r.value.dir == dir && r.value.numTx == numTx && r.value.disk == disk && r.value.Valid()
    ensures var ctl := old(disk.Read(Join(dir, CtlName)));
      ctl.Err? && ctl.error != NotExist(Join(dir, CtlName)) ==> r == Err(ctl.error) && disk.nodes == old(disk.nodes)
    ensures old(disk.Read(Join(dir, CtlName))) == Err(NotExist(Join(dir, CtlName))) ==>
      r.Ok? && r.value.trans == [] && disk.nodes == old(disk.nodes)
    ensures var ctl := old(disk.Read(Join(dir, CtlName)));
      ctl.Ok? && DecodeCtl(ctl.value).None? ==> r == Err(Malformed(Join(dir, CtlName))) && disk.nodes == old(disk.nodes)
    ensures var ctl := old(disk.Read(Join(dir, CtlName)));
      ctl.Ok? && DecodeCtl(ctl.value).Some? ==>
        var trans := FromRecords(dir, DecodeCtl(ctl.value).value);
        var run := RemoveEach(old(disk.nodes), disk.broken, Dirs(Evicted(trans, numTx)));
        disk.nodes == run.1 &&
        (run.0.Fail? ==> r == Err(run.0.error)) &&
        (run.0.Pass? ==> r.Ok? && r.value.trans == Keep(trans, numTx))
  {
    var c := new Cache(dir, numTx, disk);
    var o := c.LoadCtlFile();
    if o.Fail? && o.error != NotExist(c.CtlPath()) {
      return Err(o.error);
    }
    o := c.Discard();
    if o.Fail? {
      return Err(o.error);
    }
    r := Ok(c);
  }
}
