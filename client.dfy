/** client.go: a Client joins one cache, one access gate and the transaction it works in.
    Do answers a request from the transaction's entry file, fetching and storing it first
    when it is missing. The network is an oracle: what the fetch returns, and how long it
    takes, are parameters. */
module Client {
  import opened Common
  import opened Disk
  import opened Entry
  import opened Gate
  import Cache

  class Client {
    const cache: Cache.Cache
    const mu: Mutex
    var tx: Option<Cache.Tx>

    constructor (cache: Cache.Cache, mu: Mutex)
      ensures this.cache == cache && this.mu == mu && tx == None
    {
      this.cache := cache;
      this.mu := mu;
      tx := None;
    }

    /** Client.NewTransaction: switches to a new transaction, only when the cache made one. */
    method NewTransaction(millis: int, createAt: Str) returns (o: Outcome)
      modifies this, cache, cache.disk
      ensures var e := Cache.Created(cache.dir, cache.numTx, cache.disk.broken, old(cache.trans), old(cache.disk.nodes), millis, createAt);
        && cache.trans == e.1 && cache.disk.nodes == e.2
        && (o.Pass? <==> e.0.Ok?)
        && (o.Pass? ==> tx == Some(e.0.value))
        && (o.Fail? ==> o.error == e.0.error && tx == old(tx))
      ensures o.Pass? ==> tx == Some(Cache.Tx(Cache.TxName(millis), createAt, Join(cache.dir, Cache.TxName(millis))))
      ensures o.Pass? ==> cache.trans == Cache.Push(old(cache.trans), tx.value, cache.numTx)
      ensures old(cache.Valid()) ==> cache.Valid()
    {
      var r := cache.NewTransaction(millis, createAt);
      if r.Err? {
        return Fail(r.error);
      }
      tx := Some(r.value);
      o := Pass;
    }

    /** Client.LastTransaction: resumes the newest transaction; GetLastTransaction has no
        error to report, so the switch always happens. */
    method LastTransaction(millis: int, createAt: Str) returns (o: Outcome)
      requires |cache.trans| > 0 || (cache.numTx >= 1 && cache.disk.CanMkdir(Join(cache.dir, Cache.TxName(millis))))
      modifies this, cache, cache.disk
      ensures o == Pass
      ensures |old(cache.trans)| > 0 ==> tx == Some(old(cache.trans)[0]) && cache.trans == old(cache.trans)
      ensures |old(cache.trans)| == 0 ==>
        tx == Some(Cache.Tx(Cache.TxName(millis), createAt, Join(cache.dir, Cache.TxName(millis)))) && cache.trans == [tx.value]
      ensures |old(cache.trans)| > 0 ==> cache.disk.nodes == old(cache.disk.nodes)
      ensures |old(cache.trans)| == 0 ==>
        && cache.disk.nodes == Cache.Created(cache.dir, cache.numTx, cache.disk.broken, [], old(cache.disk.nodes), millis, createAt).2
        && IsDirIn(cache.disk.nodes, Join(cache.dir, Cache.TxName(millis)))
      ensures old(cache.Valid()) ==> cache.Valid()
    {
      var t := cache.GetLastTransaction(millis, createAt);
      tx := Some(t);
      o := Pass;
    }

    /** Client.SetTransaction: switches to the transaction called name, if there is one. */
    method SetTransaction(name: Str) returns (o: Outcome)
      modifies this
      ensures o.Pass? <==> exists i :: 0 <= i < |cache.trans| && cache.trans[i].name == name
      ensures o.Pass? ==> tx == Some(cache.trans[Cache.Find(cache.trans, name)]) && tx.value.name == name
      ensures o.Fail? ==> o == Fail(NoSuchTx(name)) && tx == old(tx)
    {
      var r := cache.GetTransaction(name);
      if r.Err? {
        return Fail(r.error);
      }
      tx := Some(r.value);
      o := Pass;
    }

    /** fetchAndStore: nothing to do when the entry exists. Otherwise take the gate (at
        time now; cancelled says whether the context is done first), fetch, store the
        response and release the gate elapsed after admission. A cancelled Lock returns
        Cancel and leaves the gate held, as Mutex.Lock does; a held gate would wait for
        ever and is reported as Blocked. */
    method FetchAndStore(f: File, now: int, cancelled: bool, fetched: Result<Response>, elapsed: nat)
      returns (o: Outcome)
      requires fetched.Ok? ==> fetched.value.body.Some?
      modifies mu, cache.disk
      ensures old(IsExists(cache.disk, f)) ==>
        o == Pass && cache.disk.nodes == old(cache.disk.nodes) && mu.next == old(mu.next) && mu.held == old(mu.held)
      ensures !old(IsExists(cache.disk, f)) && old(mu.held) ==>
        o == Fail(Error.Blocked) && cache.disk.nodes == old(cache.disk.nodes) && mu.next == old(mu.next) && mu.held
      ensures !old(IsExists(cache.disk, f)) && !old(mu.held) && cancelled ==>
        o == Fail(Cancel) && cache.disk.nodes == old(cache.disk.nodes) && mu.next == old(mu.next) && mu.held
      ensures !old(IsExists(cache.disk, f)) && !old(mu.held) && !cancelled ==>
        && !mu.held
        && mu.next == Max(now, old(mu.next)) + elapsed + mu.d
        && (fetched.Err? ==> o == Fail(fetched.error) && cache.disk.nodes == old(cache.disk.nodes))
        && (fetched.Ok? && !old(cache.disk.CanCreate(f.pathname)) ==>
              o == Fail(old(cache.disk.CreateError(f.pathname))) && cache.disk.nodes == old(cache.disk.nodes))
        && (fetched.Ok? && old(cache.disk.CanCreate(f.pathname)) ==>
              var resp := fetched.value;
              && cache.disk.nodes == old(cache.disk.nodes)[f.pathname := Regular(EntryBytes(f.creq, NewCres(resp), resp.body.value.data))]
              && o == (if resp.body.value.fails then Fail(BodyRead) else Pass))
    {
      if IsExists(cache.disk, f) {
        return Pass;
      }
      var r := mu.Lock(now, cancelled);
      if r.Blocked? {
        return Fail(Error.Blocked);
      }
      if r.Cancelled? {
        return Fail(Cancel);
      }
      if fetched.Err? {
        o := Fail(fetched.error);
      } else {
        o := Store(cache.disk, f, fetched.value);
      }
      mu.Unlock(r.at + elapsed);
    }

    /** Client.Do: the request's entry in the current transaction, fetched first when it
        is missing. */
    method Do(req: Request, now: int, cancelled: bool, fetched: Result<Response>, elapsed: nat)
      returns (r: Result<Response>)
      requires fetched.Ok? ==> fetched.value.body.Some?
      modifies mu, cache.disk
      ensures tx.None? ==>
        r == Err(NotStartedTx) && cache.disk.nodes == old(cache.disk.nodes) && mu.next == old(mu.next) && mu.held == old(mu.held)
      ensures tx.Some? && NewFile(tx.value.dir, req).Err? ==>
        && r == Err(NewFile(tx.value.dir, req).error)
        && cache.disk.nodes == old(cache.disk.nodes) && mu.next == old(mu.next) && mu.held == old(mu.held)
      ensures tx.Some? && NewFile(tx.value.dir, req).Ok? ==>
        var f := NewFile(tx.value.dir, req).value;
        && (old(IsExists(cache.disk, f)) ==>
              && r == Load(cache.disk, f)
              && cache.disk.nodes == old(cache.disk.nodes) && mu.next == old(mu.next) && mu.held == old(mu.held))
        && (!old(IsExists(cache.disk, f)) && old(mu.held) ==>
              r == Err(Error.Blocked) && cache.disk.nodes == old(cache.disk.nodes) && mu.next == old(mu.next) && mu.held)
        && (!old(IsExists(cache.disk, f)) && !old(mu.held) && cancelled ==>
              r == Err(Cancel) && cache.disk.nodes == old(cache.disk.nodes) && mu.next == old(mu.next) && mu.held)
        && (!old(IsExists(cache.disk, f)) && !old(mu.held) && !cancelled ==>
              && !mu.held
              && mu.next == Max(now, old(mu.next)) + elapsed + mu.d
              && (fetched.Err? ==> r == Err(fetched.error) && cache.disk.nodes == old(cache.disk.nodes))
              && (fetched.Ok? && !old(cache.disk.CanCreate(f.pathname)) ==>
                    r == Err(old(cache.disk.CreateError(f.pathname))) && cache.disk.nodes == old(cache.disk.nodes))
              && (fetched.Ok? && old(cache.disk.CanCreate(f.pathname)) ==>
                    var resp := fetched.value;
                    && cache.disk.nodes == old(cache.disk.nodes)[f.pathname := Regular(EntryBytes(f.creq, NewCres(resp), resp.body.value.data))]
                    && r == if resp.body.value.fails then Err(BodyRead)
                            else Ok(resp.(body := Some(Stream(resp.body.value.data, false)),
                                          request := Some(RequestLine(req.verb, req.url))))))
    {
      if tx.None? {
        return Err(NotStartedTx);
      }
      var made := NewFile(tx.value.dir, req);
      if made.Err? {
        return Err(made.error);
      }
      var f := made.value;
      ghost var hit := IsExists(cache.disk, f);
      var o := FetchAndStore(f, now, cancelled, fetched, elapsed);
      if o.Fail? {
        return Err(o.error);
      }
      if !hit {
        var resp := fetched.value;
        LoadAfterStore(cache.disk, f, resp);
      }
      r := Load(cache.disk, f);
    }
  }

  /** NewClient: a cache opened as Cache.New does it, and a fresh gate with interval d. */
  method NewClient(d: int, dir: Path, numTx: nat, disk: FileSystem) returns (r: Result<Client>)
    modifies disk
    ensures r.Ok? ==>
      && fresh(r.value) && fresh(r.value.mu) && fresh(r.value.cache)
      && r.value.tx == None
      && r.value.mu.d == d && r.value.mu.next == ZeroTime && !r.value.mu.held
      && r.value.cache.dir == dir && r.value.cache.numTx == numTx && r.value.cache.disk == disk
      && r.value.cache.Valid()
    ensures var ctl := old(disk.Read(Join(dir, Cache.CtlName)));
      ctl.Err? && ctl.error != NotExist(Join(dir, Cache.CtlName)) ==> r == Err(ctl.error) && disk.nodes == old(disk.nodes)
    ensures old(disk.Read(Join(dir, Cache.CtlName))) == Err(NotExist(Join(dir, Cache.CtlName))) ==>
      r.Ok? && r.value.cache.trans == [] && disk.nodes == old(disk.nodes)
    ensures var ctl := old(disk.Read(Join(dir, Cache.CtlName)));
      ctl.Ok? && Cache.DecodeCtl(ctl.value).None? ==> r == Err(Malformed(Join(dir, Cache.CtlName))) && disk.nodes == old(disk.nodes)
    ensures var ctl := old(disk.Read(Join(dir, Cache.CtlName)));
      ctl.Ok? && Cache.DecodeCtl(ctl.value).Some? ==>
        var trans := Cache.FromRecords(dir, Cache.DecodeCtl(ctl.value).value);
        var run := Cache.RemoveEach(old(disk.nodes), disk.broken, Cache.Dirs(Cache.Evicted(trans, numTx)));
        && disk.nodes == run.1
        && (run.0.Fail? ==> r == Err(run.0.error))
        && (run.0.Pass? ==> r.Ok? && r.value.cache.trans == Cache.Keep(trans, numTx))
  {
    var c := Cache.New(dir, numTx, disk);
    if c.Err? {
      return Err(c.error);
    }
    var m := new Mutex(d);
    var cl := new Client(c.value, m);
    r := Ok(cl);
  }
}
