/** The two scanners of tools.go. Each hands decoded items, in order, to a callback and
    then calls Done; the callback stops the scan early with SkipAll (reported as success)
    or with any other error (returned). Decoding is left to the libraries: a CSV source is
    the records it yields followed by end of file or a read error, a zip archive is the
    result of opening it. Callbacks are functions of their arguments; the trace records
    every call made. */
module Scan {
  import opened Common

  /** A member of a zip archive, as *zip.File. */
  datatype ZipFile = ZipFile(name: Str, data: Bytes)

  /** ReadCsvRower: ReadRow(i, row) and Done(). */
  datatype Rower = Rower(readRow: (int, seq<Str>) -> Outcome, done: () -> Outcome)

  /** ReadZipFiler: ReadFile(file) and Done(). */
  datatype Filer = Filer(readFile: ZipFile -> Outcome, done: () -> Outcome)

  /** What the csv.Reader yields: the records, then io.EOF (failure None) or a read error. */
  datatype CsvSource = CsvSource(records: seq<seq<Str>>, failure: Option<Error>)

  datatype Event = RowRead(i: int, row: seq<Str>) | FileRead(file: ZipFile) | DoneCalled

  /** ReadCsvRowerFunc: ReadRow is fn(i, row) and Done is fn(-1, nil); nil is the empty row. */
  function RowerFunc(fn: (int, seq<Str>) -> Outcome): (r: Rower)
    ensures forall i, row :: r.readRow(i, row) == fn(i, row)
    ensures r.done() == fn(-1, [])
  {
    Rower(fn, () => fn(-1, []))
  }

  /** ReadZipFilerFunc: ReadFile is fn(file) and Done is fn(nil). */
  function FilerFunc(fn: Option<ZipFile> -> Outcome): (r: Filer)
    ensures forall f :: r.readFile(f) == fn(Some(f))
    ensures r.done() == fn(None)
  {
    Filer(f => fn(Some(f)), () => fn(None))
  }

  /** The index of the first failed reply, or |replies| when all pass. */
  function FirstFail(replies: seq<Outcome>): (k: nat)
    ensures k <= |replies|
    ensures forall j :: 0 <= j < k ==> replies[j].Pass?
    ensures k < |replies| ==> replies[k].Fail?
  {
    if replies == [] || replies[0].Fail? then 0 else 1 + FirstFail(replies[1..])
  }

  lemma FirstFailAt(replies: seq<Outcome>, k: nat)
    requires k < |replies| && replies[k].Fail?
    requires forall j :: 0 <= j < k ==> replies[j].Pass?
    ensures FirstFail(replies) == k
  {
  }

  /** What the scan returns when a callback stops it with e: SkipAll is not an error. */
  function Stopped(e: Error): (o: Outcome)
    ensures o.Pass? <==> e == SkipAll
    ensures o.Fail? ==> o.error == e
  {
    if e == SkipAll then Pass else Fail(e)
  }

  /** ReadRow's reply to each record, by position. */
  function RowReplies(records: seq<seq<Str>>, rower: Rower): (rs: seq<Outcome>)
    ensures |rs| == |records| && forall i :: 0 <= i < |records| ==> rs[i] == rower.readRow(i, records[i])
  {
    seq(|records|, i requires 0 <= i < |records| => rower.readRow(i, records[i]))
  }

  /** The ReadRow calls for the first n records: indices 0, 1, ... in record order. */
  function RowCalls(records: seq<seq<Str>>, n: nat): (t: seq<Event>)
    requires n <= |records|
    ensures |t| == n && forall i :: 0 <= i < n ==> t[i] == RowRead(i, records[i])
  {
    seq(n, i requires 0 <= i < n => RowRead(i, records[i]))
  }

  /** ReadFile's reply to each file. */
  function FileReplies(files: seq<ZipFile>, filer: Filer): (rs: seq<Outcome>)
    ensures |rs| == |files| && forall i :: 0 <= i < |files| ==> rs[i] == filer.readFile(files[i])
  {
    seq(|files|, i requires 0 <= i < |files| => filer.readFile(files[i]))
  }

  /** The ReadFile calls for the first n files, in archive order. */
  function FileCalls(files: seq<ZipFile>, n: nat): (t: seq<Event>)
    requires n <= |files|
    ensures |t| == n && forall i :: 0 <= i < n ==> t[i] == FileRead(files[i])
  {
    seq(n, i requires 0 <= i < n => FileRead(files[i]))
  }

  /** ScanCsv: ReadRow for each record with its index, until a reply fails or the reader
      stops. A failed ReadRow ends the scan with Stopped(error) and no Done; a read error
      is returned without Done; at end of file the result is Done's. */
  method ScanCsv(src: CsvSource, rower: Rower) returns (o: Outcome, trace: seq<Event>)
    ensures var k := FirstFail(RowReplies(src.records, rower));
      k < |src.records| ==>
        o == Stopped(rower.readRow(k, src.records[k]).error) && trace == RowCalls(src.records, k + 1)
    ensures var k := FirstFail(RowReplies(src.records, rower));
      k == |src.records| && src.failure.Some? ==>
        o == Fail(src.failure.value) && trace == RowCalls(src.records, k)
    ensures var k := FirstFail(RowReplies(src.records, rower));
      k == |src.records| && src.failure.None? ==>
        o == rower.done() && trace == RowCalls(src.records, k) + [DoneCalled]
    ensures DoneCalled in trace <==>
      src.failure.None? && forall i :: 0 <= i < |src.records| ==> rower.readRow(i, src.records[i]).Pass?
  {
    var records := src.records;
    ghost var replies := RowReplies(records, rower);
    trace := [];
    var i := 0;
    while i < |records|
      invariant 0 <= i <= |records|
      invariant trace == RowCalls(records, i)
      invariant forall j :: 0 <= j < i ==> replies[j].Pass?
    {
      trace := trace + [RowRead(i, records[i])];
      var r := rower.readRow(i, records[i]);
      if r.Fail? {
        FirstFailAt(replies, i);
        assert DoneCalled !in trace;
        return Stopped(r.error), trace;
      }
      i := i + 1;
    }
    assert FirstFail(replies) == |records|;
    assert DoneCalled !in trace;
    if src.failure.Some? {
      return Fail(src.failure.value), trace;
    }
    o := rower.done();
    trace := trace + [DoneCalled];
  }

  /** ScanZip: a failed open is returned at once; then ReadFile for each file in archive
      order, with the same early exits as ScanCsv, and Done at the end. */
  method ScanZip(open: Result<seq<ZipFile>>, filer: Filer) returns (o: Outcome, trace: seq<Event>)
    ensures open.Err? ==> o == Fail(open.error) && trace == []
    ensures open.Ok? ==>
      var files := open.value;
      var k := FirstFail(FileReplies(files, filer));
      && (k < |files| ==> o == Stopped(filer.readFile(files[k]).error) && trace == FileCalls(files, k + 1))
      && (k == |files| ==> o == filer.done() && trace == FileCalls(files, k) + [DoneCalled])
    ensures DoneCalled in trace <==>
      open.Ok? && forall i :: 0 <= i < |open.value| ==> filer.readFile(open.value[i]).Pass?
  {
    if open.Err? {
      return Fail(open.error), [];
    }
    var files := open.value;
    ghost var replies := FileReplies(files, filer);
    trace := [];
    var i := 0;
    while i < |files|
      invariant 0 <= i <= |files|
      invariant trace == FileCalls(files, i)
      invariant forall j :: 0 <= j < i ==> replies[j].Pass?
    {
      trace := trace + [FileRead(files[i])];
      var r := filer.readFile(files[i]);
      if r.Fail? {
        FirstFailAt(replies, i);
        assert DoneCalled !in trace;
        return Stopped(r.error), trace;
      }
      i := i + 1;
    }
    assert FirstFail(replies) == |files|;
    o := filer.done();
    trace := trace + [DoneCalled];
  }

  /** The names a recording callback logs for a trace: each file's name, then "done". */
  function Logged(trace: seq<Event>): (log: seq<Str>)
    ensures |log| == |trace|
  {
    if trace == [] then []
    else
      var head := match trace[0]
        case FileRead(f) => f.name
        case RowRead(_, _) => []
        case DoneCalled => [100, 111, 110, 101]  // done
      ;
      [head] + Logged(trace[1..])
  }

  /** With a callback that accepts every file, the log of a full scan is the file names
      followed by "done". */
  lemma {:induction false} LoggedFullScan(files: seq<ZipFile>)
    ensures Logged(FileCalls(files, |files|) + [DoneCalled])
      == seq(|files|, i requires 0 <= i < |files| => files[i].name) + [[100, 111, 110, 101]]
  {
    if files != [] {
      var t := FileCalls(files, |files|) + [DoneCalled];
      assert t[1..] == FileCalls(files[1..], |files| - 1) + [DoneCalled];
      LoggedFullScan(files[1..]);
    }
  }
}
