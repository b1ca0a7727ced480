/** Values shared by every module of the model: bytes, byte strings, slash-free
    paths, the error taxonomy and the failure-compatible wrappers. */
module Common {

  /** One byte. Go strings and []byte are both byte strings. */
  type Byte = b: int | 0 <= b < 256
  type Bytes = seq<Byte>
  type Str = Bytes

  /** A path is the list of its components; path.Join(dir, name) is `dir + [name]`.
      Cleaning ("..", ".", double slashes) is not modelled, so Join is injective. */
  type Path = seq<Str>

  function Join(dir: Path, name: Str): (p: Path)
    ensures |p| == |dir| + 1 && p[..|dir|] == dir && p[|dir|] == name
  {
    dir + [name]
  }

  function Min(a: int, b: int): int
  {
    if a <= b then a else b
  }

  /** The errors the core can surface. Go's errors are opaque values; each
      constructor stands for one kind the source distinguishes or propagates. */
  datatype Error =
    | NotExist(path: Path)     // syscall.ENOENT from the filesystem
    | IoFailure(path: Path)    // any other filesystem failure on path
    | Malformed(path: Path)    // a file whose contents do not decode
    | PayloadRead              // GetBody, or reading the stream it opens, failed
    | BodyRead                 // reading a response body failed
    | NoSuchTx(name: Str)      // errNoSuchTx, wrapped with the name asked for
    | NotStartedTx             // errNotStartedTx of the client
    | Cancel                   // mutex.Cancel: the context was done first
    | Blocked                  // the call waits on the gate for ever and never returns
    | SkipAll                  // the scan callbacks' request to stop
    | Other(code: int)         // an error produced by a collaborator (network, callback)

  datatype Option<T> = None | Some(value: T) {
    predicate IsFailure() { None? }
    function PropagateFailure<U>(): Option<U> requires None? { None }
    function Extract(): T requires Some? { value }
  }

  datatype Result<T> = Ok(value: T) | Err(error: Error)

  /** A Go `error` result: nil or an error. */
  datatype Outcome = Pass | Fail(error: Error)
}
