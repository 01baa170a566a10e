/** Model of vcs.go: the values every backend shares (errors, log records,
    repository handles), the name-to-backend registry, and the entry points
    Clone, Open and CloneOrOpen that delegate to a backend. */
module Vcs {

  datatype Option<T> = None | Some(value: T)

  /** The errors the layer returns, by kind. Tool failures carry the combined
      output of the external process. */
  datatype Error =
    | AlreadyExists                             // os.ErrExist: the clone target is taken
    | StatFailed(path: string)                  // the error os.Stat gave for the directory to open
    | CloneFailed(output: string)
    | CheckOutFailed(rev: string, output: string)
    | RevisionNotFound(startRev: string, endRev: string)
    | LogFailed(output: string)
    | FetchFailed(output: string)
    | ResetFailed(output: string)
    | IndexOutOfRange(line: string)             // the runtime panic on a log line with fewer than four fields

  /** Go's `(T, error)` pair where exactly one side is meaningful: the value, or
      the zero value (nil) together with an error. */
  datatype Result<T> = Ok(value: T) | Err(error: Error)

  /** `os.IsExist(err)`: of the errors above, only os.ErrExist qualifies. */
  predicate IsExist(e: Error): (b: bool)
    ensures b <==> e == AlreadyExists
  {
    e.AlreadyExists?
  }

  /** A result that failed because the target already exists. */
  predicate FailedWithExist<T>(r: Result<T>): (b: bool)
    ensures b <==> r == Err(AlreadyExists)
  {
    r.Err? && IsExist(r.error)
  }

  /** The backends the package defines: its package-level values `Git` and `Hg`. */
  datatype Kind = Git | Hg

  /** One commit as `Repository.Log` reports it. The date is kept as the text
      the tool printed for it. */
  datatype Log = Log(hash: string, user: string, date: string, message: string)

  /** A repository handle: a working directory bound to the backend that made it. */
  datatype Repository = Repository(dir: string, vcs: Kind)
  {
    /** The repository's root directory. */
    function Dir(): string { dir }

    function VCS(): Kind { vcs }
  }

  /** A value of the `VCS` interface, seen through what its two methods return
      (with the outcomes of the external tool fixed): `clone(url, dir)` and
      `open(dir)`. */
  datatype Backend = Backend(clone: (string, string) -> Result<Repository>, open: string -> Result<Repository>)

  /** `VCSByName`. */
  const VcsByName: map<string, Kind> := map["git" := Git, "hg" := Hg]

  /** `VCSByName[name]`, with Go's nil for an absent name made explicit. */
  function Lookup(name: string): (r: Option<Kind>)
    ensures r.Some? <==> name == "git" || name == "hg"
    ensures name == "git" ==> r == Some(Git)
    ensures name == "hg" ==> r == Some(Hg)
  {
    if name in VcsByName then Some(VcsByName[name]) else None
  }

  /** Clones the repository at `url` into `dir`: whatever the backend's Clone returns. */
  function Clone(vcs: Backend, url: string, dir: string): (r: Result<Repository>)
    ensures r == vcs.clone(url, dir)
  {
    vcs.clone(url, dir)
  }

  /** Opens the repository at `dir`: whatever the backend's Open returns. */
  function Open(vcs: Backend, dir: string): (r: Result<Repository>)
    ensures r == vcs.open(dir)
  {
    vcs.open(dir)
  }

  /** Clones, and if and only if the clone failed because `dir` already
      exists, opens `dir` instead; every other outcome of the clone is
      returned as it is. */
  function CloneOrOpen(vcs: Backend, url: string, dir: string): (r: Result<Repository>)
    ensures FailedWithExist(vcs.clone(url, dir)) ==> r == vcs.open(dir)
    ensures !FailedWithExist(vcs.clone(url, dir)) ==> r == vcs.clone(url, dir)
  {
    var cloned := Clone(vcs, url, dir);
    if FailedWithExist(cloned) then Open(vcs, dir) else cloned
  }

  /** Unless the clone failed with "already exists", the backend's Open plays
      no part: two backends that clone alike give the same answer. */
  lemma OpenNotConsulted(vcs: Backend, other: Backend, url: string, dir: string)
    requires other.clone == vcs.clone
    requires !FailedWithExist(vcs.clone(url, dir))
    ensures CloneOrOpen(vcs, url, dir) == CloneOrOpen(other, url, dir)
  {
  }

  /** On the fallback path the URL is not looked at: any two URLs whose clone
      both met an existing `dir` give the same repository or error. */
  lemma FallbackIgnoresUrl(vcs: Backend, url: string, otherUrl: string, dir: string)
    requires FailedWithExist(vcs.clone(url, dir))
    requires FailedWithExist(vcs.clone(otherUrl, dir))
    ensures CloneOrOpen(vcs, url, dir) == CloneOrOpen(vcs, otherUrl, dir) == Open(vcs, dir)
  {
  }
}
