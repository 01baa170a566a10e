/** Model of the git backend in git.go. Every external `git` process is
    replaced by its outcome, a `ToolRun`: whether it exited successfully and
    the combined standard output and standard error it printed. The commands
    themselves are kept as values, so that what is run, where, and in which
    order can be stated. */
module GitBackend {
  import opened Strings
  import opened Vcs
  import GitLog

  /** What running one external command gave: success, and its combined output. */
  datatype ToolRun = ToolRun(ok: bool, output: string)

  /** One external command: its working directory ("" is the caller's own, as
      with Go's `cmd.Dir`) and its argument vector, passed without a shell. */
  datatype Command = Command(dir: string, argv: seq<string>)

  /** `git clone -- url dir`: the `--` keeps a URL that starts with `-` from
      being read as an option. */
  function CloneCommand(url: string, dir: string): (cmd: Command)
  {
    Command("", ["git", "clone", "--", url, dir])
  }

  /** The message git prints when the clone target already exists and is not empty. */
  function ExistsMessage(dir: string): (msg: string)
  {
    "fatal: destination path '" + dir + "' already exists"
  }

  /** The error of a failed clone: os.ErrExist exactly when the output holds
      git's "already exists" message for this `dir`, otherwise a generic
      clone failure that keeps the output. */
  function CloneFailure(dir: string, output: string): (e: Error)
    ensures IsExist(e) <==> Contains(output, ExistsMessage(dir))
    ensures !IsExist(e) ==> e == CloneFailed(output)
  {
    if Contains(output, ExistsMessage(dir)) then AlreadyExists else CloneFailed(output)
  }

  /** `git.Clone(url, dir)`, given the outcome `run` of `CloneCommand(url, dir)`. */
  function Clone(url: string, dir: string, run: ToolRun): (r: Result<Repository>)
    ensures r.Ok? <==> run.ok
    ensures r.Ok? ==> r.value.Dir() == dir && r.value.VCS() == Git
    ensures r.Err? ==> r.error == CloneFailure(dir, run.output)
  {
    var repo := Repository(dir, Git);
    if !run.ok then Err(CloneFailure(dir, run.output)) else Ok(repo)
  }

  /** `git.Open(dir)`, given whether `os.Stat(dir)` succeeds. Nothing checks
      that `dir` holds a git repository. */
  function Open(dir: string, present: bool): (r: Result<Repository>)
    ensures r.Ok? <==> present
    ensures r.Ok? ==> r.value.Dir() == dir && r.value.VCS() == Git
    ensures r.Err? ==> r.error == StatFailed(dir)
  {
    if present then Ok(Repository(dir, Git)) else Err(StatFailed(dir))
  }

  /** The package-level `Git` value as a backend, for a given behaviour of the
      `git` tool (`tool`) and of the filesystem (`present`: whether `os.Stat` succeeds on a path). */
  function GitVcs(tool: Command -> ToolRun, present: string -> bool): (vcs: Backend)
    ensures forall url, dir :: vcs.clone(url, dir).Ok? <==> tool(CloneCommand(url, dir)).ok
    ensures forall url, dir :: vcs.clone(url, dir).Ok? ==> vcs.clone(url, dir).value == Repository(dir, Git)
    ensures forall url, dir :: vcs.clone(url, dir).Err? ==>
      vcs.clone(url, dir).error == CloneFailure(dir, tool(CloneCommand(url, dir)).output)
    ensures forall dir :: vcs.open(dir).Ok? <==> present(dir)
    ensures forall dir :: vcs.open(dir).Ok? ==> vcs.open(dir).value == Repository(dir, Git)
  {
    Backend((url, dir) => Clone(url, dir, tool(CloneCommand(url, dir))),
            dir => Open(dir, present(dir)))
  }

  /** A clone whose output carries git's "already exists" message for `dir`,
      wherever in the output, fails with os.ErrExist. */
  lemma CloneIntoExisting(url: string, dir: string, before: string, after: string)
    ensures Clone(url, dir, ToolRun(false, before + ExistsMessage(dir) + after)) == Err(AlreadyExists)
  {
    ContainsInfix(before, ExistsMessage(dir), after);
  }

  /** A clone followed by an open of the same directory gives equal handles. */
  lemma CloneThenOpen(url: string, dir: string, run: ToolRun)
    requires run.ok
    ensures Clone(url, dir, run) == Open(dir, true)
  {
  }

  /** CloneOrOpen with the git backend: a successful clone gives a handle on
      `dir`; a clone that met an existing `dir` gives whatever Open gives; any
      other failed clone is a clone failure and Open is not run. */
  lemma GitCloneOrOpen(tool: Command -> ToolRun, present: string -> bool, url: string, dir: string)
    ensures var run := tool(CloneCommand(url, dir));
      var r := CloneOrOpen(GitVcs(tool, present), url, dir);
      && (run.ok ==> r == Ok(Repository(dir, Git)))
      && (!run.ok && Contains(run.output, ExistsMessage(dir)) ==> r == Open(dir, present(dir)))
      && (!run.ok && !Contains(run.output, ExistsMessage(dir)) ==> r == Err(CloneFailed(run.output)))
      && (r.Ok? ==> r.value.Dir() == dir)
  {
  }

  /** CloneOrOpen on a directory that exists and already holds a clone never
      fails on account of it: it gives the handle Open gives. */
  lemma CloneOrOpenExisting(tool: Command -> ToolRun, present: string -> bool, url: string, dir: string,
                            before: string, after: string)
    requires tool(CloneCommand(url, dir)) == ToolRun(false, before + ExistsMessage(dir) + after)
    requires present(dir)
    ensures CloneOrOpen(GitVcs(tool, present), url, dir) == Ok(Repository(dir, Git))
  {
    CloneIntoExisting(url, dir, before, after);
  }

  /** `git checkout rev`, run in the repository's directory: on success the
      checkout happened in place and the repository's own directory is
      returned; on failure, "" and the error. */
  method CheckOut(repo: Repository, rev: string, run: ToolRun) returns (cmd: Command, dir: string, err: Option<Error>)
    ensures cmd == Command(repo.Dir(), ["git", "checkout", rev])
    ensures err.None? <==> run.ok
    ensures err.None? ==> dir == repo.Dir()
    ensures err.Some? ==> dir == "" && err.value == CheckOutFailed(rev, run.output)
  {
    cmd := Command(repo.dir, ["git", "checkout", rev]);
    if run.ok {
      return cmd, repo.dir, None;
    } else {
      return cmd, "", Some(CheckOutFailed(rev, run.output));
    }
  }

  /** The fixed part of the log command. */
  const LogArgv: seq<string> := ["git", "log", "--pretty=format:'%h|%an|%ad|%s'", "--date=short"]

  /** The revision-range argument of Log: none when `startRev` is empty
      (whatever `endRev` is), `startRev` alone when only `endRev` is empty,
      and `startRev..endRev` when both are given. */
  method RangeArg(startRev: string, endRev: string) returns (arg: string)
    ensures startRev == "" ==> arg == ""
    ensures startRev != "" && endRev == "" ==> arg == startRev
    ensures startRev != "" && endRev != "" ==> arg == startRev + ".." + endRev
  {
    arg := "";
    if startRev != "" {
      arg := startRev;
      if endRev != "" {
        arg := startRev + ".." + endRev;
      }
    }
  }

  /** The error of a failed log: the revision-not-found kind, naming both
      requested revisions, exactly when the output mentions an unknown
      revision; otherwise a generic log failure that keeps the output. */
  function LogFailure(startRev: string, endRev: string, output: string): (e: Error)
    ensures e.RevisionNotFound? <==> Contains(output, "unknown revision")
    ensures e.RevisionNotFound? ==> e == RevisionNotFound(startRev, endRev)
    ensures !e.RevisionNotFound? ==> e == LogFailed(output)
  {
    if Contains(output, "unknown revision") then RevisionNotFound(startRev, endRev) else LogFailed(output)
  }

  /** git's diagnostic for a bad revision, wherever it appears in the output,
      gives the revision-not-found error. */
  lemma UnknownRevision(startRev: string, endRev: string, before: string, after: string)
    ensures LogFailure(startRev, endRev, before + "unknown revision" + after) == RevisionNotFound(startRev, endRev)
  {
    ContainsInfix(before, "unknown revision", after);
  }

  /** `gitRepo.Log(startRev, endRev)`, given the outcome `run` of the command
      it builds: the log command, with the range argument only when there is
      one, run in the repository's directory. On success the output is
      decoded; on failure the error is classified and no records are given. */
  method Log(repo: Repository, startRev: string, endRev: string, run: ToolRun)
    returns (cmd: Command, res: Result<seq<Vcs.Log>>)
    ensures cmd.dir == repo.Dir()
    ensures startRev == "" ==> cmd.argv == LogArgv
    ensures startRev != "" && endRev == "" ==> cmd.argv == LogArgv + [startRev]
    ensures startRev != "" && endRev != "" ==> cmd.argv == LogArgv + [startRev + ".." + endRev]
    ensures run.ok ==> res == GitLog.Decode(run.output)
    ensures !run.ok ==> res == Err(LogFailure(startRev, endRev, run.output))
  {
    var arg := RangeArg(startRev, endRev);
    if arg == "" {
      cmd := Command(repo.dir, LogArgv);
    } else {
      cmd := Command(repo.dir, LogArgv + [arg]);
    }
    if run.ok {
      res := GitLog.ParseLog(run.output);
    } else {
      res := Err(LogFailure(startRev, endRev, run.output));
    }
  }

  function FetchCommand(repo: Repository): (cmd: Command)
  {
    Command(repo.dir, ["git", "fetch"])
  }

  /** The reset target is fixed: the remote's `master` branch. */
  function ResetCommand(repo: Repository): (cmd: Command)
  {
    Command(repo.dir, ["git", "reset", "--hard", "origin/master"])
  }

  /** `gitRepo.HardReset`, given the outcomes of its fetch and of its reset:
      the fetch runs first, and if it fails the reset does not run and the
      fetch failure is returned; otherwise the reset runs and its failure, if
      any, is returned. `ran` lists the commands run, in order. */
  method HardReset(repo: Repository, fetch: ToolRun, reset: ToolRun) returns (ran: seq<Command>, err: Option<Error>)
    ensures !fetch.ok ==> ran == [FetchCommand(repo)] && err == Some(FetchFailed(fetch.output))
    ensures fetch.ok ==> ran == [FetchCommand(repo), ResetCommand(repo)]
    ensures fetch.ok && !reset.ok ==> err == Some(ResetFailed(reset.output))
    ensures err.None? <==> fetch.ok && reset.ok
    ensures forall c :: c in ran ==> c.dir == repo.Dir()
  {
    ran := [FetchCommand(repo)];
    if !fetch.ok {
      return ran, Some(FetchFailed(fetch.output));
    }
    ran := ran + [ResetCommand(repo)];
    if !reset.ok {
      return ran, Some(ResetFailed(reset.output));
    }
    return ran, None;
  }
}
