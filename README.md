# go-vcs in Dafny

A model of the small Go package `vcs`, which puts one interface over
version-control tools and implements it for git by running the `git`
executable. What is modelled is the package's own logic around those runs:
how `Log` builds its revision-range argument, how it decodes git's output
into `Log` records, how tool failures become error kinds, in what order
`HardReset` runs its two commands, what `CheckOut`, `Clone` and `Open`
return, and when `CloneOrOpen` falls back from cloning to opening.

Every external process is replaced by its outcome, `ToolRun(ok, output)`:
whether it exited successfully and the combined standard output and error it
printed. The model takes these outcomes as parameters. The methods `CheckOut`,
`Log` and `HardReset` also return the `Command`s they run (working directory
and argument vector), so that what runs, where and in which order can be
stated. `Clone` is a function of the outcome of `CloneCommand(url, dir)`;
`GitVcs`, the git backend, is where that command is fed to the tool. The
filesystem check in `Open` is a boolean, `present`.

Files and modules:

- `strings.dfy`, module `Strings`: the parts of Go's `strings` package the
  package calls. The log decoder uses `Split` on a one-character separator
  and `Replace(s, "'", "", -1)`, here `RemoveAll`; the error classification
  uses `Contains`. `Join` is not called by the package: it is the partner of
  `Split` in the round-trip lemmas. The module also holds their lemmas: split
  and join undo each other, a split has one piece more than there are
  separators, a split has an empty last piece exactly when the string is
  empty or ends in the separator, and `Contains` holds exactly when the text
  occurs at some position.
- `vcs.dfy`, module `Vcs` (vcs.go): error kinds, `Result`, the `Log` record,
  the `Repository` handle, and the registry. A value of the `VCS` interface
  is a `Backend` holding what its `Clone` and `Open` return. `Clone`, `Open`
  and `CloneOrOpen` are defined over any backend. The registry `VCSByName` is
  modelled at the level of tags: it maps a name to the `Kind` `Git` or `Hg`,
  not to a `Backend`, and it is `GitBackend.GitVcs` that gives the git
  backend's behaviour.
- `git_log.dfy`, module `GitLog` (git.go, decoding part of `Log`). The
  specification function is `Decode`, and `ParseLog` is the decoding loop
  over a preallocated array. `Format` is the tool's side: the lines
  `--pretty=format:'%h|%an|%ad|%s'` prints. The lemmas relate the two.
- `git.dfy`, module `GitBackend` (git.go): `Clone`, `Open`, `GitVcs` (the
  package-level `Git` value as a `Backend`), `CheckOut`, `RangeArg`, `Log`,
  `HardReset` and the error classification.

Three behaviours of the decoder worth knowing:

- `|||` decodes to a record with four empty fields
  (`GitLog.EmptyFieldsAccepted`): nothing checks that a hash is present.
- Only fields 0 to 3 of a line are read, so a subject holding `|` is cut at
  it (`GitLog.MessageCutAtBar`).
- A line with fewer than four fields makes the Go code index past the end
  and panic. The model returns `Err(IndexOutOfRange(line))` for the first
  such line.

## Model

| member | source | states |
|---|---|---|
| `Strings.Split` | git.go:83 | `strings.Split` with a one-character separator never gives an empty list of pieces |
| `Strings.SplitCount` | git.go:83 | a split gives one piece more than there are separators |
| `Strings.SplitPiecesExcludeSep` | git.go:83 | no piece of a split holds the separator |
| `Strings.RemoveAllChars` | git.go:83 | `strings.Replace(s, "'", "", -1)` keeps exactly the characters of `s` other than the removed one |
| `Strings.SplitJoin` | git.go:83 | splitting a join gives back the parts when no part holds the separator |
| `Strings.JoinSplit` | git.go:83 | joining the pieces of a split gives back the string, for every string |
| `Strings.SplitLastEmpty` | git.go:85-89 | the last piece of a split is empty exactly when the string is empty or ends in the separator |
| `Strings.ContainsInfix` | git.go:27 | `strings.Contains` holds of every string that has the searched text as an infix |
| `Strings.ContainsAt` | git.go:27 | `strings.Contains(s, sub)` holds exactly when `sub` starts at some position of `s`, so a string without the text does not contain it |
| `Vcs.IsExist` | vcs.go:64 | `os.IsExist` holds of exactly the already-exists error and of no other error kind |
| `Vcs.FailedWithExist` | vcs.go:64 | the fallback test holds exactly when the clone's result is the already-exists error |
| `Vcs.Lookup` | vcs.go:16-20 | the registry maps exactly the names "git" and "hg", "git" to the git backend and "hg" to the hg backend; any other name gives nothing |
| `Vcs.Clone` | vcs.go:50-53 | returns exactly what the backend's Clone returns |
| `Vcs.Open` | vcs.go:55-58 | returns exactly what the backend's Open returns |
| `Vcs.CloneOrOpen` | vcs.go:60-69 | returns the backend's Open result exactly when the clone failed with the already-exists kind, and the clone's result and error unchanged otherwise |
| `Vcs.OpenNotConsulted` | vcs.go:66-67 | when the clone did not fail with already-exists, two backends that clone alike give the same result whatever their Open does |
| `Vcs.FallbackIgnoresUrl` | vcs.go:60-65 | on the fallback path the result is Open's and does not depend on the URL |
| `GitLog.ParseLog` | git.go:83-97 | the decoding loop gives exactly `Decode` of the output, for every output, including the panic at the first short line |
| `GitLog.DecodeLinesMeaning` | git.go:91-97 | decoding succeeds exactly when every line has at least four fields, and then gives one record per line, record k read from line k in line order |
| `GitLog.DecodeLinesPanic` | git.go:93-95 | the first line with fewer than four fields is the one the decoder fails on |
| `GitLog.RecordCount` | git.go:83-91 | the number of lines (and of records) is the number of newlines after apostrophe removal, plus one unless the output is empty or ends in a newline |
| `GitLog.RecordsClean` | git.go:83-95 | no field of any decoded record holds an apostrophe, a bar or a newline |
| `GitLog.DecodeFormat` | git.go:77-97 | round trip: the output the log format prints for records whose fields hold no apostrophe, bar or newline decodes to exactly those records, in order; no output gives no records |
| `GitLog.DecodeFormatTerminated` | git.go:85-89 | a newline after the last entry adds no record |
| `GitLog.EmptyFieldsAccepted` | git.go:93-95 | a line of three bars is accepted as a record with four empty fields |
| `GitLog.MessageCutAtBar` | git.go:93-95 | a subject holding a bar is cut at its first bar, and the rest of the line is ignored |
| `GitBackend.CloneFailure` | git.go:26-30 | a failed clone is the already-exists kind exactly when the output contains git's "destination path '<dir>' already exists" message, and otherwise a clone failure carrying the output |
| `GitBackend.Clone` | git.go:22-34 | a clone succeeds exactly when the tool did, and then returns a git repository whose `Dir()` is `dir`; a failure is classified by `CloneFailure` |
| `GitBackend.Open` | git.go:36-43 | opening succeeds exactly when the directory exists, with a git repository whose `Dir()` is `dir`, and otherwise fails with the stat error |
| `GitBackend.GitVcs` | git.go:15 | the package-level `Git` value clones exactly when its `git clone` command succeeds, giving a git handle on `dir` and otherwise the error `CloneFailure` classifies, and opens exactly when the directory is present, giving a git handle on `dir` |
| `GitBackend.CloneIntoExisting` | git.go:25-29 | a clone whose output carries the already-exists message anywhere fails with the already-exists kind |
| `GitBackend.CloneThenOpen` | git.go:22-43 | a successful clone and an open of the same directory give equal handles |
| `GitBackend.GitCloneOrOpen` | vcs.go:63-69 | with the git backend, CloneOrOpen gives a handle on `dir` after a successful clone, Open's result after an already-exists failure, and the clone failure otherwise; any handle it gives is on `dir` |
| `GitBackend.CloneOrOpenExisting` | vcs.go:60-69 | with the git backend, CloneOrOpen on an existing directory that git refuses to clone into gives the handle Open gives, not an error |
| `GitBackend.CheckOut` | git.go:57-65 | runs `git checkout rev` in the repository's directory; it returns the repository's own directory with no error exactly when the tool succeeds, and "" with a checkout error carrying rev and output otherwise |
| `GitBackend.RangeArg` | git.go:68-74 | the range argument is empty when startRev is empty whatever endRev is, exactly startRev when only endRev is empty, and `startRev..endRev` when both are given |
| `GitBackend.LogFailure` | git.go:100-105 | a failed log is the revision-not-found kind, naming both revisions, exactly when the output contains "unknown revision", and a generic log failure carrying the output otherwise |
| `GitBackend.UnknownRevision` | git.go:101-102 | git's "unknown revision" diagnostic anywhere in the output gives the revision-not-found kind |
| `GitBackend.Log` | git.go:67-106 | runs the log command in the repository's directory, with no range argument when startRev is empty and the range argument appended otherwise; on success the result is the decoded output, and on failure the classified error with no records |
| `GitBackend.HardReset` | git.go:108-123 | runs fetch and then reset, both in the repository's directory; a failed fetch stops before the reset and is the error returned; otherwise the reset's failure, if any, is returned; no error exactly when both succeed |

## Left out

- Process spawning and output capture (`exec.Command`, `CombinedOutput`, `cmd.Dir`): each run is an input `ToolRun`. What git itself does is not modelled: which commits a range selects, the files a checkout writes, and what fetch, reset and pull change.
- The `os.Stat` call in `Open`: it is the boolean `present`, and the particular error value it returns is not distinguished (`StatFailed(dir)`).
- Date parsing with `time.Parse` and the resulting time value: the date is kept as the field's text. The source ignores the parse error, so a malformed date becomes the zero time there.
- `Download`, which only panics, and `Pull`, which runs `git pull` and passes its failure through: not modelled.
- The `Hg` backend is not part of this model. The registry's "hg" entry is kept as the name `Hg` only.
- The text of error messages: only the error kind and the data it carries are modelled. The `fmt.Errorf` at git.go:104 has two verbs and four arguments, so its message shows the revisions where the error and the output were evidently meant.
- `VCS()` returns a pointer to a copy of the `git` value, not the package-level `Git` itself. The model records only that the handle belongs to the git backend.
- The `cmd` field of the `git` struct, which no code reads: every command uses the literal "git".
- Go's `string(out)` holds bytes, while the model's strings are sequences of characters. For valid UTF-8 output, splitting on the ASCII characters newline, `|` and apostrophe gives the same pieces either way; output that is not valid UTF-8 cannot be represented in the model.
- Concurrent use of one directory and the partial state a failed reset leaves: outside this layer.
