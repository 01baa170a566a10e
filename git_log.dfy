/** The decoder of `gitRepo.Log` in git.go: from the combined output of
    `git log --pretty=format:'%h|%an|%ad|%s' --date=short` to log records.
    The tool is run without a shell, so the apostrophes of the format are
    printed around every line; the decoder removes every apostrophe, splits
    the output into lines, drops one trailing empty line, and reads the first
    four `|`-separated fields of each line as hash, user, date and message. */
module GitLog {
  import opened Strings
  import opened Vcs

  /** The lines of `s`, without an empty last line. */
  function TrimmedLines(s: string): (lines: seq<string>)
  {
    var commits := Split(s, '\n');
    if |commits| > 0 && commits[|commits| - 1] == "" then commits[..|commits| - 1] else commits
  }

  /** The lines the decoder reads records from: those of the output with
      every apostrophe removed. */
  function Lines(output: string): (lines: seq<string>)
  {
    TrimmedLines(RemoveAll(output, '\''))
  }

  /** A line from which four fields can be read without an index out of range. */
  predicate HasFields(line: string)
  {
    |Split(line, '|')| >= 4
  }

  /** The record read from one line: fields 0 to 3; any further field is ignored. */
  function Record(line: string): (l: Log)
    requires HasFields(line)
  {
    var fields := Split(line, '|');
    Log(fields[0], fields[1], fields[2], fields[3])
  }

  /** The records of `lines` in order, or the panic at the first short line. */
  function DecodeLines(lines: seq<string>): (r: Result<seq<Log>>)
  {
    if lines == [] then Ok([])
    else if !HasFields(lines[0]) then Err(IndexOutOfRange(lines[0]))
    else
      match DecodeLines(lines[1..])
      case Ok(rest) => Ok([Record(lines[0])] + rest)
      case Err(e) => Err(e)
  }

  /** What the decoder makes of the tool's output. */
  function Decode(output: string): (r: Result<seq<Log>>)
  {
    DecodeLines(Lines(output))
  }

  /** The decoding loop: fills a slice of records of the right length, one
      line at a time, and stops at the first line that is too short. */
  method ParseLog(output: string) returns (res: Result<seq<Log>>)
    ensures res == Decode(output)
  {
    var commits := Split(RemoveAll(output, '\''), '\n');
    var found := |commits|;
    if found > 0 && commits[|commits| - 1] == "" {
      commits := commits[..|commits| - 1];
    }
    assert commits == Lines(output);
    var logs := new Log[|commits|];
    for i := 0 to |commits|
      invariant forall k :: 0 <= k < i ==> HasFields(commits[k]) && logs[k] == Record(commits[k])
    {
      var commitArr := Split(commits[i], '|');
      if |commitArr| < 4 {
        DecodeLinesPanic(commits, i);
        return Err(IndexOutOfRange(commits[i]));
      }
      logs[i] := Log(commitArr[0], commitArr[1], commitArr[2], commitArr[3]);
    }
    DecodeLinesMeaning(commits);
    assert logs[..] == DecodeLines(commits).value;
    res := Ok(logs[..]);
  }

  /** Decoding succeeds exactly when every line has four fields, and then
      record `k` is read from line `k`: one record per line, in line order. */
  lemma {:induction false} DecodeLinesMeaning(lines: seq<string>)
    ensures DecodeLines(lines).Ok? <==> forall k :: 0 <= k < |lines| ==> HasFields(lines[k])
    ensures DecodeLines(lines).Ok? ==>
      |DecodeLines(lines).value| == |lines| &&
      forall k :: 0 <= k < |lines| ==> HasFields(lines[k]) && DecodeLines(lines).value[k] == Record(lines[k])
  {
    if lines != [] {
      DecodeLinesMeaning(lines[1..]);
      assert forall k :: 1 <= k < |lines| ==> lines[k] == lines[1..][k - 1];
    }
  }

  /** The first line that is too short is the one the decoder panics on. */
  lemma {:induction false} DecodeLinesPanic(lines: seq<string>, i: nat)
    requires i < |lines| && !HasFields(lines[i])
    requires forall k :: 0 <= k < i ==> HasFields(lines[k])
    ensures DecodeLines(lines) == Err(IndexOutOfRange(lines[i]))
  {
    if i > 0 {
      DecodeLinesPanic(lines[1..], i - 1);
    }
  }

  /** The lines of a string with its last line dropped when empty: one per
      newline, plus one unless the string is empty or ends in a newline. */
  lemma TrimmedLineCount(s: string)
    ensures |TrimmedLines(s)| == multiset(s)['\n'] + (if s == [] || s[|s| - 1] == '\n' then 0 else 1)
  {
    SplitCount(s, '\n');
    SplitLastEmpty(s, '\n');
  }

  /** The number of records: one per line of the output (after removing the
      apostrophes), not counting an empty last line. So empty output gives no
      record, and a final newline adds none. */
  lemma RecordCount(output: string)
    ensures var s := RemoveAll(output, '\'');
      |Lines(output)| == multiset(s)['\n'] + (if s == [] || s[|s| - 1] == '\n' then 0 else 1)
    ensures Decode(output).Ok? ==> |Decode(output).value| == |Lines(output)|
  {
    TrimmedLineCount(RemoveAll(output, '\''));
    DecodeLinesMeaning(Lines(output));
  }

  /** Every field of every record comes from one line split at `|`, so none
      holds a `|` or a newline, and none holds an apostrophe since all were
      removed before splitting. */
  predicate Clean(text: string)
  {
    '\'' !in text && '|' !in text && '\n' !in text
  }

  predicate CleanRecord(l: Log)
  {
    Clean(l.hash) && Clean(l.user) && Clean(l.date) && Clean(l.message)
  }

  lemma RecordsClean(output: string)
    ensures Decode(output).Ok? ==> forall k :: 0 <= k < |Decode(output).value| ==> CleanRecord(Decode(output).value[k])
  {
    var s := RemoveAll(output, '\'');
    var lines := Lines(output);
    RemoveAllChars(output, '\'');
    SplitPieceChars(s, '\n');
    SplitPiecesExcludeSep(s, '\n');
    DecodeLinesMeaning(lines);
    forall k | 0 <= k < |lines| && HasFields(lines[k])
      ensures CleanRecord(Record(lines[k]))
    {
      assert lines[k] == Split(s, '\n')[k];
      assert '\'' !in s;
      assert '\'' !in lines[k];
      FieldsClean(lines[k]);
    }
  }

  /** The `|`-fields of a line without apostrophes or newlines are clean. */
  lemma FieldsClean(line: string)
    requires '\'' !in line && '\n' !in line
    ensures forall j :: 0 <= j < |Split(line, '|')| ==> Clean(Split(line, '|')[j])
  {
    SplitPieceChars(line, '|');
    SplitPiecesExcludeSep(line, '|');
  }

  /** The tool's side of the format: a record's four fields joined by `|`. */
  function RawLine(l: Log): (line: string)
  {
    Join([l.hash, l.user, l.date, l.message], '|')
  }

  /** The lines `--pretty=format:'%h|%an|%ad|%s'` prints: each inside the
      format's apostrophes. */
  function FormatLines(logs: seq<Log>): (lines: seq<string>)
  {
    if logs == [] then [] else ["'" + RawLine(logs[0]) + "'"] + FormatLines(logs[1..])
  }

  function RawLines(logs: seq<Log>): (lines: seq<string>)
  {
    if logs == [] then [] else [RawLine(logs[0])] + RawLines(logs[1..])
  }

  /** The output of the tool for `logs`: `format:` separates entries by a newline. */
  function Format(logs: seq<Log>): (output: string)
  {
    Join(FormatLines(logs), '\n')
  }

  /** A clean record's line splits back into exactly its four fields. */
  lemma RawLineFields(l: Log)
    requires CleanRecord(l)
    ensures HasFields(RawLine(l)) && Record(RawLine(l)) == l
    ensures '\'' !in RawLine(l) && '\n' !in RawLine(l) && RawLine(l) != []
  {
    var fields := [l.hash, l.user, l.date, l.message];
    SplitJoin(fields, '|');
    JoinExcludes(fields, '|', '\'');
    JoinExcludes(fields, '|', '\n');
  }

  /** Removing the apostrophes around a line without apostrophes leaves the line. */
  lemma Unquote(raw: string)
    requires '\'' !in raw
    ensures RemoveAll("'" + raw + "'", '\'') == raw
  {
    RemoveAllAppend("'" + raw, "'", '\'');
    RemoveAllAppend("'", raw, '\'');
    RemoveAllAbsent(raw, '\'');
  }

  /** Removing the apostrophes from the formatted output leaves the raw lines. */
  lemma {:induction false} StripFormat(logs: seq<Log>)
    requires forall k :: 0 <= k < |logs| ==> CleanRecord(logs[k])
    ensures RemoveAll(Format(logs), '\'') == Join(RawLines(logs), '\n')
  {
    if logs != [] {
      var l := logs[0];
      var quoted := "'" + RawLine(l) + "'";
      var rest := FormatLines(logs[1..]);
      assert FormatLines(logs) == [quoted] + rest;
      assert RawLines(logs) == [RawLine(l)] + RawLines(logs[1..]);
      RawLineFields(l);
      Unquote(RawLine(l));
      if |logs| > 1 {
        assert rest != [] && RawLines(logs[1..]) != [];
        calc {
          RemoveAll(Format(logs), '\'');
        == { JoinCons(quoted, rest, '\n'); }
          RemoveAll(quoted + "\n" + Join(rest, '\n'), '\'');
        == { RemoveAllAppend(quoted + "\n", Join(rest, '\n'), '\''); }
          RemoveAll(quoted + "\n", '\'') + RemoveAll(Join(rest, '\n'), '\'');
        == { RemoveAllAppend(quoted, "\n", '\''); StripFormat(logs[1..]); }
          RemoveAll(quoted, '\'') + RemoveAll("\n", '\'') + Join(RawLines(logs[1..]), '\n');
        == { assert RemoveAll("\n", '\'') == "\n"; }
          RawLine(l) + "\n" + Join(RawLines(logs[1..]), '\n');
        == { JoinCons(RawLine(l), RawLines(logs[1..]), '\n'); }
          Join(RawLines(logs), '\n');
        }
      }
    }
  }

  /** The raw lines are the records' lines, one per record. */
  lemma {:induction false} RawLinesAt(logs: seq<Log>)
    ensures |RawLines(logs)| == |logs|
    ensures forall k :: 0 <= k < |logs| ==> RawLines(logs)[k] == RawLine(logs[k])
  {
    if logs != [] {
      RawLinesAt(logs[1..]);
      assert forall k :: 1 <= k < |logs| ==> logs[k] == logs[1..][k - 1];
    }
  }

  /** Decoding reads back the clean records of the raw lines, in order. */
  lemma {:induction false} DecodeRawLines(logs: seq<Log>)
    requires forall k :: 0 <= k < |logs| ==> CleanRecord(logs[k])
    ensures DecodeLines(RawLines(logs)) == Ok(logs)
  {
    if logs != [] {
      RawLineFields(logs[0]);
      DecodeRawLines(logs[1..]);
      assert [logs[0]] + logs[1..] == logs;
    }
  }

  /** Round trip: the decoder reads back exactly the records the tool
      printed, as long as no field holds an apostrophe, a `|` or a newline. */
  lemma DecodeFormat(logs: seq<Log>)
    requires forall k :: 0 <= k < |logs| ==> CleanRecord(logs[k])
    ensures Decode(Format(logs)) == Ok(logs)
  {
    StripFormat(logs);
    RawLinesAt(logs);
    var raw := RawLines(logs);
    if logs == [] {
      assert Lines(Format(logs)) == [];
    } else {
      forall k | 0 <= k < |raw|
        ensures '\n' !in raw[k]
      {
        RawLineFields(logs[k]);
      }
      SplitJoin(raw, '\n');
      RawLineFields(logs[|logs| - 1]);
      assert Lines(Format(logs)) == raw;
      DecodeRawLines(logs);
    }
  }

  /** A newline after the last entry, as `tformat:` would print, adds no record. */
  lemma DecodeFormatTerminated(logs: seq<Log>)
    requires logs != []
    requires forall k :: 0 <= k < |logs| ==> CleanRecord(logs[k])
    ensures Decode(Format(logs) + "\n") == Ok(logs)
  {
    StripFormat(logs);
    RawLinesAt(logs);
    var raw := RawLines(logs);
    forall k | 0 <= k < |raw|
      ensures '\n' !in raw[k]
    {
      RawLineFields(logs[k]);
    }
    RemoveAllAppend(Format(logs), "\n", '\'');
    assert RemoveAll("\n", '\'') == "\n";
    JoinSnoc(raw, "", '\n');
    assert Join(raw, '\n') + "\n" == Join(raw, '\n') + ['\n'] + "";
    SplitJoin(raw + [""], '\n');
    assert (raw + [""])[..|raw|] == raw;
    assert Lines(Format(logs) + "\n") == raw;
    DecodeRawLines(logs);
  }

  /** Output of a single well-formed line decodes to the single record of that line. */
  lemma DecodeOneLine(line: string)
    requires '\'' !in line && '\n' !in line && line != []
    requires HasFields(line)
    ensures Decode(line) == Ok([Record(line)])
  {
    RemoveAllAbsent(line, '\'');
    SplitNoSep(line, '\n');
    var lines := [line];
    assert Lines(line) == lines;
    assert lines[1..] == [];
    assert DecodeLines(lines[1..]) == Ok([]);
    assert DecodeLines(lines) == Ok([Record(line)] + []);
    assert [Record(line)] + [] == [Record(line)];
    assert Decode(line) == DecodeLines(lines);
  }

  /** Nothing requires a field to be non-empty: a line of three bars is one
      record whose four fields are all empty. */
  lemma EmptyFieldsAccepted()
    ensures Decode("|||") == Ok([Log("", "", "", "")])
  {
    var l := Log("", "", "", "");
    JoinCons("", ["", "", ""], '|');
    JoinCons("", ["", ""], '|');
    JoinCons("", [""], '|');
    assert RawLine(l) == "|||";
    RawLineFields(l);
    DecodeOneLine(RawLine(l));
  }

  /** A subject that holds a `|` is cut at its first `|`: the rest is a fifth
      field, which the decoder ignores. */
  lemma MessageCutAtBar(l: Log, tail: string)
    requires CleanRecord(l)
    ensures var line := RawLine(l) + "|" + tail;
      HasFields(line) && Record(line) == l
  {
    var fields := [l.hash, l.user, l.date, l.message];
    JoinCons(l.hash, [l.user, l.date, l.message], '|');
    JoinCons(l.user, [l.date, l.message], '|');
    JoinCons(l.date, [l.message], '|');
    var line := RawLine(l) + "|" + tail;
    assert line == l.hash + "|" + (l.user + "|" + (l.date + "|" + (l.message + "|" + tail)));
    SplitPrefix(l.hash, l.user + "|" + (l.date + "|" + (l.message + "|" + tail)), '|');
    SplitPrefix(l.user, l.date + "|" + (l.message + "|" + tail), '|');
    SplitPrefix(l.date, l.message + "|" + tail, '|');
    SplitPrefix(l.message, tail, '|');
  }
}
