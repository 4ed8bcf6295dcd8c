/** The `git log` text format as the checkout helper reads it
    (lib/git_auto_checkout/git_checkout_helper.rb:101-138), as pure
    functions over the list of lines. `CheckoutHelper` implements these
    functions with the source's loops and in-place slicing. */
module LogFormat {
  import opened Results
  import opened RubyString
  import opened GitCommits

  /** The ways reading the log fails. The first three are the messages the
      source raises; the last is the NoMethodError of calling `strip` on the
      nil that follows a blank last line. */
  datatype ParseError =
    | NoCommitFound
    | NoMessageFound
    | WeirdMessageEnding
    | NilMessageLine

  /** A line whose first white-space separated word is exactly `commit`
      (`CommitLineShape` says what such a line looks like). */
  predicate IsCommitLine(line: string): (b: bool)
    ensures b ==> |line| >= 6
  {
    FirstWord(line);
    var ws := Words(line);
    ws != [] && ws[0] == "commit"
  }

  /** A commit line is one that, after its leading white space, reads
      `commit` followed by white space or by nothing. */
  lemma CommitLineShape(line: string)
    ensures IsCommitLine(line) <==> var t := SkipSpaces(line);
                                    |t| >= 6 && t[..6] == "commit" && (|t| == 6 || IsSpace(t[6]))
  {
    FirstWord(line);
    CommitWord(SkipSpaces(line));
  }

  /** The run of non-space characters at the front of `t` is `commit`
      exactly when `t` starts with `commit` and white space or its end
      follows. */
  lemma CommitWord(t: string)
    ensures t[..WordEnd(t)] == "commit" <==> |t| >= 6 && t[..6] == "commit" && (|t| == 6 || IsSpace(t[6]))
  {
    if |t| >= 6 && t[..6] == "commit" && (|t| == 6 || IsSpace(t[6])) {
      CommitWordEnd(t);
    }
  }

  /** After `commit` and white space or the end of the text, the first
      word ends after six characters. */
  lemma CommitWordEnd(t: string)
    requires |t| >= 6 && t[..6] == "commit" && (|t| == 6 || IsSpace(t[6]))
    ensures WordEnd(t) == 6
  {
    var n := WordEnd(t);
    var word := "commit";
    assert forall k :: 0 <= k < 6 ==> t[k] == t[..6][k];
    assert !IsSpace(word[0]) && !IsSpace(word[1]) && !IsSpace(word[2]);
    assert !IsSpace(word[3]) && !IsSpace(word[4]) && !IsSpace(word[5]);
  }

  /** A line whose first non-blank text is the word `commit` is a commit
      line, however it is indented and whatever follows the white space
      after the word; an indented message line can be one. */
  lemma IndentedCommitLine(indent: string, gap: string, rest: string)
    requires AllSpace(indent) && gap != [] && AllSpace(gap)
    ensures IsCommitLine(indent + "commit" + gap + rest)
  {
    var word := "commit";
    assert IsWord(word);
    assert indent + word + gap + rest == indent + (word + gap + rest);
    WordsSkipsSpace(indent, word + gap + rest);
    WordsAfterWord(word, gap, rest);
  }

  /** The hash string of a commit line: its last word. */
  function HashOf(line: string): (h: string)
    requires IsCommitLine(line)
    ensures IsWord(h)
  {
    Last(Words(line))
  }

  /** The index of the first commit line at or after line `k`, if any
      (the scan of `parse_commit_hash`). */
  function FirstCommitFrom(lines: seq<string>, k: nat): (r: Option<nat>)
    requires k <= |lines|
    ensures r.Some? ==> k <= r.value < |lines| && IsCommitLine(lines[r.value])
    ensures r.Some? ==> forall j {:trigger IsCommitLine(lines[j])} :: k <= j < r.value ==> !IsCommitLine(lines[j])
    ensures r.None? ==> forall j {:trigger IsCommitLine(lines[j])} :: k <= j < |lines| ==> !IsCommitLine(lines[j])
    decreases |lines| - k
  {
    if k == |lines| then None
    else if IsCommitLine(lines[k]) then Some(k)
    else FirstCommitFrom(lines, k + 1)
  }

  /** The index of the first empty line at or after line `k`, if any (the
      scan of `parse_one_commit`). */
  function FirstEmptyFrom(lines: seq<string>, k: nat): (r: Option<nat>)
    requires k <= |lines|
    ensures r.Some? ==> k <= r.value < |lines| && lines[r.value] == ""
    ensures r.Some? ==> forall j :: k <= j < r.value ==> lines[j] != ""
    ensures r.None? ==> forall j :: k <= j < |lines| ==> lines[j] != ""
    decreases |lines| - k
  {
    if k == |lines| then None
    else if lines[k] == "" then Some(k)
    else FirstEmptyFrom(lines, k + 1)
  }

  /** What a well-formed log yields for one commit: a hash that is one word
      and a message with no white space at either end. */
  predicate ValidCommit(c: GitCommit) {
    IsWord(c.hashString) && IsTrimmed(c.message)
  }

  /** One commit read from the front of the log, and the lines left after it. */
  datatype Parsed = Parsed(commit: GitCommit, rest: seq<string>)

  /** `parse_one_commit` on a log: the hash is the last word of the first
      commit line; the message is the stripped line after the first empty
      line below it, and must be followed by an empty line or the end of
      the log; the lines up to and including the message are consumed. */
  function ParseOne(lines: seq<string>): (r: Result<Parsed, ParseError>)
    ensures r == Err(NoCommitFound) <==> forall j {:trigger IsCommitLine(lines[j])} :: 0 <= j < |lines| ==> !IsCommitLine(lines[j])
    ensures r.Ok? ==> ValidCommit(r.value.commit)
    ensures r.Ok? ==> |r.value.rest| + 3 <= |lines| && r.value.rest == lines[|lines| - |r.value.rest|..]
    ensures r.Ok? ==> r.value.rest == [] || r.value.rest[0] == ""
  {
    match FirstCommitFrom(lines, 0)
    case None => Err(NoCommitFound)
    case Some(i) =>
      match FirstEmptyFrom(lines, i + 1)
      case None => Err(NoMessageFound)
      case Some(e) => CommitAt(lines, i, e)
  }

  /** The commit whose commit line is line `i` and whose message follows
      the empty line `e`: the message line must exist and be followed by an
      empty line or the end of the log. */
  function CommitAt(lines: seq<string>, i: nat, e: nat): (r: Result<Parsed, ParseError>)
    requires i < e < |lines| && IsCommitLine(lines[i])
    ensures r.Ok? ==> ValidCommit(r.value.commit)
    ensures r.Ok? ==> |r.value.rest| + 3 <= |lines| && r.value.rest == lines[|lines| - |r.value.rest|..]
    ensures r.Ok? ==> r.value.rest == [] || r.value.rest[0] == ""
    ensures r.Err? ==> r.error != NoCommitFound
  {
    if e + 1 >= |lines| then Err(NilMessageLine)
    else if e + 2 < |lines| && lines[e + 2] != "" then Err(WeirdMessageEnding)
    else
      var rest := lines[e + 2..];
      assert rest == lines[|lines| - |rest|..];
      Ok(Parsed(GitCommit(HashOf(lines[i]), Strip(lines[e + 1])), rest))
  }

  /** `parse_all_commits`: commits are read from the front until no line is
      left; the first failure is the result. */
  function ParseLog(lines: seq<string>): (r: Result<seq<GitCommit>, ParseError>)
    ensures lines == [] ==> r == Ok([])
    ensures lines != [] && (forall j {:trigger IsCommitLine(lines[j])} :: 0 <= j < |lines| ==> !IsCommitLine(lines[j])) ==>
              r == Err(NoCommitFound)
    ensures r.Ok? ==> 3 * |r.value| <= |lines|
    ensures r.Ok? ==> forall k :: 0 <= k < |r.value| ==> ValidCommit(r.value[k])
    decreases |lines|
  {
    if lines == [] then Ok([])
    else match ParseOne(lines)
      case Err(e) => Err(e)
      case Ok(p) =>
        match ParseLog(p.rest)
        case Err(e) => Err(e)
        case Ok(cs) =>
          var all := [p.commit] + cs;
          assert forall k :: 0 < k < |all| ==> all[k] == cs[k - 1];
          Ok(all)
  }

  // -----------------------------------------------------------------------
  // What ParseOne does, stated through line positions
  // -----------------------------------------------------------------------

  /** Line `i` is the first commit line. */
  predicate FirstCommitAt(lines: seq<string>, i: nat) {
    i < |lines| && IsCommitLine(lines[i]) &&
    forall j {:trigger IsCommitLine(lines[j])} :: 0 <= j < i ==> !IsCommitLine(lines[j])
  }

  /** Line `e` is the first empty line after line `i`. */
  predicate FirstEmptyAfter(lines: seq<string>, i: nat, e: nat) {
    i < e < |lines| && lines[e] == "" &&
    forall j :: i < j < e ==> lines[j] != ""
  }

  lemma {:induction false} CommitScanFinds(lines: seq<string>, k: nat, i: nat)
    requires k <= i < |lines| && IsCommitLine(lines[i])
    requires forall j {:trigger IsCommitLine(lines[j])} :: k <= j < i ==> !IsCommitLine(lines[j])
    ensures FirstCommitFrom(lines, k) == Some(i)
    decreases i - k
  {
    if k < i {
      CommitScanFinds(lines, k + 1, i);
    }
  }

  lemma {:induction false} EmptyScanFinds(lines: seq<string>, k: nat, e: nat)
    requires k <= e < |lines| && lines[e] == ""
    requires forall j :: k <= j < e ==> lines[j] != ""
    ensures FirstEmptyFrom(lines, k) == Some(e)
    decreases e - k
  {
    if k < e {
      EmptyScanFinds(lines, k + 1, e);
    }
  }

  /** The commit line, the blank line and the message line decide the
      outcome of reading one commit. */
  lemma ParseOneAt(lines: seq<string>, i: nat, e: nat)
    requires FirstCommitAt(lines, i)
    requires FirstEmptyAfter(lines, i, e)
    ensures ParseOne(lines) == CommitAt(lines, i, e)
  {
    assert FirstCommitFrom(lines, 0) == Some(i) by {
      CommitScanFinds(lines, 0, i);
    }
    assert FirstEmptyFrom(lines, i + 1) == Some(e) by {
      EmptyScanFinds(lines, i + 1, e);
    }
  }

  /** Without an empty line after the first commit line there is no message. */
  lemma ParseOneNoMessage(lines: seq<string>, i: nat)
    requires FirstCommitAt(lines, i)
    requires forall j :: i < j < |lines| ==> lines[j] != ""
    ensures ParseOne(lines) == Err(NoMessageFound)
  {
    CommitScanFinds(lines, 0, i);
    assert FirstEmptyFrom(lines, i + 1).None?;
  }

  /** Lines before the first commit line are skipped. */
  lemma ParseOneSkipsNoise(noise: seq<string>, lines: seq<string>)
    requires forall j {:trigger IsCommitLine(noise[j])} :: 0 <= j < |noise| ==> !IsCommitLine(noise[j])
    ensures ParseOne(noise + lines) == ParseOne(lines)
  {
    match FirstCommitFrom(lines, 0)
    case None => NoiseOnly(noise, lines);
    case Some(i) =>
      match FirstEmptyFrom(lines, i + 1)
      case None => NoiseBeforeNoMessage(noise, lines, i);
      case Some(e) => NoiseBefore(noise, lines, i, e);
  }

  lemma NoiseOnly(noise: seq<string>, lines: seq<string>)
    requires forall j {:trigger IsCommitLine(noise[j])} :: 0 <= j < |noise| ==> !IsCommitLine(noise[j])
    requires forall j {:trigger IsCommitLine(lines[j])} :: 0 <= j < |lines| ==> !IsCommitLine(lines[j])
    ensures ParseOne(noise + lines) == Err(NoCommitFound) == ParseOne(lines)
  {
    var all := noise + lines;
    forall j | 0 <= j < |all|
      ensures !IsCommitLine(all[j])
    {
      if j < |noise| {
        assert all[j] == noise[j];
      } else {
        assert all[j] == lines[j - |noise|];
      }
    }
  }

  /** The first commit line of `lines` is the first of `noise + lines`. */
  lemma NoiseShiftsCommit(noise: seq<string>, lines: seq<string>, i: nat)
    requires forall j {:trigger IsCommitLine(noise[j])} :: 0 <= j < |noise| ==> !IsCommitLine(noise[j])
    requires FirstCommitAt(lines, i)
    ensures FirstCommitAt(noise + lines, |noise| + i)
  {
    var all := noise + lines;
    forall j | 0 <= j < |noise| + i
      ensures !IsCommitLine(all[j])
    {
      if j < |noise| {
        assert all[j] == noise[j];
      } else {
        assert all[j] == lines[j - |noise|];
      }
    }
    assert all[|noise| + i] == lines[i];
  }

  lemma NoiseBeforeNoMessage(noise: seq<string>, lines: seq<string>, i: nat)
    requires forall j {:trigger IsCommitLine(noise[j])} :: 0 <= j < |noise| ==> !IsCommitLine(noise[j])
    requires FirstCommitAt(lines, i)
    requires forall j :: i < j < |lines| ==> lines[j] != ""
    ensures ParseOne(noise + lines) == ParseOne(lines)
  {
    var all := noise + lines;
    NoiseShiftsCommit(noise, lines, i);
    assert forall j :: |noise| + i < j < |all| ==> all[j] == lines[j - |noise|];
    ParseOneNoMessage(all, |noise| + i);
    ParseOneNoMessage(lines, i);
  }

  lemma NoiseBefore(noise: seq<string>, lines: seq<string>, i: nat, e: nat)
    requires forall j {:trigger IsCommitLine(noise[j])} :: 0 <= j < |noise| ==> !IsCommitLine(noise[j])
    requires FirstCommitAt(lines, i)
    requires FirstEmptyAfter(lines, i, e)
    ensures ParseOne(noise + lines) == ParseOne(lines)
  {
    NoiseBeforeAt(noise, lines, i, e);
    CommitAtShift(noise, lines, i, e);
    ParseOneAt(lines, i, e);
  }

  /** With noise in front, the commit is read at the shifted positions. */
  lemma NoiseBeforeAt(noise: seq<string>, lines: seq<string>, i: nat, e: nat)
    requires forall j {:trigger IsCommitLine(noise[j])} :: 0 <= j < |noise| ==> !IsCommitLine(noise[j])
    requires FirstCommitAt(lines, i)
    requires FirstEmptyAfter(lines, i, e)
    ensures ParseOne(noise + lines) == CommitAt(noise + lines, |noise| + i, |noise| + e)
  {
    var all := noise + lines;
    assert FirstCommitAt(all, |noise| + i) by { NoiseShiftsCommit(noise, lines, i); }
    assert FirstEmptyAfter(all, |noise| + i, |noise| + e) by { NoiseShiftsEmpty(noise, lines, i, e); }
    ParseOneAt(all, |noise| + i, |noise| + e);
  }

  lemma NoiseShiftsEmpty(noise: seq<string>, lines: seq<string>, i: nat, e: nat)
    requires FirstEmptyAfter(lines, i, e)
    ensures FirstEmptyAfter(noise + lines, |noise| + i, |noise| + e)
  {
    var all := noise + lines;
    var n := |noise|;
    assert forall j :: n + i < j <= n + e ==> all[j] == lines[j - n];
  }

  /** Reading a commit does not depend on the lines above it. */
  lemma CommitAtShift(noise: seq<string>, lines: seq<string>, i: nat, e: nat)
    requires i < e < |lines| && IsCommitLine(lines[i])
    ensures IsCommitLine((noise + lines)[|noise| + i])
    ensures CommitAt(noise + lines, |noise| + i, |noise| + e) == CommitAt(lines, i, e)
  {
    var all := noise + lines;
    var n := |noise|;
    assert all[n + i] == lines[i];
    if e + 1 < |lines| {
      assert all[n + e + 1] == lines[e + 1];
      if e + 2 < |lines| {
        assert all[n + e + 2] == lines[e + 2];
      }
      assert all[n + e + 2..] == lines[e + 2..];
    }
  }

  // -----------------------------------------------------------------------
  // Round trip: a log written in the `git log` layout reads back
  // -----------------------------------------------------------------------

  /** One commit as `git log` prints it: the header lines between the
      commit line and the blank line (`Author:`, `Date:`, `Merge:`) and the
      commit itself. */
  datatype LogEntry = LogEntry(header: seq<string>, commit: GitCommit)

  /** The header has no blank line, and the commit can be read back. */
  predicate ValidEntry(e: LogEntry) {
    ValidCommit(e.commit) && forall j :: 0 <= j < |e.header| ==> e.header[j] != ""
  }

  /** The lines of one entry: the commit line, the header, a blank line
      and the message line, indented as `git log` indents it. */
  function CommitBlock(e: LogEntry, indent: string): seq<string> {
    ["commit " + e.commit.hashString] + e.header + ["", indent + e.commit.message]
  }

  /** A log of the given entries in order, blocks separated by one blank
      line and no blank line at the end (as `split("\n")` leaves it). */
  function RenderLog(es: seq<LogEntry>, indent: string): seq<string> {
    if es == [] then []
    else if |es| == 1 then CommitBlock(es[0], indent)
    else CommitBlock(es[0], indent) + [""] + RenderLog(es[1..], indent)
  }

  /** The commits of the entries, in order. */
  function CommitsOf(es: seq<LogEntry>): (cs: seq<GitCommit>)
    ensures |cs| == |es| && forall k :: 0 <= k < |es| ==> cs[k] == es[k].commit
  {
    seq(|es|, k requires 0 <= k < |es| => es[k].commit)
  }

  lemma CommitLineOf(h: string)
    requires IsWord(h)
    ensures IsCommitLine("commit " + h) && HashOf("commit " + h) == h
  {
    assert Unwords(["commit", h]) == "commit " + h;
    WordsOfUnwords(["commit", h]);
  }

  lemma ParseOneBlock(e: LogEntry, indent: string, tail: seq<string>)
    requires ValidEntry(e) && AllStripSpace(indent)
    requires tail == [] || tail[0] == ""
    ensures ParseOne(CommitBlock(e, indent) + tail) == Ok(Parsed(e.commit, tail))
  {
    var c := e.commit;
    var n := |e.header|;
    var lines := CommitBlock(e, indent) + tail;
    CommitLineOf(c.hashString);
    assert lines[0] == "commit " + c.hashString;
    assert FirstCommitAt(lines, 0);
    assert forall j :: 0 < j < n + 1 ==> lines[j] == e.header[j - 1];
    assert lines[n + 1] == "" && lines[n + 2] == indent + c.message;
    assert FirstEmptyAfter(lines, 0, n + 1);
    assert indent + c.message + [] == indent + c.message;
    StripPadded(indent, c.message, []);
    assert lines[n + 3..] == tail;
    ParseOneAt(lines, 0, n + 1);
  }

  lemma ParseLogBlock(e: LogEntry, indent: string, tail: seq<string>)
    requires ValidEntry(e) && AllStripSpace(indent)
    requires tail == [] || tail[0] == ""
    ensures ParseLog(tail).Ok? ==> ParseLog(CommitBlock(e, indent) + tail) == Ok([e.commit] + ParseLog(tail).value)
  {
    ParseOneBlock(e, indent, tail);
  }

  lemma ParseLogBlankPrefix(tail: seq<string>)
    requires tail != []
    ensures ParseLog([""] + tail) == ParseLog(tail)
  {
    assert !IsCommitLine("");
    ParseOneSkipsNoise([""], tail);
  }

  /** A block, a blank line and a readable log read as the block's commit
      followed by that log's commits. */
  lemma ParseLogCons(es: seq<LogEntry>, indent: string, tail: seq<string>)
    requires es != [] && ValidEntry(es[0]) && AllStripSpace(indent)
    requires tail != [] && ParseLog(tail) == Ok(CommitsOf(es[1..]))
    ensures ParseLog(CommitBlock(es[0], indent) + ([""] + tail)) == Ok(CommitsOf(es))
  {
    ParseLogBlankPrefix(tail);
    var rest := [""] + tail;
    ParseLogBlock(es[0], indent, rest);
    CommitsOfCons(es);
  }

  lemma CommitsOfCons(es: seq<LogEntry>)
    requires es != []
    ensures CommitsOf(es) == [es[0].commit] + CommitsOf(es[1..])
  {
    var cs := [es[0].commit] + CommitsOf(es[1..]);
    assert forall k :: 0 < k < |es| ==> cs[k] == es[k].commit;
  }

  lemma RenderLogCons(es: seq<LogEntry>, indent: string)
    requires |es| > 1
    ensures RenderLog(es[1..], indent) != []
    ensures RenderLog(es, indent) == CommitBlock(es[0], indent) + ([""] + RenderLog(es[1..], indent))
  {
  }

  /** Reading a rendered log gives back the commits, in log order. */
  lemma {:induction false} ParseRenderedLog(es: seq<LogEntry>, indent: string)
    requires forall k :: 0 <= k < |es| ==> ValidEntry(es[k])
    requires AllStripSpace(indent)
    ensures ParseLog(RenderLog(es, indent)) == Ok(CommitsOf(es))
  {
    if es == [] {
      assert CommitsOf(es) == [];
    } else if |es| == 1 {
      ParseRenderedSingle(es[0], indent);
      assert es == [es[0]];
    } else {
      RenderLogCons(es, indent);
      ParseRenderedLog(es[1..], indent);
      ParseLogCons(es, indent, RenderLog(es[1..], indent));
    }
  }

  lemma ParseRenderedSingle(e: LogEntry, indent: string)
    requires ValidEntry(e) && AllStripSpace(indent)
    ensures ParseLog(RenderLog([e], indent)) == Ok(CommitsOf([e]))
  {
    assert CommitBlock(e, indent) + [] == CommitBlock(e, indent);
    ParseLogBlock(e, indent, []);
    assert [e.commit] + [] == CommitsOf([e]);
  }

  /** The lines of an entry contain no line break. */
  predicate OneLineEach(e: LogEntry) {
    IsLine(e.commit.message) && forall j :: 0 <= j < |e.header| ==> IsLine(e.header[j])
  }

  /** A log text in the rendered layout, with or without the final newline,
      is split into its lines and read back into the same commits. */
  lemma ParseRenderedText(es: seq<LogEntry>, indent: string)
    requires forall k :: 0 <= k < |es| ==> ValidEntry(es[k]) && OneLineEach(es[k])
    requires AllStripSpace(indent) && IsLine(indent)
    requires indent != [] || forall k :: 0 <= k < |es| ==> es[k].commit.message != []
    ensures ParseLog(SplitLines(JoinLines(RenderLog(es, indent)))) == Ok(CommitsOf(es))
    ensures ParseLog(SplitLines(JoinLines(RenderLog(es, indent)) + "\n")) == Ok(CommitsOf(es))
  {
    var ls := RenderLog(es, indent);
    RenderedLines(es, indent);
    SplitLinesOfJoin(ls);
    calc {
      ParseLog(SplitLines(JoinLines(ls)));
      ParseLog(ls);
    ==  { ParseRenderedLog(es, indent); }
      Ok(CommitsOf(es));
    }
  }

  lemma {:induction false} RenderedLines(es: seq<LogEntry>, indent: string)
    requires forall k :: 0 <= k < |es| ==> ValidEntry(es[k]) && OneLineEach(es[k])
    requires AllStripSpace(indent) && IsLine(indent)
    requires indent != [] || forall k :: 0 <= k < |es| ==> es[k].commit.message != []
    ensures var ls := RenderLog(es, indent);
            (forall j :: 0 <= j < |ls| ==> IsLine(ls[j])) && (ls == [] || ls[|ls| - 1] != "")
  {
    if es != [] {
      var e := es[0];
      var c := e.commit;
      assert IsLine("commit " + c.hashString) by {
        assert forall k :: 0 <= k < |c.hashString| ==> !IsSpace(c.hashString[k]);
      }
      assert IsLine(indent + c.message);
      var block := CommitBlock(e, indent);
      assert forall j :: 0 <= j < |block| ==> IsLine(block[j]) by {
        forall j | 0 <= j < |block|
          ensures IsLine(block[j])
        {
          if 0 < j <= |e.header| {
            assert block[j] == e.header[j - 1];
          }
        }
      }
      if |es| > 1 {
        RenderedLines(es[1..], indent);
      } else {
        assert (indent + c.message) != [] by {
          if indent == [] { assert e == es[0]; }
        }
      }
    }
  }

  /** A message of two lines is not read: the line after the first message
      line must be blank or missing. */
  lemma TwoLineMessageIsWeird(h: string, first: string, second: string, tail: seq<string>)
    requires IsWord(h) && second != ""
    ensures ParseOne(["commit " + h, "", first, second] + tail) == Err(WeirdMessageEnding)
  {
    var lines := ["commit " + h, "", first, second] + tail;
    CommitLineOf(h);
    assert FirstCommitAt(lines, 0);
    assert FirstEmptyAfter(lines, 0, 1);
    ParseOneAt(lines, 0, 1);
  }

  // -----------------------------------------------------------------------
  // A log split from text never ends on nil
  // -----------------------------------------------------------------------

  /** Lines that do not end with a blank line never leave the message line
      missing: the blank line before it cannot be the last line. */
  lemma ParseOneNeverNil(lines: seq<string>)
    requires lines != [] && lines[|lines| - 1] != ""
    ensures ParseOne(lines) != Err(NilMessageLine)
  {
    var fc := FirstCommitFrom(lines, 0);
    if fc.Some? {
      var fe := FirstEmptyFrom(lines, fc.value + 1);
      if fe.Some? {
        assert fe.value + 1 < |lines|;
      }
    }
  }

  /** Reading a log that does not end with a blank line never fails on a
      missing message line, because every log left to read is a suffix of
      it. */
  lemma {:induction false} ParseLogNeverNil(lines: seq<string>)
    requires lines == [] || lines[|lines| - 1] != ""
    ensures ParseLog(lines) != Err(NilMessageLine)
    decreases |lines|
  {
    if lines != [] {
      ParseOneNeverNil(lines);
      match ParseOne(lines)
      case Err(_) =>
      case Ok(p) =>
        assert p.rest == [] || p.rest[|p.rest| - 1] == lines[|lines| - 1];
        ParseLogNeverNil(p.rest);
    }
  }

  /** The log `initialize` reads is the text split into lines, which drops
      trailing empty strings, so the `nil.strip` crash cannot happen there. */
  lemma SplitLogNeverNil(text: string)
    ensures ParseLog(SplitLines(text)) != Err(NilMessageLine)
  {
    ParseLogNeverNil(SplitLines(text));
  }
}
