/** `GitAutoCheckout::GitCheckoutHelper`
    (lib/git_auto_checkout/git_checkout_helper.rb): reads the commits out of
    the `git log` text, then runs the commit menu over the user's input
    lines. The parser keeps the source's shape: a line array shortened in
    place with `slice!`, scans with early returns, and commits appended to
    `@commits` one at a time. */
module CheckoutHelper {
  import opened Results
  import opened RubyString
  import opened GitCommits
  import opened LogFormat
  import opened Prompt

  /** The Ruby Array of log lines that the parser shortens from the front. */
  class LineBuffer {
    var lines: seq<string>

    constructor(lines: seq<string>)
      ensures this.lines == lines
    {
      this.lines := lines;
    }

    /** `slice!(0, n)`: drops the first `n` lines, or all when fewer. */
    method SliceFront(n: nat)
      modifies this
      ensures lines == old(lines)[Min(n, |old(lines)|)..]
    {
      lines := lines[Min(n, |lines|)..];
    }
  }

  /** What `parse_commit_hash` returns: the hash and the index of the line
      after the commit line. */
  datatype HashLine = HashLine(hashString: string, next: nat)

  /** `prefix` put in front of the commits of a successful read; an error
      is passed on unchanged. */
  function Prepended(prefix: seq<GitCommit>, r: Result<seq<GitCommit>, ParseError>): Result<seq<GitCommit>, ParseError> {
    match r
    case Ok(cs) => Ok(prefix + cs)
    case Err(e) => Err(e)
  }

  lemma PrependedNothing(r: Result<seq<GitCommit>, ParseError>)
    ensures Prepended([], r) == r
  {
    if r.Ok? {
      assert [] + r.value == r.value;
    }
  }

  lemma PrependedTwice(a: seq<GitCommit>, b: seq<GitCommit>, r: Result<seq<GitCommit>, ParseError>)
    ensures Prepended(a, Prepended(b, r)) == Prepended(a + b, r)
  {
    if r.Ok? {
      assert a + (b + r.value) == a + b + r.value;
    }
  }

  lemma PrefixedTwice(a: seq<Screen>, b: seq<Screen>, r: SessionResult)
    ensures Prefixed(a, Prefixed(b, r)) == Prefixed(a + b, r)
  {
    assert a + (b + r.screens) == a + b + r.screens;
  }

  /** The first empty line the scan of the lines after the commit line
      meets is the first empty line after the commit line. */
  lemma BlankAfterCommit(lines: seq<string>, next: nat, i: nat)
    requires 1 <= next <= |lines|
    requires next + i < |lines| && lines[next + i] == ""
    requires forall j :: 0 <= j < i ==> lines[next..][j] != ""
    ensures FirstEmptyAfter(lines, next - 1, next + i)
  {
    var body := lines[next..];
    forall j | next - 1 < j < next + i
      ensures lines[j] != ""
    {
      assert lines[j] == body[j - next];
    }
  }

  /** The outcomes of reading a commit, stated on the lines after the
      commit line. */
  lemma CommitAfter(lines: seq<string>, next: nat, i: nat)
    requires 1 <= next && next + i < |lines|
    requires IsCommitLine(lines[next - 1])
    ensures var body := lines[next..];
            var r := CommitAt(lines, next - 1, next + i);
            (i + 1 == |body| ==> r == Err(NilMessageLine)) &&
            (i + 2 < |body| && body[i + 2] != "" ==> r == Err(WeirdMessageEnding)) &&
            (i + 1 < |body| && (i + 2 == |body| || body[i + 2] == "") ==>
               r == Ok(Parsed(GitCommit(HashOf(lines[next - 1]), Strip(body[i + 1])), body[i + 2..])))
  {
    var body := lines[next..];
    if i + 1 < |body| {
      assert body[i + 1] == lines[next + i + 1];
      if i + 2 < |body| {
        assert body[i + 2] == lines[next + i + 2];
      }
      assert body[i + 2..] == lines[next + i + 2..];
    }
  }

  /** The first empty line after the commit line decides what reading one
      commit gives, stated on the lines after the commit line. */
  lemma MessageAt(lines: seq<string>, next: nat, i: nat)
    requires 1 <= next && FirstCommitAt(lines, next - 1)
    requires next + i < |lines| && lines[next + i] == ""
    requires forall j :: 0 <= j < i ==> lines[next..][j] != ""
    ensures var body := lines[next..];
            (i + 1 == |body| ==> ParseOne(lines) == Err(NilMessageLine)) &&
            (i + 2 < |body| && body[i + 2] != "" ==> ParseOne(lines) == Err(WeirdMessageEnding)) &&
            (i + 1 < |body| && (i + 2 == |body| || body[i + 2] == "") ==>
               ParseOne(lines) == Ok(Parsed(GitCommit(HashOf(lines[next - 1]), Strip(body[i + 1])), body[i + 2..])))
  {
    BlankAfterCommit(lines, next, i);
    ParseOneAt(lines, next - 1, next + i);
    CommitAfter(lines, next, i);
  }

  /** No empty line after the commit line: no message. */
  lemma NoMessageAfter(lines: seq<string>, next: nat)
    requires 1 <= next && FirstCommitAt(lines, next - 1)
    requires forall j :: 0 <= j < |lines[next..]| ==> lines[next..][j] != ""
    ensures ParseOne(lines) == Err(NoMessageFound)
  {
    assert forall j :: next - 1 < j < |lines| ==> lines[j] == lines[next..][j - next];
    ParseOneNoMessage(lines, next - 1);
  }

  class GitCheckoutHelper {
    var commits: seq<GitCommit>

    constructor()
      ensures commits == []
    {
      commits := [];
    }

    /** `parse_commit_hash`: the first line whose first word is `commit`
        gives the hash (its last word) and the index just after it; with no
        such line, "no commit found". */
    method ParseCommitHash(log: LineBuffer) returns (r: Result<HashLine, ParseError>)
      ensures r.Err? ==> r.error == NoCommitFound &&
                         forall j {:trigger IsCommitLine(log.lines[j])} :: 0 <= j < |log.lines| ==> !IsCommitLine(log.lines[j])
      ensures r.Ok? ==> 1 <= r.value.next <= |log.lines| &&
                        FirstCommitAt(log.lines, r.value.next - 1) &&
                        r.value.hashString == HashOf(log.lines[r.value.next - 1])
    {
      var i := 0;
      while i < |log.lines|
        invariant 0 <= i <= |log.lines|
        invariant forall j {:trigger IsCommitLine(log.lines[j])} :: 0 <= j < i ==> !IsCommitLine(log.lines[j])
      {
        var words := Words(log.lines[i]);
        if words != [] && words[0] == "commit" {
          return Ok(HashLine(Last(words), i + 1));
        }
        i := i + 1;
      }
      return Err(NoCommitFound);
    }

    /** `parse_one_commit`: reads the first commit of the log and removes
        its lines, up to and including the message, from the front. */
    method ParseOneCommit(log: LineBuffer) returns (r: Result<GitCommit, ParseError>)
      modifies log
      ensures ParseOne(old(log.lines)).Ok? ==>
                r == Ok(ParseOne(old(log.lines)).value.commit) &&
                log.lines == ParseOne(old(log.lines)).value.rest
      ensures ParseOne(old(log.lines)).Err? ==> r == Err(ParseOne(old(log.lines)).error)
    {
      ghost var all := log.lines;
      var h := ParseCommitHash(log);
      if h.Err? {
        return Err(h.error);
      }
      var next := h.value.next;
      log.SliceFront(next);
      var body := log.lines;
      var i := 0;
      while i < |body|
        invariant 0 <= i <= |body|
        invariant forall j :: 0 <= j < i ==> body[j] != ""
      {
        if body[i] == "" {
          MessageAt(all, next, i);
          if i + 1 >= |body| {
            return Err(NilMessageLine);
          }
          var message := Strip(body[i + 1]);
          if i + 2 < |body| && body[i + 2] != "" {
            return Err(WeirdMessageEnding);
          }
          log.SliceFront(i + 2);
          return Ok(GitCommit(h.value.hashString, message));
        }
        i := i + 1;
      }
      NoMessageAfter(all, next);
      return Err(NoMessageFound);
    }

    /** `parse_all_commits`: `@commits` starts empty and receives one
        commit per round until no line is left; a failure ends the reading. */
    method ParseAllCommits(log: LineBuffer) returns (err: Option<ParseError>)
      modifies this, log
      ensures ParseLog(old(log.lines)).Ok? ==>
                err == None && commits == ParseLog(old(log.lines)).value && log.lines == []
      ensures ParseLog(old(log.lines)).Err? ==> err == Some(ParseLog(old(log.lines)).error)
    {
      ghost var all := log.lines;
      commits := [];
      PrependedNothing(ParseLog(all));
      while log.lines != []
        invariant ParseLog(all) == Prepended(commits, ParseLog(log.lines))
        decreases |log.lines|
      {
        ghost var before := log.lines;
        var c := ParseOneCommit(log);
        if c.Err? {
          return Some(c.error);
        }
        assert ParseLog(before) == Prepended([c.value], ParseLog(log.lines));
        PrependedTwice(commits, [c.value], ParseLog(log.lines));
        commits := commits + [c.value];
      }
      assert commits + [] == commits;
      return None;
    }

    /** `prompt_user_until_quit_or_selection` over a finite list of input
        lines: the recursion of the source is a loop around the page index
        and the last invalid entry. */
    method PromptUserUntilQuitOrSelection(inputs: seq<string>) returns (r: SessionResult)
      ensures r == Session(commits, 0, None, inputs)
    {
      var idx: int := 0;
      var error: Option<Selection> := None;
      var k := 0;
      var screens: seq<Screen> := [];
      assert inputs[0..] == inputs;
      while true
        invariant 0 <= k <= |inputs|
        invariant Session(commits, 0, None, inputs) == Prefixed(screens, Session(commits, idx, error, inputs[k..]))
        decreases |inputs| - k
      {
        ghost var rest := inputs[k..];
        var page := PageListing(commits, idx);
        if page.None? {
          assert Session(commits, idx, error, rest) == SessionResult([], Crashed);
          assert screens + [] == screens;
          return SessionResult(screens, Crashed);
        }
        var screen := Screen(error, page.value);
        if k == |inputs| {
          assert Session(commits, idx, error, rest) == SessionResult([screen], Waiting(idx));
          return SessionResult(screens + [screen], Waiting(idx));
        }
        var decision := Decide(commits, idx, inputs[k]);
        assert rest[0] == inputs[k] && rest[1..] == inputs[k + 1..];
        ghost var before := screens;
        screens := screens + [screen];
        k := k + 1;
        match decision
        case Quit =>
          assert Session(commits, idx, error, rest) == SessionResult([screen], Quitted);
          return SessionResult(screens, Quitted);
        case Choose(h) =>
          assert Session(commits, idx, error, rest) == SessionResult([screen], Selected(h));
          return SessionResult(screens, Selected(h));
        case Crash =>
          assert Session(commits, idx, error, rest) == SessionResult([screen], Crashed);
          return SessionResult(screens, Crashed);
        case Move(j) =>
          assert Session(commits, idx, error, rest) == Prefixed([screen], Session(commits, j, None, inputs[k..]));
          PrefixedTwice(before, [screen], Session(commits, j, None, inputs[k..]));
          idx, error := j, None;
        case Reprompt(e) =>
          assert Session(commits, idx, error, rest) == Prefixed([screen], Session(commits, idx, Some(e), inputs[k..]));
          PrefixedTwice(before, [screen], Session(commits, idx, Some(e), inputs[k..]));
          error := Some(e);
      }
    }

    /** `make_commit`: runs the menu; a chosen hash is what `git checkout`
        is given, quitting checks nothing out, and a crashed menu raises. */
    method MakeCommit(inputs: seq<string>) returns (target: Result<Option<string>, MenuError>)
      ensures target == CheckoutTarget(Session(commits, 0, None, inputs).ending)
      ensures target.Ok? && target.value.Some? ==>
                exists j :: 0 <= j < |commits| && commits[j].hashString == target.value.value
    {
      var session := PromptUserUntilQuitOrSelection(inputs);
      match session.ending {
        case Selected(h) =>
          SelectedHashIsACommit(commits, 0, None, inputs);
          target := Ok(Some(h));
        case Quitted =>
          target := Ok(None);
        case Crashed =>
          target := Err(NoMethodError);
        case Waiting(_) =>
          target := Err(AwaitingInput);
      }
    }
  }

  /** `GitCheckoutHelper.new` given the text `git log` printed: the text is
      split into lines and every commit is read; a malformed log raises. */
  method Initialize(gitLog: string) returns (r: Result<GitCheckoutHelper, ParseError>)
    ensures ParseLog(SplitLines(gitLog)).Ok? ==>
              r.Ok? && fresh(r.value) && r.value.commits == ParseLog(SplitLines(gitLog)).value
    ensures ParseLog(SplitLines(gitLog)).Err? ==> r == Err(ParseLog(SplitLines(gitLog)).error)
  {
    var helper := new GitCheckoutHelper();
    var log := new LineBuffer(SplitLines(gitLog));
    var err := helper.ParseAllCommits(log);
    if err.Some? {
      return Err(err.value);
    }
    return Ok(helper);
  }
}
