/** The commit menu of `prompt_user_until_quit_or_selection` and
    `print_prompt` (lib/git_auto_checkout/git_checkout_helper.rb:47-90) as
    pure functions: what one line of input decides, which commits a page
    lists, and a whole session over a finite list of input lines. */
module Prompt {
  import opened Results
  import opened RubyString
  import opened GitCommits

  /** Number of commits a page lists. */
  const PageSize: int := 4

  function Max(a: int, b: int): int { if a >= b then a else b }

  function Min(a: int, b: int): int { if a <= b then a else b }

  // -----------------------------------------------------------------------
  // Ruby array access
  // -----------------------------------------------------------------------

  /** `xs[k]`: a negative index counts from the end; out of range is nil. */
  function RubyAt<T>(xs: seq<T>, k: int): (r: Option<T>)
    ensures r.Some? <==> -|xs| <= k < |xs|
    ensures r.Some? && k >= 0 ==> r.value == xs[k]
    ensures r.Some? && k < 0 ==> r.value == xs[|xs| + k]
  {
    if 0 <= k < |xs| then Some(xs[k])
    else if -|xs| <= k < 0 then Some(xs[|xs| + k])
    else None
  }

  /** `xs[b...e]`, Ruby's slice by an exclusive range: negative ends count
      from the end; a start before the front or past the end is nil; the
      end is cut at the end of `xs`. Also yields the index of the first
      element taken. */
  function RubySlice<T>(xs: seq<T>, b: int, e: int): (r: Option<(nat, seq<T>)>)
    ensures r.Some? ==> r.value.0 + |r.value.1| <= |xs| && r.value.1 == xs[r.value.0..r.value.0 + |r.value.1|]
    ensures r.None? <==> b < -|xs| || b > |xs|
    ensures r.Some? ==> r.value.0 == if b < 0 then b + |xs| else b
    ensures r.Some? ==> |r.value.1| == Max(Min(if e < 0 then e + |xs| else e, |xs|) - r.value.0, 0)
  {
    var start := if b < 0 then b + |xs| else b;
    if start < 0 || start > |xs| then None
    else
      var stop := if e < 0 then e + |xs| else e;
      var stop' := Min(stop, |xs|);
      var len := Max(stop' - start, 0);
      Some((start, xs[start..start + len]))
  }

  // -----------------------------------------------------------------------
  // The page listing of print_prompt
  // -----------------------------------------------------------------------

  /** One listed commit: the number to type and the commit's message. */
  datatype PageEntry = PageEntry(number: int, message: string)

  /** The position in `commits` where the page at `idx` starts: a negative
      index counts from the end. */
  function PageStart(size: int, idx: int): int {
    if idx < 0 then idx + size else idx
  }

  /** `@commits[idx...idx + 4]`, each numbered `idx + i`; None is the nil
      that `each_with_index` then fails on. */
  function PageListing(commits: seq<GitCommit>, idx: int): (r: Option<seq<PageEntry>>)
    ensures r.None? <==> idx < -|commits| || idx > |commits|
    ensures r.Some? ==> |r.value| <= PageSize
    ensures r.Some? ==> forall i :: 0 <= i < |r.value| ==> r.value[i].number == idx + i
  {
    match RubySlice(commits, idx, idx + PageSize)
    case None => None
    case Some((_, page)) =>
      Some(seq(|page|, i requires 0 <= i < |page| => PageEntry(idx + i, page[i].message)))
  }

  /** What one screen shows: the previous invalid entry, if any, and the
      page of commits. The fixed instructions and the clearing of the
      terminal are not modelled. */
  datatype Screen = Screen(error: Option<Selection>, entries: seq<PageEntry>)

  // -----------------------------------------------------------------------
  // One line of input
  // -----------------------------------------------------------------------

  /** The input after `selection = number if selection == '0' || number != 0`:
      an Integer or the String as typed. */
  datatype Selection = Number(n: int) | Text(s: string)

  function Normalize(input: string): (sel: Selection)
    ensures sel.Number? ==> sel.n == ToI(input)
    ensures sel.Text? ==> sel == Text(input) && ToI(input) == 0
  {
    var number := ToI(input);
    if input == "0" || number != 0 then Number(number) else Text(input)
  }

  /** What the `case` makes of one input line. */
  datatype Decision =
    | Quit                   // 'q': returns false
    | Move(idx: int)         // 'p' or 'n': prompt again at a new index
    | Choose(hash: string)   // a number on the page: that commit's hash
    | Reprompt(error: Selection) // anything else: prompt again, showing it
    | Crash                  // a number on the page with no commit: nil.hash_string

  /** The decision for input `input` while the page starts at `idx`. */
  function Decide(commits: seq<GitCommit>, idx: int, input: string): (d: Decision)
    ensures d.Move? ==> input == "p" || input == "n"
    ensures d.Reprompt? ==> d.error == Normalize(input)
    ensures d.Choose? || d.Crash? ==> idx <= ToI(input) < idx + PageSize
  {
    Choice(commits, idx, Normalize(input))
  }

  /** The `case` on the selection once a number has been read out of it. */
  function Choice(commits: seq<GitCommit>, idx: int, selection: Selection): (d: Decision)
    ensures d == Quit <==> selection == Text("q")
    ensures d.Move? ==> selection == Text("p") || selection == Text("n")
    ensures d.Reprompt? ==> d.error == selection
    ensures d.Choose? ==> selection.Number? && idx <= selection.n < idx + PageSize &&
                          RubyAt(commits, selection.n).Some? && RubyAt(commits, selection.n).value.hashString == d.hash
    ensures d.Crash? ==> selection.Number? && idx <= selection.n < idx + PageSize && !(-|commits| <= selection.n < |commits|)
  {
    match selection
    case Text(t) =>
      if t == "q" then Quit
      else if t == "p" then Move(Max(idx - PageSize, 0))
      else if t == "n" then Move(Min(idx + PageSize, |commits| - PageSize))
      else Reprompt(Text(t))
    case Number(k) =>
      if idx <= k < idx + PageSize then
        match RubyAt(commits, k)
        case Some(c) => Choose(c.hashString)
        case None => Crash
      else Reprompt(Number(k))
  }

  // -----------------------------------------------------------------------
  // A session
  // -----------------------------------------------------------------------

  /** How a session ends: quit, a commit chosen, a crash, or the input ran
      out while the menu waits at `idx`. */
  datatype Ending = Quitted | Selected(hash: string) | Crashed | Waiting(idx: int)

  datatype SessionResult = SessionResult(screens: seq<Screen>, ending: Ending)

  function Prefixed(screens: seq<Screen>, r: SessionResult): SessionResult {
    SessionResult(screens + r.screens, r.ending)
  }

  /** The menu shown at `idx` with `error`, then driven by `inputs`: each
      prompt first lists the page, then reads one line. */
  function Session(commits: seq<GitCommit>, idx: int, error: Option<Selection>, inputs: seq<string>): (r: SessionResult)
    ensures |r.screens| <= |inputs| + 1
    ensures r.ending.Waiting? ==> |r.screens| == |inputs| + 1
    decreases |inputs|
  {
    match PageListing(commits, idx)
    case None => SessionResult([], Crashed)
    case Some(entries) =>
      var screen := Screen(error, entries);
      if inputs == [] then SessionResult([screen], Waiting(idx))
      else match Decide(commits, idx, inputs[0])
        case Quit => SessionResult([screen], Quitted)
        case Choose(h) => SessionResult([screen], Selected(h))
        case Crash => SessionResult([screen], Crashed)
        case Move(j) => Prefixed([screen], Session(commits, j, None, inputs[1..]))
        case Reprompt(e) => Prefixed([screen], Session(commits, idx, Some(e), inputs[1..]))
  }

  /** Why `make_commit` does not return: the session dereferenced nil and
      raised `NoMethodError`, or it is still waiting for input. */
  datatype MenuError = NoMethodError | AwaitingInput

  /** `make_commit`: a chosen commit is checked out, a quit returns with
      nothing checked out, and a crashed session raises. */
  function CheckoutTarget(ending: Ending): (r: Result<Option<string>, MenuError>)
    ensures r == Ok(None) <==> ending == Quitted
    ensures (r.Ok? && r.value.Some?) <==> ending.Selected?
    ensures r.Ok? && r.value.Some? ==> r.value.value == ending.hash
    ensures r == Err(NoMethodError) <==> ending == Crashed
    ensures r == Err(AwaitingInput) <==> ending.Waiting?
  {
    match ending
    case Selected(h) => Ok(Some(h))
    case Quitted => Ok(None)
    case Crashed => Err(NoMethodError)
    case Waiting(_) => Err(AwaitingInput)
  }

  // -----------------------------------------------------------------------
  // Properties of one decision
  // -----------------------------------------------------------------------

  /** An input is a number exactly when it is "0" or reads as a non-zero
      integer; every integer written out is one. */
  lemma NormalizeIntToS(n: int)
    ensures Normalize(IntToS(n)) == Number(n)
  {
    ToIOfIntToS(n);
  }

  /** An input that starts with neither white space, a sign nor a digit
      stays the String it is. */
  lemma NormalizeNonNumeric(input: string)
    requires input != [] && !IsSpace(input[0]) && !IsDigit(input[0]) && input[0] != '-' && input[0] != '+'
    ensures Normalize(input) == Text(input)
  {
    ToIOfNonNumeric(input);
  }

  /** Only "q" quits. */
  lemma DecideQuit(commits: seq<GitCommit>, idx: int, input: string)
    ensures Decide(commits, idx, input) == Quit <==> input == "q"
  {
    if input == "q" {
      NormalizeNonNumeric(input);
    }
  }

  /** "p" goes back one page but never before the first commit. */
  lemma DecidePrevious(commits: seq<GitCommit>, idx: int, input: string)
    requires input == "p"
    ensures Decide(commits, idx, input) == Move(Max(idx - PageSize, 0))
    ensures Decide(commits, idx, input).idx >= 0
  {
    NormalizeNonNumeric(input);
  }

  /** "n" goes forward one page but not past the page that starts
      `PageSize` commits before the end; that index is a fixed point, and it
      is negative when there are fewer than `PageSize` commits. */
  lemma DecideNext(commits: seq<GitCommit>, idx: int, input: string)
    requires input == "n"
    ensures Decide(commits, idx, input) == Move(Min(idx + PageSize, |commits| - PageSize))
    ensures idx == |commits| - PageSize ==> Decide(commits, idx, input) == Move(idx)
    ensures |commits| < PageSize && idx >= 0 ==> Decide(commits, idx, input).idx < 0
  {
    NormalizeNonNumeric(input);
  }

  /** A number is chosen exactly when it is on the current page; the commit
      is the one Ruby's indexing gives, and with no commit there it crashes. */
  lemma DecideNumber(commits: seq<GitCommit>, idx: int, n: int)
    ensures idx <= n < idx + PageSize && -|commits| <= n < |commits| ==>
              Decide(commits, idx, IntToS(n)) == Choose(RubyAt(commits, n).value.hashString)
    ensures idx <= n < idx + PageSize && !(-|commits| <= n < |commits|) ==>
              Decide(commits, idx, IntToS(n)) == Crash
    ensures !(idx <= n < idx + PageSize) ==> Decide(commits, idx, IntToS(n)) == Reprompt(Number(n))
  {
    NormalizeIntToS(n);
  }

  /** Every other spelling of a number that `to_i` reads (leading white
      space, a sign, leading zeros, text after the digits) decides as the
      number written out when it is not 0; a spelling of 0 other than "0"
      itself is an invalid entry shown as typed. */
  lemma DecideSpelling(commits: seq<GitCommit>, idx: int, sp: string, sign: string, ds: string, rest: string)
    requires AllSpace(sp)
    requires sign == "" || sign == "+" || sign == "-"
    requires ds != [] && AllDigits(ds)
    requires rest == [] || (!IsDigit(rest[0]) && rest[0] != '_')
    requires ds == "0" && rest != [] ==> rest[0] != 'd' && rest[0] != 'D'
    ensures DigitsValue(ds) != 0 ==>
              Decide(commits, idx, sp + sign + ds + rest) ==
              Decide(commits, idx, IntToS(if sign == "-" then -(DigitsValue(ds) as int) else DigitsValue(ds) as int))
    ensures DigitsValue(ds) == 0 && sp + sign + ds + rest != "0" ==>
              Decide(commits, idx, sp + sign + ds + rest) == Reprompt(Text(sp + sign + ds + rest))
  {
    var input := sp + sign + ds + rest;
    var n := DigitsValue(ds);
    var v := if sign == "-" then -(n as int) else n as int;
    assert ToI(input) == v by { ToIOfPrefix(sp, sign, ds, rest); }
    if n != 0 {
      assert Normalize(input) == Number(v);
      assert Normalize(IntToS(v)) == Number(v) by { NormalizeIntToS(v); }
    } else if input != "0" {
      assert input[|sp| + |sign|] == ds[0] && IsDigit(ds[0]);
      DecideOther(commits, idx, input);
    }
  }

  /** Any input that is neither a command nor a number on the page is
      shown back as it was typed and the page stays where it is. */
  lemma DecideOther(commits: seq<GitCommit>, idx: int, input: string)
    requires input != "q" && input != "p" && input != "n"
    requires input != "0" && ToI(input) == 0
    ensures Decide(commits, idx, input) == Reprompt(Text(input))
  {
    assert Normalize(input) == Text(input);
  }

  /** "b" does not open a branch list: it is an invalid entry. */
  lemma DecideBranchKey(commits: seq<GitCommit>, idx: int, input: string)
    requires input == "b"
    ensures Decide(commits, idx, input) == Reprompt(Text(input))
  {
    NormalizeNonNumeric(input);
  }

  /** "00" reads as 0. */
  lemma ToIOfDoubleZero(input: string)
    requires input == "00"
    ensures ToI(input) == 0
  {
    assert SkipSpaces(input) == input;
    DigitRunOfDigits(input);
    assert input[..1][..0] == [];
    assert DigitsValue(input[..1]) == 0;
  }

  /** "00" is not "0" and reads as 0, so it is an invalid entry. */
  lemma DecideDoubleZero(commits: seq<GitCommit>, idx: int, input: string)
    requires input == "00"
    ensures Decide(commits, idx, input) == Reprompt(Text(input))
  {
    ToIOfDoubleZero(input);
    DecideOther(commits, idx, input);
  }

  /** The listed entry `i` shows the commit at position `i` of the page,
      its number is on the page, and Ruby's indexing at that number finds
      that same commit. */
  lemma ListedEntryAt(commits: seq<GitCommit>, idx: int, i: int)
    requires PageListing(commits, idx).Some?
    requires 0 <= i < |PageListing(commits, idx).value|
    ensures 0 <= PageStart(|commits|, idx) + i < |commits|
    ensures var e := PageListing(commits, idx).value[i];
            && e.number == idx + i
            && idx <= e.number < idx + PageSize
            && -|commits| <= e.number < |commits|
            && e.message == commits[PageStart(|commits|, idx) + i].message
            && RubyAt(commits, e.number) == Some(commits[PageStart(|commits|, idx) + i])
  {
    var slice := RubySlice(commits, idx, idx + PageSize).value;
    var start := slice.0;
    var e := PageListing(commits, idx).value[i];
    assert commits[start + i].message == e.message;
    if idx >= 0 {
      assert start == idx;
    } else {
      assert start == idx + |commits|;
    }
  }

  /** Every listed commit is chosen by typing its number: the number lies on
      the page and Ruby's indexing finds the very commit whose message was
      listed. */
  lemma ListedLabelChoosesListedCommit(commits: seq<GitCommit>, idx: int, i: int)
    requires PageListing(commits, idx).Some?
    requires 0 <= i < |PageListing(commits, idx).value|
    ensures 0 <= PageStart(|commits|, idx) + i < |commits|
    ensures var e := PageListing(commits, idx).value[i];
            Decide(commits, idx, IntToS(e.number)) == Choose(commits[PageStart(|commits|, idx) + i].hashString)
    ensures PageListing(commits, idx).value[i].message == commits[PageStart(|commits|, idx) + i].message
  {
    ListedEntryAt(commits, idx, i);
    NumberChooses(commits, idx, PageListing(commits, idx).value[i].number, PageStart(|commits|, idx) + i);
  }

  /** A number on the page that Ruby's indexing maps to commit `j` chooses
      that commit. */
  lemma NumberChooses(commits: seq<GitCommit>, idx: int, n: int, j: int)
    requires 0 <= j < |commits| && idx <= n < idx + PageSize && -|commits| <= n < |commits|
    requires RubyAt(commits, n) == Some(commits[j])
    ensures Decide(commits, idx, IntToS(n)) == Choose(commits[j].hashString)
  {
    DecideNumber(commits, idx, n);
  }

  // -----------------------------------------------------------------------
  // Properties of a session
  // -----------------------------------------------------------------------

  /** A chosen hash is the hash of some commit. */
  lemma ChosenHashIsACommit(commits: seq<GitCommit>, idx: int, input: string)
    requires Decide(commits, idx, input).Choose?
    ensures exists j :: 0 <= j < |commits| && commits[j].hashString == Decide(commits, idx, input).hash
  {
    var sel := Normalize(input);
    assert Choice(commits, idx, sel).Choose?;
    var n := sel.n;
    var c := RubyAt(commits, n).value;
    var j := if n >= 0 then n else |commits| + n;
    assert commits[j] == c;
  }

  /** A session ends on a hash only if some commit has that hash. */
  lemma {:induction false} SelectedHashIsACommit(commits: seq<GitCommit>, idx: int, error: Option<Selection>, inputs: seq<string>)
    requires Session(commits, idx, error, inputs).ending.Selected?
    ensures exists j :: 0 <= j < |commits| && commits[j].hashString == Session(commits, idx, error, inputs).ending.hash
    decreases |inputs|
  {
    if PageListing(commits, idx).Some? && inputs != [] {
      var d := Decide(commits, idx, inputs[0]);
      if d.Choose? {
        ChosenHashIsACommit(commits, idx, inputs[0]);
      } else if d.Move? {
        SelectedHashIsACommit(commits, d.idx, None, inputs[1..]);
      } else if d.Reprompt? {
        SelectedHashIsACommit(commits, idx, Some(d.error), inputs[1..]);
      }
    }
  }

  /** The paging range: it holds 0 and every index "p" and "n" lead to
      from inside it, so it contains every page index a session started at
      0 can reach (though not every index in it is reached). */
  predicate InPagingRange(size: int, idx: int) {
    Min(0, size - PageSize) <= idx <= Max(0, size - PageSize)
  }

  /** Every decision keeps the page index inside the paging range. */
  lemma DecideKeepsPagingRange(commits: seq<GitCommit>, idx: int, input: string)
    requires InPagingRange(|commits|, idx)
    ensures Decide(commits, idx, input).Move? ==> InPagingRange(|commits|, Decide(commits, idx, input).idx)
  {
    if Decide(commits, idx, input).Move? {
      if input == "p" {
        DecidePrevious(commits, idx, input);
      } else {
        DecideNext(commits, idx, input);
      }
    }
  }

  /** With a full page listed, no decision crashes. */
  lemma NoCrashOnFullPage(commits: seq<GitCommit>, idx: int, input: string)
    requires 0 <= idx && idx + PageSize <= |commits|
    ensures Decide(commits, idx, input) != Crash
  {
    var sel := Normalize(input);
    if sel.Number? && idx <= sel.n < idx + PageSize {
      assert RubyAt(commits, sel.n).Some?;
    }
  }

  /** With at least a page of commits, a session started inside the paging
      range (at 0, say) never crashes, every screen lists a full page, and
      a session that runs out of input waits at the start of a full page. */
  lemma {:induction false} NoCrashWithFullPage(commits: seq<GitCommit>, idx: int, error: Option<Selection>, inputs: seq<string>)
    requires |commits| >= PageSize
    requires InPagingRange(|commits|, idx)
    ensures var r := Session(commits, idx, error, inputs);
            && r.ending != Crashed
            && (r.ending.Waiting? ==> 0 <= r.ending.idx <= |commits| - PageSize)
            && forall s :: 0 <= s < |r.screens| ==> |r.screens[s].entries| == PageSize
    decreases |inputs|
  {
    var slice := RubySlice(commits, idx, idx + PageSize);
    assert slice.Some? && |slice.value.1| == PageSize;
    var entries := PageListing(commits, idx).value;
    assert |entries| == PageSize;
    if inputs != [] {
      DecideKeepsPagingRange(commits, idx, inputs[0]);
      NoCrashOnFullPage(commits, idx, inputs[0]);
      match Decide(commits, idx, inputs[0])
      case Move(j) =>
        NoCrashWithFullPage(commits, j, None, inputs[1..]);
      case Reprompt(e) =>
        NoCrashWithFullPage(commits, idx, Some(e), inputs[1..]);
      case Choose(h) =>
      case Quit =>
    }
  }

  /** How a session continues after its first input. */
  lemma SessionAfterMove(commits: seq<GitCommit>, idx: int, error: Option<Selection>, inputs: seq<string>, j: int)
    requires PageListing(commits, idx).Some? && inputs != []
    requires Decide(commits, idx, inputs[0]) == Move(j)
    ensures Session(commits, idx, error, inputs) ==
              Prefixed([Screen(error, PageListing(commits, idx).value)], Session(commits, j, None, inputs[1..]))
    ensures Session(commits, idx, error, inputs).ending == Session(commits, j, None, inputs[1..]).ending
  {
  }

  lemma SessionAfterReprompt(commits: seq<GitCommit>, idx: int, error: Option<Selection>, inputs: seq<string>, e: Selection)
    requires PageListing(commits, idx).Some? && inputs != []
    requires Decide(commits, idx, inputs[0]) == Reprompt(e)
    ensures Session(commits, idx, error, inputs) ==
              Prefixed([Screen(error, PageListing(commits, idx).value)], Session(commits, idx, Some(e), inputs[1..]))
  {
  }

  lemma PrefixedHead(screen: Screen, r: SessionResult)
    ensures Prefixed([screen], r).screens != [] && Prefixed([screen], r).screens[0] == screen
  {
  }

  lemma SessionAfterChoice(commits: seq<GitCommit>, idx: int, error: Option<Selection>, inputs: seq<string>, h: string)
    requires PageListing(commits, idx).Some? && inputs != []
    requires Decide(commits, idx, inputs[0]) == Choose(h)
    ensures Session(commits, idx, error, inputs).ending == Selected(h)
  {
  }

  lemma SessionAfterCrash(commits: seq<GitCommit>, idx: int, error: Option<Selection>, inputs: seq<string>)
    requires PageListing(commits, idx).Some? && inputs != []
    requires Decide(commits, idx, inputs[0]) == Crash
    ensures Session(commits, idx, error, inputs).ending == Crashed
  {
  }

  /** Typing "q" at any point ends the session there, without a checkout. */
  lemma QuitEndsSession(commits: seq<GitCommit>, idx: int, error: Option<Selection>, rest: seq<string>)
    requires PageListing(commits, idx).Some?
    ensures Session(commits, idx, error, ["q"] + rest).ending == Quitted
    ensures CheckoutTarget(Session(commits, idx, error, ["q"] + rest).ending) == Ok(None)
  {
    var inputs := ["q"] + rest;
    DecideQuit(commits, idx, inputs[0]);
  }

  /** Every session whose page can be listed shows that page first, with
      the error it was started with. */
  lemma SessionShowsPageFirst(commits: seq<GitCommit>, idx: int, error: Option<Selection>, inputs: seq<string>)
    requires PageListing(commits, idx).Some?
    ensures var r := Session(commits, idx, error, inputs);
            r.screens != [] && r.screens[0] == Screen(error, PageListing(commits, idx).value)
  {
    var screen := Screen(error, PageListing(commits, idx).value);
    if inputs != [] {
      match Decide(commits, idx, inputs[0])
      case Move(j) =>
        SessionAfterMove(commits, idx, error, inputs, j);
        PrefixedHead(screen, Session(commits, j, None, inputs[1..]));
      case Reprompt(e) =>
        SessionAfterReprompt(commits, idx, error, inputs, e);
        PrefixedHead(screen, Session(commits, idx, Some(e), inputs[1..]));
      case Quit =>
      case Choose(_) =>
      case Crash =>
    }
  }

  /** From a start inside the log, the page lists the commits from `idx`
      on, numbered by their positions. */
  lemma PageFrom(commits: seq<GitCommit>, idx: int)
    requires 0 <= idx <= |commits|
    ensures PageListing(commits, idx).Some?
    ensures var entries := PageListing(commits, idx).value;
            && |entries| == Min(PageSize, |commits| - idx)
            && forall i :: 0 <= i < |entries| ==> entries[i] == PageEntry(idx + i, commits[idx + i].message)
  {
    var slice := RubySlice(commits, idx, idx + PageSize).value;
    assert slice.0 == idx;
    assert |slice.1| == Min(PageSize, |commits| - idx);
  }

  /** The first screen of a session starting at `idx` lists the commits
      from `idx` on, numbered by their positions. */
  lemma FirstScreen(commits: seq<GitCommit>, idx: int, inputs: seq<string>)
    requires 0 <= idx <= |commits|
    ensures var r := Session(commits, idx, None, inputs);
            && |r.screens| >= 1
            && r.screens[0].error == None
            && |r.screens[0].entries| == Min(PageSize, |commits| - idx)
            && forall i :: 0 <= i < |r.screens[0].entries| ==>
                 r.screens[0].entries[i] == PageEntry(idx + i, commits[idx + i].message)
  {
    PageFrom(commits, idx);
    SessionShowsPageFirst(commits, idx, None, inputs);
  }

  // -----------------------------------------------------------------------
  // The quirks of the menu with fewer than a page of commits
  // -----------------------------------------------------------------------

  /** With no commit or one, "n" moves to |commits| - 4, before the front
      of the log, and listing that page fails on nil whatever follows. */
  lemma NextWithUnderTwoCommitsCrashes(commits: seq<GitCommit>, inputs: seq<string>)
    requires |commits| <= 1 && inputs != [] && inputs[0] == "n"
    ensures Session(commits, 0, None, inputs).ending == Crashed
  {
    var j := |commits| - PageSize;
    assert PageListing(commits, 0).Some?;
    DecideNext(commits, 0, inputs[0]);
    SessionAfterMove(commits, 0, None, inputs, j);
    assert PageListing(commits, j).None?;
  }

  /** With two commits, "3" is on the page but names no commit: it crashes. */
  lemma NumberPastEndCrashes(commits: seq<GitCommit>, inputs: seq<string>)
    requires |commits| == 2 && inputs == ["3"]
    ensures Session(commits, 0, None, inputs).ending == Crashed
    ensures CheckoutTarget(Session(commits, 0, None, inputs).ending) == Err(NoMethodError)
  {
    PageFrom(commits, 0);
    assert IntToS(3) == inputs[0];
    DecideNumber(commits, 0, 3);
    SessionAfterCrash(commits, 0, None, inputs);
  }

  /** With three commits, "n" moves to -1 and "-1" then chooses the last
      commit, through Ruby's negative indexing. */
  lemma NegativePageChoosesFromEnd(commits: seq<GitCommit>, inputs: seq<string>)
    requires |commits| == 3 && inputs == ["n", "-1"]
    ensures Session(commits, 0, None, inputs).ending == Selected(commits[2].hashString)
  {
    assert PageListing(commits, 0).Some? by { PageFrom(commits, 0); }
    assert Decide(commits, 0, inputs[0]) == Move(-1) by { DecideNext(commits, 0, inputs[0]); }
    SessionAfterMove(commits, 0, None, inputs, -1);
    MinusOneChoosesLast(commits, inputs[1..]);
  }

  /** On page -1 of three commits, "-1" chooses the last one. */
  lemma MinusOneChoosesLast(commits: seq<GitCommit>, inputs: seq<string>)
    requires |commits| == 3 && inputs == ["-1"]
    ensures Session(commits, -1, None, inputs).ending == Selected(commits[2].hashString)
  {
    assert PageListing(commits, -1).Some? by { assert RubySlice(commits, -1, 3).Some?; }
    assert Decide(commits, -1, inputs[0]) == Choose(commits[2].hashString) by {
      assert IntToS(-1) == inputs[0];
      DecideNumber(commits, -1, -1);
    }
    SessionAfterChoice(commits, -1, None, inputs, commits[2].hashString);
  }
}
