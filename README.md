# git_auto_checkout in Dafny

`git_auto_checkout` is a terminal helper that reads the output of `git log`,
shows the commits four at a time, and checks out the commit the user picks
by number. This project models its core, the class
`GitAutoCheckout::GitCheckoutHelper`, and proves properties of it:

- **The log parser** (`parse_all_commits`, `parse_one_commit`,
  `parse_commit_hash`). It reads one commit at a time from the front of the
  array of log lines and deletes the lines it has read with `slice!`.
  `LogFormat` states what reading a log yields as pure functions
  (`ParseOne`, `ParseLog`). `CheckoutHelper.GitCheckoutHelper` implements
  those functions the way the Ruby code does: loops with early returns over
  a mutable `LineBuffer`, and `@commits` grown one commit per round. Every
  Ruby `raise` (and the `NoMethodError` of `nil.strip` on a missing message
  line) is a `ParseError` value.
- **The commit menu** (`prompt_user_until_quit_or_selection`,
  `print_prompt`). `Prompt.Decide` is what one input line decides.
  `Prompt.PageListing` is the page of commits a prompt lists.
  `Prompt.Session` is a whole session over a finite list of input lines.
  `GitCheckoutHelper.PromptUserUntilQuitOrSelection` runs the source's
  recursion as a loop and is proved equal to `Session`.
- **The Ruby built-ins the code relies on**. `RubyString` holds
  `String#split` with no argument, `String#strip`, `String#to_i` and
  `String#split("\n")` (which drops trailing empty strings). `Prompt`
  holds Ruby's `Array#[]` with negative indexes and exclusive ranges
  (`Prompt.RubyAt`, `Prompt.RubySlice`).

Modules: `Results` (Option and Result), `RubyString`, `GitCommits` (the
`GitCommit` record), `LogFormat`, `Prompt` and `CheckoutHelper`.

The behaviour is the code's, including its rough edges, which the lemmas
state outright:

- "n" has no lower clamp. With fewer than four commits the page index
  becomes negative, and Ruby's negative indexing then lists or selects
  commits from the end (`NegativePageChoosesFromEnd`), or the page slice
  is nil and the listing crashes (`NextWithUnderTwoCommitsCrashes`).
- A number on the page with no commit there dereferences nil
  (`NumberPastEndCrashes`), so `make_commit` raises rather than returning
  as it does after "q" (`CheckoutTarget`).
- "b" is announced by the prompt but is an invalid entry
  (`DecideBranchKey`). "00" is one too (`DecideDoubleZero`).
- In `parse_one_commit`, a blank last line with no message after it
  crashes on `nil.strip` (`ParseError.NilMessageLine`). Through
  `initialize` this cannot happen: `split("\n")` drops trailing empty
  strings, and every log left to read is a suffix of what it returns
  (`SplitLogNeverNil`).
- A message of more than one line is rejected as a "weird message ending"
  (`TwoLineMessageIsWeird`).
- The number of commits read need not equal the number of lines starting
  with `commit`. Lines before the first commit line are skipped
  (`ParseOneSkipsNoise`). So are header lines between a commit line and
  its blank line, even when they start with `commit`.
- "q", "p" and "n" never read as numbers (`DecideQuit`, `DecidePrevious`,
  `DecideNext`).

## Model

| member | source | states |
|---|---|---|
| RubyString.Words | lib/git_auto_checkout/git_checkout_helper.rb:130 | `split` with no argument yields non-empty words without white space |
| RubyString.WordsOfUnwords | lib/git_auto_checkout/git_checkout_helper.rb:130 | splitting words joined by single spaces gives back exactly those words |
| RubyString.WordsSkipsSpace | lib/git_auto_checkout/git_checkout_helper.rb:130 | white space in front of a text yields no word: splitting skips it |
| RubyString.WordsAfterWord | lib/git_auto_checkout/git_checkout_helper.rb:130 | a word followed by a run of white space is the first word, and splitting goes on after the whole run |
| RubyString.FirstWord | lib/git_auto_checkout/git_checkout_helper.rb:130-131 | the first word is the run of non-space characters after the leading white space, and there is none exactly when the line is all white space |
| RubyString.LStrip | lib/git_auto_checkout/git_checkout_helper.rb:108 | `lstrip` leaves a text no longer than the line that does not start with white space or NUL |
| RubyString.LStripRemovesSpace | lib/git_auto_checkout/git_checkout_helper.rb:108 | `lstrip` keeps a suffix of the line and removes only white space and NUL characters |
| RubyString.RStrip | lib/git_auto_checkout/git_checkout_helper.rb:108 | `rstrip` leaves a text no longer than the line, with the same first character, that does not end with white space or NUL |
| RubyString.RStripRemovesSpace | lib/git_auto_checkout/git_checkout_helper.rb:108 | `rstrip` keeps a prefix of the line and removes only white space and NUL characters |
| RubyString.Strip | lib/git_auto_checkout/git_checkout_helper.rb:108 | the stripped message has no white space at either end and is no longer than the line |
| RubyString.StripPadded | lib/git_auto_checkout/git_checkout_helper.rb:108 | stripping a trimmed text padded with white space on both sides gives the text back |
| RubyString.StripIdempotent | lib/git_auto_checkout/git_checkout_helper.rb:108 | stripping twice is stripping once |
| RubyString.ToIOfIntToS | lib/git_auto_checkout/git_checkout_helper.rb:51 | `to_i` reads back every integer written in decimal, negative ones included |
| RubyString.ToIOfNonNumeric | lib/git_auto_checkout/git_checkout_helper.rb:51 | an input starting with neither white space, a sign nor a digit reads as 0 |
| RubyString.ToI | lib/git_auto_checkout/git_checkout_helper.rb:51 | an input without any digit reads as 0 |
| RubyString.ToIOfPrefix | lib/git_auto_checkout/git_checkout_helper.rb:51 | `to_i` skips leading white space, reads a `+` or `-` sign and the run of digits after it, leading zeros included, and ignores whatever text follows that cannot continue the number: " 3", "+3", "3 ", "3x" and "03" all read as 3, and "-007" as -7 |
| RubyString.DropTrailingEmpty | lib/git_auto_checkout/git_checkout_helper.rb:10 | removes the trailing empty fields and nothing else |
| RubyString.SplitLines | lib/git_auto_checkout/git_checkout_helper.rb:10 | `split("\n")` yields lines without line breaks whose last line is not empty |
| RubyString.SplitLinesOfJoin | lib/git_auto_checkout/git_checkout_helper.rb:10 | lines joined by "\n", with or without a final "\n", split back into the same lines |
| RubyString.SplitLinesOfNewline | lib/git_auto_checkout/git_checkout_helper.rb:10 | a text that is a single newline splits into no lines |
| LogFormat.HashOf | lib/git_auto_checkout/git_checkout_helper.rb:133 | the hash is the last word of the commit line: non-empty, no white space |
| LogFormat.FirstCommitFrom | lib/git_auto_checkout/git_checkout_helper.rb:129-131 | the scan from line k returns the first commit line at or after k; when it returns nothing, no line from k on is a commit line |
| LogFormat.FirstEmptyFrom | lib/git_auto_checkout/git_checkout_helper.rb:105-106 | the scan from line k returns the first empty line at or after k; when it returns nothing, no line from k on is empty |
| LogFormat.CommitScanFinds | lib/git_auto_checkout/git_checkout_helper.rb:129-131 | the scan from k stops at the first commit line after k, wherever it is |
| LogFormat.EmptyScanFinds | lib/git_auto_checkout/git_checkout_helper.rb:105-106 | the scan from k stops at the first empty line after k, wherever it is |
| LogFormat.CommitAt | lib/git_auto_checkout/git_checkout_helper.rb:105-113 | a commit read after the blank line is valid; what is left is a suffix of the log, at least 3 lines shorter, that is empty or starts with a blank line; its errors are never "no commit found" |
| LogFormat.ParseOne | lib/git_auto_checkout/git_checkout_helper.rb:101-138 | "no commit found" exactly when no line is a commit line; a commit read is valid, takes at least 3 lines, and leaves a suffix that is empty or starts with a blank line |
| LogFormat.ParseLog | lib/git_auto_checkout/git_checkout_helper.rb:33-36 | an empty log gives no commits; a non-empty log without a commit line fails with "no commit found"; at most one commit per 3 lines; every commit read is valid |
| LogFormat.ParseOneAt | lib/git_auto_checkout/git_checkout_helper.rb:102-113 | given the first commit line and the first blank line after it, reading one commit is reading the message after that blank line |
| LogFormat.ParseOneNoMessage | lib/git_auto_checkout/git_checkout_helper.rb:116 | no blank line after the first commit line means "no message found" |
| LogFormat.ParseOneSkipsNoise | lib/git_auto_checkout/git_checkout_helper.rb:129-131 | lines before the first commit line do not change what is read |
| LogFormat.CommitAtShift | lib/git_auto_checkout/git_checkout_helper.rb:105-113 | reading a commit's message does not depend on the lines above the commit |
| LogFormat.CommitLineOf | lib/git_auto_checkout/git_checkout_helper.rb:130-133 | the line `commit <hash>` is a commit line whose hash is `<hash>` |
| LogFormat.IsCommitLine | lib/git_auto_checkout/git_checkout_helper.rb:130-131 | a commit line holds at least the six characters of `commit` |
| LogFormat.CommitLineShape | lib/git_auto_checkout/git_checkout_helper.rb:130-131 | a line is a commit line exactly when, after its leading white space, it reads `commit` followed by white space or by nothing |
| LogFormat.IndentedCommitLine | lib/git_auto_checkout/git_checkout_helper.rb:130-131 | a line whose first non-blank text is `commit` and white space is a commit line however it is indented, so an indented message line can be one |
| LogFormat.ParseOneBlock | lib/git_auto_checkout/git_checkout_helper.rb:101-117 | a block (commit line, header lines, blank line, indented message) is read as its commit, leaving the lines after it |
| LogFormat.ParseLogBlock | lib/git_auto_checkout/git_checkout_helper.rb:33-36 | a block in front of a readable log adds its commit in front of that log's commits |
| LogFormat.ParseLogBlankPrefix | lib/git_auto_checkout/git_checkout_helper.rb:33-36 | a blank line in front of a non-empty log changes nothing |
| LogFormat.ParseLogCons | lib/git_auto_checkout/git_checkout_helper.rb:33-36 | a block, a blank line and a readable log give the block's commit followed by the log's commits |
| LogFormat.ParseRenderedLog | lib/git_auto_checkout/git_checkout_helper.rb:33-36 | a log written in the `git log` layout reads back as exactly its commits, in log order |
| LogFormat.ParseRenderedSingle | lib/git_auto_checkout/git_checkout_helper.rb:33-36 | a log of one block reads back as that commit |
| LogFormat.ParseRenderedText | lib/git_auto_checkout/git_checkout_helper.rb:10-11 | the text of such a log, with or without its final newline, is split into lines and reads back as exactly its commits |
| LogFormat.TwoLineMessageIsWeird | lib/git_auto_checkout/git_checkout_helper.rb:109 | a second non-blank message line fails with "weird message ending" |
| LogFormat.ParseLogNeverNil | lib/git_auto_checkout/git_checkout_helper.rb:33-36 | reading lines that do not end with a blank line never fails on a missing message line |
| LogFormat.SplitLogNeverNil | lib/git_auto_checkout/git_checkout_helper.rb:9-11 | the log `initialize` reads, split from text, never fails on `nil.strip` |
| Prompt.RubyAt | lib/git_auto_checkout/git_checkout_helper.rb:64 | `commits[k]` is present exactly for -size <= k < size; a negative k counts from the end |
| Prompt.RubySlice | lib/git_auto_checkout/git_checkout_helper.rb:87 | nil exactly when the start is before -size or after size; otherwise the slice begins at the start (counted from the end when negative) and holds the max(min(end, size) - start, 0) consecutive elements from there |
| Prompt.PageListing | lib/git_auto_checkout/git_checkout_helper.rb:87-89 | the listing fails on nil exactly when idx < -size or idx > size; otherwise a page lists at most 4 commits, the i-th numbered idx + i |
| Prompt.CheckoutTarget | lib/git_auto_checkout/git_checkout_helper.rb:18-23 | a selected commit is checked out with its hash; a quit returns with nothing checked out; a crashed session raises `NoMethodError`; each outcome happens exactly for its ending |
| Prompt.Normalize | lib/git_auto_checkout/git_checkout_helper.rb:51-52 | a selection taken as a number is the input's `to_i`; one kept as text is the text typed, and that text reads as 0 |
| Prompt.Choice | lib/git_auto_checkout/git_checkout_helper.rb:54-67 | quits exactly on the text "q"; moves only on "p" or "n"; an invalid entry carries the selection; a choice or a crash happens only for a number on the page, and chooses the commit Ruby's indexing gives there or crashes when there is none |
| Prompt.Decide | lib/git_auto_checkout/git_checkout_helper.rb:50-67 | moves only on the inputs "p" and "n"; an invalid entry is shown as the input normalises; a choice or a crash happens only when the input's `to_i` is on the page |
| Prompt.Session | lib/git_auto_checkout/git_checkout_helper.rb:47-68 | a session shows at most one screen per input plus the first, and one still waiting for input has shown exactly that many |
| Prompt.NormalizeIntToS | lib/git_auto_checkout/git_checkout_helper.rb:51-52 | every integer typed in decimal is taken as that number |
| Prompt.NormalizeNonNumeric | lib/git_auto_checkout/git_checkout_helper.rb:51-52 | an input that cannot start a number stays the text typed |
| Prompt.DecideQuit | lib/git_auto_checkout/git_checkout_helper.rb:55-56 | the session quits on an input exactly when the input is "q" |
| Prompt.DecidePrevious | lib/git_auto_checkout/git_checkout_helper.rb:57-59 | "p" moves to max(idx - 4, 0), never below 0 |
| Prompt.DecideNext | lib/git_auto_checkout/git_checkout_helper.rb:60-62 | "n" moves to min(idx + 4, size - 4); it stays put at size - 4 and goes negative with fewer than 4 commits |
| Prompt.DecideNumber | lib/git_auto_checkout/git_checkout_helper.rb:51-66 | a number on the page chooses the commit Ruby's indexing gives, or crashes when there is none; a number off the page is an invalid entry |
| Prompt.DecideSpelling | lib/git_auto_checkout/git_checkout_helper.rb:51-66 | any other spelling of a nonzero number that `to_i` reads (leading white space, a sign, leading zeros, trailing text) decides as that number written out, so "01" chooses like "1"; a spelling of 0 other than "0" is an invalid entry shown as typed |
| Prompt.DecideOther | lib/git_auto_checkout/git_checkout_helper.rb:65-66 | any input that is no command, not "0" and reads as 0 is an invalid entry shown as typed, and the page stays |
| Prompt.DecideBranchKey | lib/git_auto_checkout/git_checkout_helper.rb:81 | "b", though the prompt offers it, is an invalid entry |
| Prompt.DecideDoubleZero | lib/git_auto_checkout/git_checkout_helper.rb:52 | "00" is not "0" and reads as 0, so it is an invalid entry |
| Prompt.ListedEntryAt | lib/git_auto_checkout/git_checkout_helper.rb:63-64 | the i-th listed entry is numbered idx + i, that number is on the page, and the entry shows the message of the commit at position start + i (start is idx, counted from the end when negative), the commit Ruby's indexing at that number finds |
| Prompt.ListedLabelChoosesListedCommit | lib/git_auto_checkout/git_checkout_helper.rb:63-64 | typing the number shown next to the i-th listed commit chooses the commit at position start + i, whose message was listed |
| Prompt.ChosenHashIsACommit | lib/git_auto_checkout/git_checkout_helper.rb:64 | a chosen hash belongs to some commit |
| Prompt.SelectedHashIsACommit | lib/git_auto_checkout/git_checkout_helper.rb:47-68 | a session that ends on a hash ends on the hash of some commit |
| Prompt.DecideKeepsPagingRange | lib/git_auto_checkout/git_checkout_helper.rb:57-62 | "p" and "n" keep the index between min(0, size - 4) and max(0, size - 4), a range that holds 0 and so every index a session reaches |
| Prompt.NoCrashOnFullPage | lib/git_auto_checkout/git_checkout_helper.rb:63-64 | when the page lies inside the log, no input crashes |
| Prompt.NoCrashWithFullPage | lib/git_auto_checkout/git_checkout_helper.rb:47-68 | with at least 4 commits no session crashes, every screen lists a full page, and a waiting session waits in [0, size - 4] |
| Prompt.QuitEndsSession | lib/git_auto_checkout/git_checkout_helper.rb:55-56 | "q" ends the session at once, and nothing is checked out |
| Prompt.SessionAfterMove | lib/git_auto_checkout/git_checkout_helper.rb:57-62 | after "p" or "n" the session shows its screen and goes on from the new index with no error |
| Prompt.SessionAfterReprompt | lib/git_auto_checkout/git_checkout_helper.rb:65-67 | after an invalid entry the session shows its screen and goes on at the same index, showing that entry |
| Prompt.SessionAfterChoice | lib/git_auto_checkout/git_checkout_helper.rb:63-64 | a chosen commit ends the session on its hash |
| Prompt.SessionAfterCrash | lib/git_auto_checkout/git_checkout_helper.rb:63-64 | a number on the page with no commit ends the session in a crash |
| Prompt.SessionShowsPageFirst | lib/git_auto_checkout/git_checkout_helper.rb:47-48 | every session whose page can be listed shows that page first, with the error it started with |
| Prompt.PageFrom | lib/git_auto_checkout/git_checkout_helper.rb:87-89 | from an index inside the log the page lists the next min(4, size - idx) commits, numbered by their positions |
| Prompt.FirstScreen | lib/git_auto_checkout/git_checkout_helper.rb:87-89 | the first screen lists the commits from idx on, numbered by their positions, without an error line |
| Prompt.NextWithUnderTwoCommitsCrashes | lib/git_auto_checkout/git_checkout_helper.rb:60-62 | with no commit or one, "n" moves to size - 4, before the front of the log, and listing that page crashes whatever input follows |
| Prompt.NumberPastEndCrashes | lib/git_auto_checkout/git_checkout_helper.rb:63-64 | with two commits, "3" is on the page but names no commit, so the session crashes and `make_commit` raises |
| Prompt.NegativePageChoosesFromEnd | lib/git_auto_checkout/git_checkout_helper.rb:60-64 | with three commits, "n" then "-1" selects the last commit |
| CheckoutHelper.LineBuffer.SliceFront | lib/git_auto_checkout/git_checkout_helper.rb:111 | `slice!(0, n)` removes the first n lines, or all of them when fewer |
| CheckoutHelper.GitCheckoutHelper.constructor | lib/git_auto_checkout/git_checkout_helper.rb:34 | a helper starts with no commits |
| CheckoutHelper.MessageAt | lib/git_auto_checkout/git_checkout_helper.rb:105-113 | for the first blank line the scan after the commit line meets: a missing message line crashes; a non-blank line after the message is a "weird message ending"; otherwise the commit is the hash and the stripped message, and the lines after the message are left |
| CheckoutHelper.BlankAfterCommit | lib/git_auto_checkout/git_checkout_helper.rb:105-106 | the first blank line the scan after the commit line meets is the first blank line below the commit line |
| CheckoutHelper.CommitAfter | lib/git_auto_checkout/git_checkout_helper.rb:108-113 | the three outcomes of reading the message, stated on the lines after the commit line |
| CheckoutHelper.NoMessageAfter | lib/git_auto_checkout/git_checkout_helper.rb:116 | no blank line after the commit line means "no message found" |
| CheckoutHelper.GitCheckoutHelper.ParseCommitHash | lib/git_auto_checkout/git_checkout_helper.rb:126-138 | finds the first commit line, returns its last word as the hash and the index after it; otherwise "no commit found" and no line is a commit line |
| CheckoutHelper.GitCheckoutHelper.ParseOneCommit | lib/git_auto_checkout/git_checkout_helper.rb:101-117 | returns what `ParseOne` reads from the lines it was given, and on success leaves exactly the lines after the commit |
| CheckoutHelper.GitCheckoutHelper.ParseAllCommits | lib/git_auto_checkout/git_checkout_helper.rb:33-36 | `@commits` ends as `ParseLog` of the original lines and the buffer is empty; a malformed log yields `ParseLog`'s error |
| CheckoutHelper.GitCheckoutHelper.PromptUserUntilQuitOrSelection | lib/git_auto_checkout/git_checkout_helper.rb:47-68 | the loop shows the same screens and ends the same way as `Session` from index 0 with no error |
| CheckoutHelper.GitCheckoutHelper.MakeCommit | lib/git_auto_checkout/git_checkout_helper.rb:18-23 | checks out the hash of the session's selection, which is the hash of one of the commits; returns with nothing checked out after a quit; raises when the session crashed |
| CheckoutHelper.Initialize | lib/git_auto_checkout/git_checkout_helper.rb:9-12 | a new helper holds `ParseLog` of the split log text, or the parse error is raised |

## Left out

- Running `git log` (`git_checkout_helper.rb:10`) is not modelled. Its output text is the parameter of `CheckoutHelper.Initialize`.
- Running `git checkout` (`git_checkout_helper.rb:145-148`) is not modelled. `MakeCommit` returns the hash it would be given, wrapped in `Ok`.
- Clearing the terminal with `system 'clear'` (`git_checkout_helper.rb:77`, `:146`) is not modelled, because it is I/O.
- The fixed instruction lines of the prompt (`git_checkout_helper.rb:80-85`) are not modelled. Their text never changes, so a `Screen` holds only the error entry and the page listing.
- Keyboard input (`gets`) is a finite list of lines, already without their line terminator. A session that runs out of input ends as `Waiting`, and `MakeCommit` then reports `AwaitingInput` instead of blocking in `gets`.
- End of input is not modelled: there `gets` returns nil and `chomp!` fails.
- A last line without a newline is not modelled: there `chomp!` returns nil, and the prompt repeats without an error line.
- The prompt's recursion is a loop, so stack growth over long sessions is not modelled.
- The entry point `lib/git_auto_checkout.rb` is not part of this model.
- A `GitCommit` is built in one step rather than by its two setters (`git_commit.rb:4-7`). No caller sees it half-built.
- CheckoutHelper.GitCheckoutHelper.ParseOneCommit: after an error, the contents of the line buffer are not stated. The Ruby exception abandons them.
- CheckoutHelper.GitCheckoutHelper.ParseAllCommits: after an error, `@commits` is not stated. Ruby keeps the commits read before the failing one, but the exception leaves the helper unusable.
- Prompt.DecideSpelling covers white space, a sign and trailing text around the digits. Spellings with a `0d` prefix or with underscores between digits decide through `Normalize` in the same way, but no lemma states that separately.
- Strings are sequences of Unicode characters, and the log is taken to be valid text. Ruby raises `ArgumentError` ("invalid byte sequence") in `split` (`git_checkout_helper.rb:130`) and `strip` (`git_checkout_helper.rb:108`) on a line that is not valid in its encoding, as `git log` can print for a commit message stored without an encoding header. That error is not modelled, and `ParseError` has no case for it.
- `Range#===` on a String selection (`git_checkout_helper.rb:63`) is false without raising, as in current Ruby. A text selection therefore never matches the page range.
