# Verified models of the TokuMX build scripts

A Dafny model of the algorithms in the Python tooling under `buildscripts/`: the
linter engine (`cpplint.py`), the error code allocator (`errorcodes.py`), the
repository publisher (`packager.py`), the test run bookkeeping (`smoke.py`) and
the batching log sender (`buildlogger.py`). `dafny verify dfyconfig.toml` checks
the whole project.

| file | models |
|---|---|
| `BracketMatcher.dfy` | text between matching brackets |
| `ClassTracker.dfy`, `ClassNesting.dfy` | the class stack kept line by line, and what it does on well-nested text |
| `CommentEraser.dfy` | erasing multi-line comments in place |
| `IncludeOrder.dfy` | the section and alphabetical order of `#include` lines |
| `LintState.dfy` | filters, counts and function size |
| `ErrorCodes.dfy`, `CodeChecker.dfy` | numbering error codes, and the pass that does it by rescanning |
| `FileNames.dfy`, `Publisher.dfy`, `PublishSafety.dfy` | publishing a repository with links and renames |
| `CrossProduct.dfy` | all combinations of several sequences |
| `TestRun.dfy`, `FailFile.dfy` | winners, fails and losers of a run, and the list of failures kept between runs |
| `LogAppender.dfy` | sending log lines in batches, with retries |
| `Decimal.dfy`, `Collections.dfy` | decimal numerals, used in names and codes; optional values and sequences without repetition |

Objects whose methods update fields are classes; their methods are proved equal
to functions on values, and the theorems are about those functions over whole
inputs, runs or histories. What the environment decides (the clock, whether a
send or a test succeeds, what a regular expression recognises in a line) is a
parameter, so every theorem holds for every behaviour of the environment.

## What came out

- Publishing tries a single name, `dst.old.0`, for the link to the previous
  generation, because the third loop never advances its counter. A publish
  therefore ends exactly if that name is free or not needed, and whether it is
  needed can be told beforehand. Cutting a publish short does no harm to the next
  one, except between making that link and renaming it: from then on no publish
  of that repository ever ends, and cutting those short does not help.
- `dst.old` names the previous generation after a publish exactly if `dst` did not
  lead to it through `dst.old`. If it did, the last rename replaces the only way
  to it. A first publish makes sure that this never happens in a later one.
- At every step, from every state, `dst` leads where it led at first or to the
  whole new generation, with one exception: a dangling `dst` that points at the
  directory name the publish is about to make shows it while it is being filled.
- A log batch is sent as buffer followed by failed lines, so delivery keeps the
  order of arrival (of lines that can be told apart) exactly if no call sends new
  lines along with failed ones and is answered. With the default limits, two lines
  two seconds apart change places if the send of the first fails.
- The error code pass rescans the whole tree for every code it gives. It still
  amounts to a single counter in scan order; and a bare assert in any file where
  they are refused makes it raise before any file has been written.
- The report's number of tests that "didn't get run" is one too many exactly when
  an exception ended the run with a test neither won nor recorded as lost. A run
  told not to start mongod ends so at its first failing test, whether or not it
  is to continue on failure, because it asks an object without that method
  whether mongod is alive.
- The class lookahead names the line that closes the class exactly when the brace
  is on the line of the declaration.
- A line that closes a nested class and the class around it pops only the nested
  one; the surplus braces are dropped, and the outer class is reported as
  incomplete although the braces match.
- At a verbosity above 5 a function size error is never printed: its confidence
  is capped at 5. At a negative one, a function above the trigger and shorter than
  the base makes the check raise, on the logarithm of 0.

Where comments and code disagree the model follows the code: `_IncludeState`
reports an order error by a return value and not by raising; `LogAppender` sends
after 200 lines or 2 seconds by default and not after 100 lines or 10 seconds;
`move_repos_into_place` looks for a free name for the old link but tries only one,
and its `dst.old` does not always name the previous generation.

## Model

| member | source | states |
|---|---|---|
| BracketMatcher.GetTextInside | buildscripts/cpplint.py:2447-2500 | For every text: the result is `s` exactly if what follows the opening bracket is a balanced `s` and then the matching bracket, so such an `s` is unique; nothing is found exactly if there is none; the assertion fails exactly if no bracket precedes. |
| BracketMatcher.ScanPassesBalanced | buildscripts/cpplint.py:2487-2495 | The scan reads any text derivable in the three-bracket grammar without touching the stack below it. |
| BracketMatcher.ScanSplits | buildscripts/cpplint.py:2487-2495 | A scan that empties its stack read a derivable text, the top of the stack, and then whatever empties the rest. |
| BracketMatcher.ScanDecides | buildscripts/cpplint.py:2484-2500 | The scan from one bracket stops after `s` exactly if `s` is balanced and followed by it. |
| BracketMatcher.PairsMatch | buildscripts/cpplint.py:2471-2485 | Around text without any of the six brackets, `(`, `{` and `[` are delimited by `)`, `}` and `]` in this order, and by no other closer. |
| ClassTracker.FindLastLine | buildscripts/cpplint.py:1274-1286 | The loop of the constructor finds the first line at which the braces counted from the declaration on are even, and gives 0 if there is none. |
| ClassTracker.ClassState.CheckLine | buildscripts/cpplint.py:1408-1485 | One line changes the stack and the findings as the step function says. |
| ClassTracker.ClassState.CheckFinished | buildscripts/cpplint.py:1301-1315 | The outermost class still open is reported, the stack is left alone. |
| ClassTracker.ProcessFile | buildscripts/cpplint.py:3186-3190 | A whole file yields the findings of running all lines from an empty stack, then those of the end. |
| ClassNesting.RegionFrame | buildscripts/cpplint.py:1408-1485 | Over any well-nested region (lines with even braces, blocks, classes, classes closed at once, declarations over several lines) the stack comes back as it was, except for what the lines of the innermost class itself tell about its virtual methods; each class completed in the region is judged once, at its end. |
| ClassNesting.DeclarationFrame | buildscripts/cpplint.py:1429-1440 | A declaration that meets a semicolon before a brace, on whatever later line, leaves the state exactly as it was, from any state and whatever braces are on that line. |
| ClassNesting.ClassFrame | buildscripts/cpplint.py:1415-1485 | Just before the line that closes it, and perhaps more, a class is on top of the stack, over all that was there before it; that line takes it off, and nothing else, and judges it. |
| ClassNesting.ClassReportedIff | buildscripts/cpplint.py:1425-1483 | The line that pops a class reports it exactly if a line of its own, not of a nested class, is virtual, no such line mentions its destructor, and its header has no bare colon; the report names the last of its own virtual lines. |
| ClassNesting.AtOnceReportedIff | buildscripts/cpplint.py:1429-1483 | A class that is closed on the line of its brace leaves the stack as it was and is reported exactly if that line is virtual without its destructor and its header has no bare colon. |
| ClassNesting.OuterDepthIff | buildscripts/cpplint.py:1467-1485 | The depth of the class around a nested class agrees with the braces read exactly if the line that pops the nested class closes no more than that. |
| ClassNesting.SurplusBraceDropped | buildscripts/cpplint.py:1467-1485 | The failing input: two nested classes closed on one line. The braces match, the outer class keeps depth 1, and the end of the file reports it. |
| ClassNesting.WellNestedFile | buildscripts/cpplint.py:1301-1315 | A well-nested file ends with an empty stack and no final report. |
| ClassNesting.UnfinishedStack | buildscripts/cpplint.py:1408-1485 | A file that stops inside braces, classes or a header ends with exactly the open classes on the stack, in order of nesting. |
| ClassNesting.UnfinishedReport | buildscripts/cpplint.py:1301-1315 | The end of such a file reports the outermost open class and nothing else. |
| ClassNesting.RunSound | buildscripts/cpplint.py:1408-1485 | On any input, after every line: an entry has depth at least 1 if its brace has been seen and 0 if not, and outer entries were declared on earlier lines. |
| ClassNesting.LookAheadFindsEnd | buildscripts/cpplint.py:1274-1286 | With equal brace counts in both forms of the text, the last line stored with a class on the stack is the line that pops it exactly if the brace is on the declaration line; else it is the declaration line. |
| CommentEraser.RemoveMultiLineComments | buildscripts/cpplint.py:891-904 | The array becomes what a one-pass automaton makes of it, and the error names the first line of an unterminated comment. |
| CommentEraser.FindStart | buildscripts/cpplint.py:863-871 | The first line from a position on that opens a comment without closing it. |
| CommentEraser.FindEnd | buildscripts/cpplint.py:874-880 | The first line from a position on that ends a comment. |
| CommentEraser.EraseRange | buildscripts/cpplint.py:883-888 | Exactly the lines of the range are replaced. |
| CommentEraser.ErasedIsAComment | buildscripts/cpplint.py:883-904 | Every replaced line reads `// dummy` and lies between an opening line and the first ending line after it, all of them replaced. |
| CommentEraser.Unterminated | buildscripts/cpplint.py:899-902 | With an error, nothing from the reported line on is changed, that line opens a comment, and no later line ends one. |
| CommentEraser.NoCommentLeft | buildscripts/cpplint.py:891-904 | Up to an unterminated comment, no line opens a comment afterwards. |
| CommentEraser.EraseTwice | buildscripts/cpplint.py:891-904 | A second pass changes nothing and reports the same. |
| CommentEraser.OpensIff | buildscripts/cpplint.py:863-871 | A line opens a comment exactly if, after blanks, it starts with the opening marker and has no closing marker after that. |
| CommentEraser.EndsIff | buildscripts/cpplint.py:874-880 | A line ends a comment exactly if nothing but blanks follows a closing marker. |
| IncludeOrder.IncludeState.CheckNextIncludeOrder | buildscripts/cpplint.py:437-488 | The section, the last header and the error are those of the transition function. |
| IncludeOrder.IncludeState.IsInAlphabeticalOrder | buildscripts/cpplint.py:422-435 | In order exactly if the canonical name is not below the last header, which it then replaces. |
| IncludeOrder.IncludeState.CheckInclude | buildscripts/cpplint.py:2404-2434 | A repeated header is reported with its first line and changes nothing; a new one extends the history and gets the verdict of its place in it. |
| IncludeOrder.CanonicalIdempotent | buildscripts/cpplint.py:407-420 | A canonical name has no hyphen and no capital and is its own canonical name. |
| IncludeOrder.CanonicalInl | buildscripts/cpplint.py:407-420 | Wherever `-inl.h` occurs in a path, it counts as `.h`. |
| IncludeOrder.CanonicalAt | buildscripts/cpplint.py:407-420 | In a path without `-inl.h`, a hyphen becomes an underscore, a capital its small letter, and every other character stays. |
| IncludeOrder.LessIff | buildscripts/cpplint.py:432 | A name comes before another exactly if it is a proper beginning of it or smaller where they first differ. |
| IncludeOrder.SectionIsMaxRank | buildscripts/cpplint.py:437-488 | After any history the section is the greatest rank met, where an own header has rank 1 only while nothing else came before it. |
| IncludeOrder.SectionGrows | buildscripts/cpplint.py:437-488 | Along any history the section never goes back. |
| IncludeOrder.OrderErrorIff | buildscripts/cpplint.py:437-488 | An order error falls exactly on a header of lower rank than an earlier one, which is then a system header. |
| IncludeOrder.InOrderIff | buildscripts/cpplint.py:2409-2425 | A history has no order error exactly if it reads own headers, C, C++, then own or other headers. |
| IncludeOrder.LastHeaderIsGreatest | buildscripts/cpplint.py:422-435 | The last header is always the greatest name since the block began. |
| IncludeOrder.AlphabeticalIff | buildscripts/cpplint.py:2426-2434 | A header is flagged exactly if an earlier one has a greater name with no section change and no order error after it. |
| IncludeOrder.InlNotFlagged | buildscripts/cpplint.py:422-435 | Of `x-inl.h` and `x.h` neither is flagged on account of the other, in either order. |
| LintState.IsFiltered | buildscripts/cpplint.py:776-787 | A category is filtered exactly if the last filter that matches it is negative. |
| LintState.FilterAppended | buildscripts/cpplint.py:776-787 | One more filter decides for the categories that begin with it, `-` against and `+` for printing, and changes nothing for the others. |
| LintState.FlagsBeatDefaults | buildscripts/cpplint.py:535-541 | A flag that matches decides, whatever the default filters say. |
| LintState.DefaultsAlone | buildscripts/cpplint.py:535-541 | Without flags exactly the categories that begin with `build/include_alpha` are filtered. |
| LintState.OrderWithinSign | buildscripts/cpplint.py:776-787 | Permuting a stretch of filters of one sign changes no decision. |
| LintState.State.SetFilters | buildscripts/cpplint.py:521-544 | The filters become the defaults and the nonempty parts, in this order, and it succeeds exactly if all have a sign. |
| LintState.NonEmptyInOrder | buildscripts/cpplint.py:536-540 | The parts of the flag keep their order and the empty ones are dropped. |
| LintState.State.SetCountingStyle | buildscripts/cpplint.py:517-519 | The counts so far fit the new style exactly if it is the old one, nothing was counted, or both count by category and no category has a slash. |
| LintState.State.ShouldPrintError | buildscripts/cpplint.py:765-789 | Printed exactly if not suppressed, confident enough and not filtered. |
| LintState.State.IncrementErrorCount | buildscripts/cpplint.py:551-559 | Count and category counts remain those of the errors printed since the reset. |
| LintState.CountsAddUp | buildscripts/cpplint.py:551-559 | After any errors the counts by category sum to their number. |
| LintState.DetailedIsMultiset | buildscripts/cpplint.py:551-559 | In detailed style each category is counted exactly as often as it was met. |
| LintState.SameCountsIff | buildscripts/cpplint.py:551-559 | Two counting styles give the same counts exactly if they are the same, nothing was counted, or both count by category and no category has a slash. |
| LintState.TopLevelGroups | buildscripts/cpplint.py:551-559 | The top level counts are the detailed ones summed over each part before the slash. |
| LintState.HeadIs | buildscripts/cpplint.py:555-556 | The top level part is what comes before the first slash. |
| LintState.CheckSize | buildscripts/cpplint.py:640-663 | For any verbosity it fires exactly above the trigger (250 lines, or 400 in a test, at verbosity 0), and raises exactly if the function is then shorter than the base, which takes a negative verbosity; otherwise the level is 0 to 5 by doublings of the base, and reaches the verbosity exactly if that is at most 5. |
| ErrorCodes.RewriteTreeCodes | buildscripts/errorcodes.py:45-103 | Files, lines and patterns nested as they are, the pass numbers the flat list of codes in scan order like one counter. |
| ErrorCodes.FreshCodes | buildscripts/errorcodes.py:71-89 | The zero at each place gets the greatest code there was, plus one, plus the number of zeros before it; other codes stay. |
| ErrorCodes.SiteCode | buildscripts/errorcodes.py:71-103 | Each site keeps its place and pattern; a zero there becomes the greatest code plus one plus the number of zeros that the scan meets before that place. |
| ErrorCodes.GivenInOrder | buildscripts/errorcodes.py:45-91 | New codes are greater than all that were there and go up in the order of files, lines, patterns and positions. |
| ErrorCodes.RenumberedDistinct | buildscripts/errorcodes.py:115-126 | No zero is left, and all codes are distinct afterwards exactly if the nonzero ones were before. |
| ErrorCodes.RenumberedOnce | buildscripts/errorcodes.py:97-103 | A second pass changes no file. |
| ErrorCodes.RewriteTreeKeeps | buildscripts/errorcodes.py:71-103 | Only zero codes change; every file, line and site keeps its place. |
| ErrorCodes.SpacesDropped | buildscripts/errorcodes.py:71-103 | A file without a zero is left as it is; in any other the spaces between name and bracket are gone at every site. |
| ErrorCodes.DistinctNumbers | buildscripts/errorcodes.py:106-126 | Read as numbers, with or without leading zeros, all codes are distinct after a pass exactly if the nonzero ones were before. |
| ErrorCodes.TextDecides | buildscripts/errorcodes.py:115-126 | If no nonzero code has a leading zero, the comparison of text that the pass makes tells exactly whether all codes are distinct as numbers afterwards; with leading zeros it can only miss duplicates. |
| CodeChecker.NextCode | buildscripts/errorcodes.py:106-113 | One more than the greatest code in the tree and among the codes just given; it raises exactly if there is a bare assert. |
| CodeChecker.Checker.CheckDups | buildscripts/errorcodes.py:118-124 | Errors have been recorded exactly if a code was met twice. |
| CodeChecker.Checker.Substitute | buildscripts/errorcodes.py:71-91 | One substitution gives consecutive codes from the next one on, although each is found by a rescan; it raises exactly if a zero meets a tree with a bare assert. |
| CodeChecker.HighestSoFar | buildscripts/errorcodes.py:97-113 | With the files before the current one written back and the rest not, the greatest code on disk is the last one given. |
| CodeChecker.Checker.CheckErrorCodes | buildscripts/errorcodes.py:115-126 | A bare assert makes it raise with no file changed; else the tree is renumbered and the answer is true exactly if the nonzero codes were distinct. |
| CodeChecker.BareIff | buildscripts/errorcodes.py:62-67 | A bare assert counts exactly in a file whose path is one where they are refused. |
| FileNames.NamesDistinct | buildscripts/packager.py:460-513 | The names a publish makes differ from each other and from `dst`; the old link is first `dst.old.0` and then `dst.old`. |
| FileNames.ChaseAfterNew | buildscripts/packager.py:460-492 | Making a name changes where a link leads only if the link ended at that very name, and then it leads there, or to the directory that name points to, or nowhere. |
| Publisher.RunIsAt | buildscripts/packager.py:452-513 | At every step of every run the file system is the initial one with exactly the changes of that phase. |
| PublishSafety.FileSystem.MoveReposIntoPlace | buildscripts/packager.py:452-513 | The loops, links and renames end, in a state that the step by step run reaches as its last. |
| PublishSafety.EveryPrefixIsSafe | buildscripts/packager.py:452-513 | With `dst` absent or live, after any number of steps: before the rename `dst` leads where it led, afterwards to a new directory with all of `src`; no other existing name but `dst.old` changed; once the old link is made, `dst.old.0` or `dst.old` leads where `dst` led, exactly except at the end of a run that found `dst` leading there through `dst.old`. |
| PublishSafety.PreviousNamedIff | buildscripts/packager.py:494-513 | From the old link on, including a failed last rename, one of the two old names leads to the previous generation, exactly unless the publish completed and `dst` had led through `dst.old`. |
| PublishSafety.PreviousLost | buildscripts/packager.py:511-513 | The failing input: `dst` a link to `dst.old`, which is a file. Every publish from it completes, neither old name leads to the file, and no file is left. |
| PublishSafety.DanglingSeesPartialCopy | buildscripts/packager.py:460-476 | While copying, from any state, `dst` leads elsewhere than at first exactly if it was dangling at the name just made. |
| PublishSafety.WholeUnlessDangling | buildscripts/packager.py:452-513 | At each step, from any state, `dst` leads where it led at first or to a whole new directory, exactly unless it was dangling at the directory that is still being filled. |
| PublishSafety.WholeIff | buildscripts/packager.py:459-513 | That holds at all steps of a publish exactly if `dst` does not dangle at the first free directory name, or `src` is empty. |
| PublishSafety.DanglingExample | buildscripts/packager.py:460-476 | A `dst` that dangles at the day's first name leads to an empty directory after one step. |
| PublishSafety.TerminatesIff | buildscripts/packager.py:494-509 | A publish ends exactly if it is never in the third loop with its only name taken. |
| PublishSafety.EndsIff | buildscripts/packager.py:459-509 | From any state a publish ends exactly unless `dst` is a link that leads somewhere once the first free directory and link names are made, and `dst.old.0` is taken. |
| PublishSafety.FinishesIff | buildscripts/packager.py:459-513 | From any state a publish completes, without being caught or failing, exactly if `dst` leads nowhere once the first free directory and link names are made, or `dst` is a link, `dst.old.0` is free and `dst.old` is not a directory. |
| PublishSafety.SomeFree | buildscripts/packager.py:459-492 | Those first free names exist, within one more attempt than there are names. |
| PublishSafety.EndsUnlessBlocked | buildscripts/packager.py:494-509 | With `dst` absent or live, a publish is caught in the third loop exactly if `dst` is a live link and `dst.old.0` is taken. |
| PublishSafety.BlockedRun | buildscripts/packager.py:494-509 | From a live link `dst` with `dst.old.0` taken, no step renames `dst` or ends the publish, and the same holds of the state after every step. |
| PublishSafety.CountersBounded | buildscripts/packager.py:459-492 | The first two loops try at most one name more than there are names. |
| PublishSafety.OldNamesPrevious | buildscripts/packager.py:511-513 | A link that takes over the target of a live link leads where that one led exactly if that one did not lead through it. |
| PublishSafety.CompletedPublish | buildscripts/packager.py:452-513 | With `dst` absent or a live link and `dst.old.0` free, a completed publish makes `dst` name the new generation, keeps every other name, and leaves a state like that, with `dst` not leading through `dst.old`. If there was a previous generation, `dst.old` names it exactly if `dst` did not lead through `dst.old` before. |
| PublishSafety.NamesAfter | buildscripts/packager.py:452-513 | From any state a completed publish adds exactly the dated directory, `dst` and, if the previous generation was kept, `dst.old`; no temporary name is left. |
| PublishSafety.PublishableCompletesIff | buildscripts/packager.py:452-513 | From a state with `dst` absent or a live link and `dst.old.0` free, a publish completes exactly unless there is a `dst` and `dst.old` is a directory. |
| PublishSafety.PublishHistory | buildscripts/packager.py:452-513 | From a state with `dst` absent or a live link and `dst.old.0` free, after any number of completed publishes `dst` names the last generation and all generations are still whole; from the second on `dst.old` names the one before, and after the first exactly if `dst` had not led through `dst.old`. |
| PublishSafety.AfterInterruption | buildscripts/packager.py:494-513 | After a publish from a state with `dst` absent or a live link and `dst.old.0` free is cut short anywhere, the next one completes exactly if the cut was not between making the old link and renaming it, and no directory at `dst.old` is in the way of a `dst` to keep. |
| CrossProduct.TupleAt | buildscripts/packager.py:219-233 | There are as many tuples as the product of the lengths, and tuple k is selected by the mixed-radix digits of k. |
| CrossProduct.ComponentAt | buildscripts/packager.py:219-233 | Component j of tuple k is element (k / product of later lengths) mod length of sequence j. |
| CrossProduct.EachCombinationOnce | buildscripts/packager.py:219-233 | Every combination of indices is at exactly one position, and the tuple there is the one it selects. |
| CrossProduct.LexicographicOrder | buildscripts/packager.py:219-233 | Of two tuples the later one is selected by the lexicographically greater index vector. |
| CrossProduct.NoSequences | buildscripts/packager.py:222-224 | No sequences give no tuple. |
| TestRun.Bookkeeping.RunTests | buildscripts/smoke.py:681-714 | Winners, fails and losers grow by those of the attempted tests, whatever stops the run, and the exit is that of the last one. |
| TestRun.ExitIff | buildscripts/smoke.py:681-721 | The run answers 2 exactly if a server failure was met, 1 exactly if a test failed and it is not to continue on failure, raises exactly if a raising outcome was met, and answers 0 exactly if every test was attempted and passed, or failed under continue-on-failure; only such outcomes come before the last. |
| TestRun.Attempted | buildscripts/smoke.py:681-714 | The tests attempted are those up to the first that stops the run. |
| TestRun.SplitsAttempted | buildscripts/smoke.py:684-687 | Winners and fails together are the attempted tests. |
| TestRun.SplitInOrder | buildscripts/smoke.py:684-687 | Winners and fails are in the order of the tests. |
| TestRun.LoserIff | buildscripts/smoke.py:704-712 | The losers are exactly the paths of tests recorded as failed, each with the status of its last failure, -1 for a server failure. |
| TestRun.MissedIff | buildscripts/smoke.py:724-728 | With distinct paths the reported number of missed tests is the number never attempted, plus one exactly if an exception left the last test neither won nor recorded. |
| TestRun.MissedWithoutServer | buildscripts/smoke.py:638-647 | A run without a mongod of its own stops at its first test that does not pass, with or without continue-on-failure; it records no loser, and the report counts that test among those not run. |
| FailFile.RemovePassed | buildscripts/smoke.py:965-966 | Popping shifted indices one by one leaves exactly the entries at the other indices, in order. |
| FailFile.RerunMeaning | buildscripts/smoke.py:961-963 | Running an old failure alone takes it off the list exactly if that run returns and adds a winner, and ends the loop exactly if that run raises, with or without continue-on-failure. |
| FailFile.RemainsIff | buildscripts/smoke.py:946-966 | An entry stays on the list exactly if an exception came at or before its rerun, it could not be run, or its rerun did not pass; it goes if its path is gone. |
| FailFile.Store.RunOldFails | buildscripts/smoke.py:922-973 | A missing, unreadable or outdated file is cleared; else exactly the entries that passed or whose path is gone are taken out, also when an exception cuts the loop. |
| FailFile.Store.AddToFailfile | buildscripts/smoke.py:977-990 | The file becomes its entries, then the failed tests that were not there yet, under the current version. |
| FailFile.AddedInOrder | buildscripts/smoke.py:984-986 | Tests are added one after the other, each at the end unless it is there already. |
| FailFile.ApplyMembers | buildscripts/smoke.py:922-990 | After one event an entry is there exactly if the event adds it, or it was there and the event does not discharge it; none is there twice. |
| FailFile.PresentIff | buildscripts/smoke.py:922-990 | After any events an entry is there exactly if it was added, or there at first, and never discharged since. |
| FailFile.RerunAfterRun | buildscripts/smoke.py:937-990 | After a normal run and a rerun of old failures under the same version, from any file, an entry is there exactly if it was there or was added, and the rerun did not clear it. |
| FailFile.RerunAfterRerun | buildscripts/smoke.py:937-973 | A second rerun under the same version drops exactly what it clears. |
| FailFile.StandsUntilDropped | buildscripts/smoke.py:922-990 | From no file, over any events under one version, an entry is there exactly if some run added it and since then there was neither a reset nor a rerun that cleared it. |
| FailFile.FailuresAreKept | buildscripts/smoke.py:1164-1167 | After a normal run every attempted test that did not pass is on the list, whatever stopped the run. |
| LogAppender.Appender.SubmitBuffers | buildscripts/buildlogger.py:274-290 | A submit changes buffers, clock and answer as the submit function says. |
| LogAppender.Appender.AppendLine | buildscripts/buildlogger.py:265-272 | A line is stored and a batch sent when the number of lines or the delay demands it. |
| LogAppender.Appender.FinalFlush | buildscripts/buildlogger.py:344-349 | The loop of at most six submits is the flush function. |
| LogAppender.RunConserves | buildscripts/buildlogger.py:253-290 | Over every run: the lines taken in are those of the batches, then the failed ones, then the buffer, in order of arrival; the buffer stays below its limit. |
| LogAppender.NothingLostOrRepeated | buildscripts/buildlogger.py:253-290 | Lines taken in are those sent plus those pending, each as often as it came. |
| LogAppender.AcceptedIsArrived | buildscripts/buildlogger.py:265-266 | The lines taken in are those that arrived, in order, each with the time at which it was stored. |
| LogAppender.DeliveredInOrderIff | buildscripts/buildlogger.py:265-290 | If the lines can be told apart, what was sent is in the order of arrival exactly if no call, with failed lines pending before it, sends new lines along and is answered. |
| LogAppender.InOrderUnlessMixed | buildscripts/buildlogger.py:265-290 | Without such a call, also of lines that cannot be told apart, the lines sent, the failed ones and the buffer are the lines taken in, in order. |
| LogAppender.InOrderWithoutFailure | buildscripts/buildlogger.py:253-290 | As long as no send failed, the lines sent and then the buffer are the lines taken in, in order. |
| LogAppender.OrderLostAfterFailure | buildscripts/buildlogger.py:265-290 | Whatever the limits, a failed send and then a good one turn around two lines that are the delay apart. |
| LogAppender.OrderLostByDefault | buildscripts/buildlogger.py:253-290 | The failing input at the default limits of 200 lines and 2 seconds. |
| LogAppender.LastSentIsLastSend | buildscripts/buildlogger.py:268-281 | After any run the delay is counted from the last call that had something to send, whatever the answer, or from the start. |
| LogAppender.PacedAfterSend | buildscripts/buildlogger.py:265-290 | After a call that sends at time t, answered or not, the next line is kept back exactly if one line is below the limit and less than the delay has passed since t. |
| LogAppender.KeptByDefault | buildscripts/buildlogger.py:254-270 | With the default limits a line is kept back exactly if fewer than 200 are then buffered and less than 2 seconds have passed. |
| LogAppender.FlushOutcome | buildscripts/buildlogger.py:344-349 | The flush leaves nothing pending exactly if nothing was or one of its sends is answered; else every try failed and everything is still pending, in order. |
| LogAppender.SixTries | buildscripts/buildlogger.py:344-349 | The flush of the wrappers fails only after six failed sends. |
| Decimal.RenderInjective | buildscripts/packager.py:462-482 | Different numbers have different numerals. |
| Decimal.RenderTens | buildscripts/packager.py:462 | Numerals are decimal: appending a digit multiplies by ten and adds it. |

## Left out

- Regular expressions, `strip` on filters, date formatting and the classification of headers: their results are parameters of the model.
- The other checks of CheckForNonStandardConstructs (explicit constructors, printf formats, storage classes): single expressions on one line.
- ClassTracker.ClassState.CheckLine: a class on the stack is a value and not an object; the stack is its only owner in the source.
- `_FunctionState.Begin`, `Count` and `End`, nolint parsing, output formats and printing: plain assignments and output.
- LintState.State.SetFilters: after a ValueError the filters hold an unsigned entry, and the printing methods are modelled only for signed filters, since the program ends there.
- LintState.State.SetCountingStyle: a style other than the two by category counts as the total one, as in the source.
- LintState.CheckSize: the logarithm and a trigger below the base are exact and not in floating point.
- The global list `codes` of `errorcodes.py` and the documentation generated from it: it is only appended to.
- PublishSafety.FileSystem.MoveReposIntoPlace: `cp` of one entry is one step, so a partial copy of a single entry is not distinguished, and no other process changes the names meanwhile.
- PublishSafety.FileSystem.MoveReposIntoPlace: it is modelled for the initial states from which it returns; that it never returns from the others is part of PublishSafety.TerminatesIff and PublishSafety.EndsIff.
- Names live in one flat directory: a `dst` that is a relative path with directories in it is not modelled.
- FailFile.Store.RunOldFails: the tests it counts as winners and the report at its end are not part of the file; a saved file without its list of tests is not modelled.
- TestRun.MissedIff: a losing test is recorded under its own path, as in suite mode; in the mode that reads commands from a file the path is taken from the command.
- Replication, database hashes, starting and stopping servers, HTTP, packaging templates, option parsing and the JavaScript tests: input and output around the algorithms.
- The retry loop around `finish_test`: its guard never lets it retry.
- `CloseExpression` and the join loop of `CheckBraces` in `cpplint.py`, and `packager-enterprise.py`, which repeats two functions of `packager.py`.
