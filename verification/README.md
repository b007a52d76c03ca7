# exact: a verified model

EXACT follows a mail log, takes from it the hosts whose users have just logged in, and keeps a relay file
of those hosts for the mail server. This project models, in Dafny, the three parts of the program that carry
its behaviour, and the main loop that joins them.

* **The option scanner** (`getopt.c`, and its caller `cmdline` in `exact.c`). `OptionGrammar` says what an
  argument vector means: one left-to-right reading of the vector as it was typed, in which nothing moves.
  `Scanner.Getopt` is the scanner itself: static variables, one call per option, and a vector that is
  rearranged in place between calls by `Rotation`. Every call is proved to report the next event of that
  reading, in PERMUTE and in REQUIRE_ORDER, and the finished scan to leave options in front and operands
  behind. `Reports` says what each kind of element reports, in the words of the option string and the table. `ScanLayout` is the part of the argument that only moves elements; `LongNames` resolves
  abbreviations; `Guidelines` says which spellings of a command line are equivalent, after section 12.2 of
  IEEE Std 1003.1; `Rescan` and `ScanTwice` settle when a second scan agrees with the first; `CommandLine`
  is the program's own table and loop.
* **The authorisation table** (`auth.c`, text backend). `AuthHistory` is the law of expiry on histories of
  adds and cleans; `SortedEntries` and `StringOrder` are about sorted entries; `AuthTable.Table` is the array
  with its shadow, its growth and its relay file, proved to stay in step with the history.
* **The log follower** (`tail.c`) and **the main loop** (`exact.c`). `LogFollowing` describes a pass over
  files that grow, are replaced or disappear, and runs of passes; `Delivery` says what a run delivers, and
  when that is the text of the log exactly once; `Watching` says when a pass reads, waits or reopens, by the
  lengths of the files and the clock; `Pacing` is the delay between reads; `Lines` cuts text into lines; `Follower.Tail` and `Daemon` are the program's methods; `Logins` composes delivery, line cutting,
  matching and the table, and carries expiry over whole runs.

The files, the clock and the alarm are parameters: a pass is given the disk it finds, the one clock reading
it makes and the configured patience, and the main loop is given its steps. Matching a line is an arbitrary
function from lines to hosts. `dafny verify dfyconfig.toml` verifies the project.

Five things the proofs brought out:

* A fresh scan of a vector that a permuting scan has rearranged agrees with the first scan unless the first
  one missed an option's argument while there were operands; then it never does (`Rescan.RescanIff`).
* The pair (elements left, characters left in the current element) decreases with every call only if an
  element that is not begun counts with its whole length: `nextchar` itself goes from empty to non-empty.
* Without any assumption about the clock a host is listed iff every clean since its last login let it pass.
  The shorter law about the latest clean alone needs a clock that does not run backwards
  (`AuthHistory.ClockSetBack`).
* A pass with a negative patience never reads new text. A log that keeps its name is therefore read exactly up
  to where it ended at the latest pass whose patience was not negative (`Delivery.OneFile`).
* No file is followed twice, skipped in part or left unread iff three things hold (`Delivery.ExactlyOnceIff`):
  every pass that opens the log finds the file it was following, or one never followed that is shorter than
  the saved position (or of which no position was saved); no pass gives up a file with new text in it out of
  negative patience; and no file grows after it was given up. A log that is moved away, missed, and moved back
  is read again from its start (`Delivery.MovedAwayAndBack`); what is written to a log after it was given up
  is not read (`Delivery.LateAppend`).

The usage text offers `--preserve` where the table says `preserver`; the abbreviation rule accepts it
(`CommandLine.PreserveIsAccepted`), and the model follows the table.

## Model

| member | source | states |
|---|---|---|
| Rotation.Rotate | getopt.c:305-377 | in place, A ++ B on two adjacent ranges becomes B ++ A, nothing else moves, in the counted number of element swaps |
| Rotation.SwapsAreEuclid | getopt.c:341-377 | that number is p + q - gcd(p, q): the loop is subtractive Euclid |
| Rotation.GcdUnique | getopt.c:341-377 | the gcd is meant: the common divisor all others divide is one number |
| LongNames.Lookup | getopt.c:654-714 | the loop that compares later candidates with the first alone computes: an exact match, else the first candidate if all candidates agree pairwise, else ambiguous or unknown |
| LongNames.ResolutionMeans | getopt.c:654-714 | a name is found where it first stands in full; else at the first entry it begins, iff all entries it begins have the same has_arg, flag and val; ambiguous iff two of them differ and none is in full |
| LongNames.OrderIrrelevant | getopt.c:656-683 | the answer (found in full or abbreviated with its has_arg, flag and val, ambiguous, unknown) depends on the set of entries only |
| LongNames.OrderIrrelevantIff | getopt.c:656-683 | every rearrangement of the table gives a name the same answer iff the entries carrying exactly that name act alike |
| OptionGrammar.StablePartition | getopt.c:470-472 | options and operands of a vector are together a permutation of it, and each is taken at increasing positions |
| OptionGrammar.NothingMoves | getopt.c:169-174 | in REQUIRE_ORDER options followed by operands is the vector itself |
| OptionGrammar.EventsBounded | getopt.c:882-888 | a vector yields at most the sum of max(1, length - 1) over its elements in events |
| Guidelines.Grouping | getopt.c:461-463 | a group of options without arguments reads as the options one by one, wherever what is left of it is an option by itself |
| Guidelines.Attached | getopt.c:479-483 | a required argument attached to its option reads as one in the next element |
| Guidelines.LongAttached | getopt.c:489-493 | the same for a long option, in full or abbreviated, and its equals sign |
| Guidelines.Terminator | getopt.c:580-596 | nothing after `--` is an option |
| Guidelines.OperandsInvisible | getopt.c:571-576 | in PERMUTE an operand in front changes no event and no option |
| Reports.PlainOption | getopt.c:884-889 | an option character without a colon behind it reports itself and no argument |
| Reports.InvalidOption | getopt.c:891-931 | a character the option string does not have, or a colon, is an error with that character in optopt |
| Reports.RequiredOption | getopt.c:1140-1188 | one colon: the argument is the rest of the element or the next element, whatever it looks like; without either `?`, or `:` if the option string starts with one |
| Reports.OptionalOption | getopt.c:1127-1139 | two colons: the argument is the rest of the element if there is any, never the next element |
| Reports.LongRefuses | getopt.c:718-778 | a long option that has no argument refuses `=value`: an error with its val in optopt, and the reading goes on behind it |
| Reports.LongTakes | getopt.c:718-724 | any other takes exactly what follows the first equals sign |
| Reports.LongAlone | getopt.c:779-826 | without an equals sign there is no argument unless one is required; a flag is set and 0 returned, else val |
| Reports.LongRequires | getopt.c:779-811 | a required argument is the next element, whatever it looks like; without one an error with val in optopt |
| Reports.LongUnresolved | getopt.c:685-878 | an ambiguous or unknown name is an error with optopt 0 |
| Reports.OperandReads | getopt.c:571-618 | the empty element, `-`, and what starts with no dash are operands: skipped in PERMUTE, the end in REQUIRE_ORDER |
| Scanner.MyIndex | getopt.c:222-234 | the first occurrence of a character, or none |
| Scanner.Getopt.Exchange | getopt.c:305-383 | rotates the skipped operands past the options read after them, relocates their bounds, and swaps p + q - gcd(p, q) times |
| Scanner.Getopt.Prepare | getopt.c:528-559 | a call after initialisation, after -1 or with optind zero starts a new scan of the vector as it stands; within a scan nothing changes |
| Scanner.Getopt.SkipOperands | getopt.c:561-577 | PERMUTE: afterwards the skipped operands reach up to the next option element, and the events to come are the same |
| Scanner.Getopt.PassTerminator | getopt.c:584-596 | `--` joins the options; options and operands are then separated, in original order |
| Scanner.Getopt.Advance | getopt.c:549-624 | stops at the next option element with the same events to come, or finishes exactly when none are left, with options and operands separated |
| Scanner.Getopt.DecodeLong | getopt.c:642-878 | one long option: return value, optarg, optopt, index, flag store and message, and how many elements are used |
| Scanner.Getopt.DecodeShort | getopt.c:882-1189 | one short option (without a `W;` entry), and what is left of its cluster |
| Scanner.Getopt.Next | getopt.c:512-1191 | each call reports the next event of the reading of the original vector and leaves the rest, or returns -1 exactly at its end; each call but the last decreases (elements left, characters left) |
| Scanner.Getopt.StateInvariant | getopt.c:550-595 | between calls: skipped operands on [first_nonopt, last_nonopt), options read around them, the rest unmoved |
| Scanner.Getopt.Scan | exact.c:97-111 | the caller sees exactly the (return value, optarg) pairs of the one-pass reading, in bounded many calls; the vector ends as prefix, options, operands with optind between |
| Scanner.SeesTheWholeScan | exact.c:109-111 | a caller who stops at -1 misses nothing, if no table entry returns -1 |
| Rescan.RescanIff | getopt.c:561-618 | a second scan, in either ordering, of the rearranged vector sees the same events iff the first missed no argument or there were no operands, and then moves nothing |
| Rescan.Gathered | getopt.c:561-618 | options alone followed by any operands read as the options did when scattered |
| Rescan.Swallowed | getopt.c:1151-1185 | after a missing argument any operand behind the options changes the events |
| Rescan.MissingArgumentCounterexample | getopt.c:1151-1185 | `x -c` misses its argument, `-c x` does not |
| ScanTwice.Twice | getopt.c:549-624 | two scanners in a row on one vector: same events, same optind, the second moves nothing |
| CommandLine.Command.Cmdline | exact.c:90-141 | the settings are those of the original vector's options, however they are mixed with operands: foreground, sleep, debug and preserve iff f, s, d or p is reported, and the file of the last c; so a vector that starts with `--debug` sets debug, and so on |
| CommandLine.ProgramLetter | exact.c:99-109 | p, h, s, f, d and V report themselves |
| CommandLine.ProgramWord | exact.c:99-109 | each of the seven words, and every abbreviation of it, is as good as its letter |
| CommandLine.ProgramConfig | exact.c:99-109 | the four spellings of the configuration file are the same; without a name it is an error |
| CommandLine.ProgramRefuses | exact.c:99-138 | the six words without an argument refuse `=value`, and the program exits with 40 |
| CommandLine.FateIs | exact.c:112-139 | the program runs iff all results are among f, s, d, p and c; the first other one decides, with 0 for h and V and 40 otherwise |
| CommandLine.ProgramReports | exact.c:99-109 | every call reports a known option, with an argument iff it is -c, or an error without one: conffile_setname never gets a null name |
| CommandLine.FateMeans | exact.c:112-139 | the program goes on iff nothing asks it to end; the first help, version or error decides, and the exit code is 40 iff it is an error |
| CommandLine.AbbreviationsUnambiguous | exact.c:99-108 | for the program's table only the empty name is ambiguous |
| CommandLine.PreserveIsAccepted | exact.c:79-104 | `--preserve` abbreviates the table's `preserver` |
| StringOrder.Lexicographic | auth.c:152-154 | the order is that of the first difference, a proper prefix first |
| StringOrder.BeforeTransitive | auth.c:152-154 | the order of auth_cmp is transitive |
| StringOrder.BeforeTotal | auth.c:152-154 | and total and irreflexive |
| AuthHistory.ListedIff | auth.c:203-381 | a host is listed with its last login time iff every clean since that login let it pass, whatever the clock does |
| AuthHistory.HistoryTheorem | auth.c:203-381 | after a clean at t a host is listed iff its most recent add is less than the timeout before t |
| AuthHistory.ClockSetBack | auth.c:360-365 | with a clock set back the short law fails |
| AuthHistory.FreshIsListed | auth.c:364-373 | a host added less than the timeout ago is listed |
| AuthHistory.ListedIsRecent | auth.c:392-393 | cleans at most flush apart: everyone listed was added less than timeout + flush ago |
| SortedEntries.OneListing | auth.c:190-192 | the set of hosts determines the lines of the relay file |
| SortedEntries.InsertRepresents | auth.c:216-219 | append and sort is insertion into the map, with no duplicate |
| SortedEntries.RefreshRepresents | auth.c:207-209 | the refresh updates one time and changes no line of the relay file |
| SortedEntries.KeptRepresents | auth.c:364-373 | compaction keeps order and is the filter of the map by age |
| AuthTable.QSort | auth.c:219-219 | sorts and permutes the first entries and touches no other |
| AuthTable.Table.AuthPresent | auth.c:170-175 | finds the entry of a host iff the host is listed |
| AuthTable.Table.AuthInitMem | auth.c:159-166 | both buffers get the new capacity, stay distinct and keep the entries |
| AuthTable.Table.Append | auth.c:212-218 | growth by 1024 exactly when full, and one more entry |
| AuthTable.Table.AuthTextAdd | auth.c:203-223 | the table and the relay file follow the history extended by the add; a refresh rewrites nothing |
| AuthTable.Table.CopyLive | auth.c:364-373 | the shadow buffer receives the live entries in order, all writes in bounds |
| AuthTable.Table.AuthTextClean | auth.c:356-381 | the buffers change places, the entries are the live ones, and the table follows the history extended by the clean |
| AuthTable.Table.RelayLists | auth.c:180-193 | the relay file lists the hosts of the history once each and in order |
| AuthTable.Table.RelayAfterClean | auth.c:356-381 | the history theorem, for the relay file |
| AuthTable.Table.RelayBounds | auth.c:351-394 | both retention bounds, for the relay file |
| Pacing.PaceAllInRange | tail.c:159-168 | the delay stays between 1 and 1000000 microseconds |
| Pacing.BusyPace | tail.c:159-163 | reads of n1, ..., nk >= 1 lines leave max(1, paws / (n1 * ... * nk)) |
| Pacing.IdlePace | tail.c:164-168 | k idle reads leave min(1000000, paws * 2^k) |
| Pacing.TwentyIdleReads | tail.c:44-44 | twenty idle reads reach the maximum from any delay, nineteen do not from one microsecond |
| Delivery.Delivers | tail.c:82-170 | over any run the chunks are the text of the followed stretches, without gap or repeat, and a pass that is not impatient leaves nothing unread of the file it found open |
| Delivery.OneFile | tail.c:116-155 | of an append-only log everything after the opening position arrives, up to its end at the latest pass with a patience that is not negative; all of it iff nothing was appended since |
| Delivery.ExactlyOnceIff | tail.c:82-155 | no file is followed twice, every later file from its start, and every file given up was read to its end, iff every opening and every giving up was safe and no file grew after it was given up |
| Delivery.DeliversTheLog | tail.c:82-155 | then the chunks, with what still waits in the open file, are the whole text of the files followed, one after another, from the opening position on |
| Delivery.RotationIsSafe | tail.c:96-109 | rotation is safe if the name never returns to a file, old files rest, no patience is negative, and a new log is noticed while shorter than what was read of the old |
| Delivery.MovedAwayAndBack | tail.c:116-122 | a log moved away, missed and moved back is read again |
| Delivery.LateAppend | tail.c:82-109 | what is written to a log after it was given up is not read |
| LogFollowing.PacedRun | tail.c:116-168 | over a run the delay depends on completed reads alone, and stays between 1 and 1000000 microseconds |
| Watching.LastSignIs | tail.c:116-141 | over any run the time remembered is that of the latest growth of the open file, opening or reopening |
| Watching.OneFileSigns | tail.c:134-141 | for a log that keeps its name that time is a function of its lengths and the clock alone |
| Watching.QuietPass | tail.c:123-168 | a pass that finds nothing new reopens iff that time is longer ago than the patience; else it keeps place and time and doubles the delay up to a second |
| Watching.QuietLog | tail.c:116-168 | of a log not written to any more, passes within the patience only double the delay, and the first one beyond it goes after the name: a rotated log is noticed then |
| Watching.ReadingPass | tail.c:134-168 | a pass that finds new text reads it all, unless it is impatient, and divides the delay by its newlines |
| Logins.LinesCounted | tail.c:73-80 | in text without NUL the newlines counted are the lines handed to the matcher |
| Follower.LineCount | tail.c:73-80 | the number of occurrences of the newline in the first characters of the buffer |
| Follower.Tail.TailReopen | tail.c:82-109 | nothing is open afterwards iff the name names no file; the position never lies past the end, and is kept iff the file can hold it; the file that was open stays open at its place iff it still has the name |
| Follower.Tail.TailRead | tail.c:111-170 | state and buffer after a pass; the buffer has room for the text and its NUL |
| Lines.LinesRebuild | exact.c:63-70 | the lines and the unended rest make up the text, character by character; there are as many lines as newlines and NULs, and none of these is inside a line |
| Lines.OneLine | exact.c:63-70 | whatever contains neither newline nor NUL is one line as soon as one of them follows |
| Lines.PiecesIff | exact.c:63-70 | cutting read by read gives the lines of the whole text iff no line is cut in two |
| Lines.WholeLines | exact.c:63-70 | it does when every chunk is empty or ends at a line end |
| Lines.CutLine | exact.c:63-70 | a line read in two halves is not seen, wherever it is cut; its second half is taken for a line |
| Daemon.CutBuffer | exact.c:63-70 | newlines, and no other characters, are overwritten by NUL; ending lines in place hands the matcher exactly the ended lines, in order, and the table their hosts |
| Daemon.OnePass | exact.c:57-72 | one pass: follower and table move together |
| Daemon.MainLoop | exact.c:219-221 | any finite run with cleans between passes: the relay file lists exactly the hosts the run's history leaves |
| Daemon.Relayed | auth.c:356-394 | after any run of the main loop, from its steps alone: a host with a login line handed on less than the timeout ago is in the relay file, right after a clean nobody else is, and with cleans at most flush apart nobody whose latest login line is timeout + flush old |
| Logins.WrittenInLines | exact.c:63-70 | if the logs are written in whole lines, no read cuts a line |
| Logins.AuthorisedIff | exact.c:62-67 | without cleans the authorised hosts are those of the login lines of the delivered text, if no read cut a line |
| Logins.AuthorisedOneLog | exact.c:57-72 | for a log that keeps its name: those of the login lines appended to it since it was opened, up to its end at the latest pass with a patience that is not negative |
| Logins.AuthorisedRotated | exact.c:57-72 | for a log rotated safely: those of the login lines of all the files followed, from the opening position on, without what still waits |
| Logins.AfterExpiry | auth.c:356-381 | right after a clean, under a clock that runs forward and a fixed timeout, the authorised hosts are those with a login line that a pass handed on less than the timeout ago |
| Logins.Retention | auth.c:383-394 | at any moment the same from the one side, and from the other within timeout + flush |

## Left out

- Scanner.Getopt.Next: does not model `-W foo` (getopt.c:934-1126), option strings that begin with `-` or `+`, or `long_only`; the program uses none of them, and `Scanner.Supported` states the first two.
- Scanner.Getopt.DecodeShort: the `W;` branch inside the cited lines is excluded by `Scanner.Supported`, as for Scanner.Getopt.Next.
- Scanner.Getopt.Next: a caller who moves optind back into the middle of a scan is not covered; setting it to zero, and calling again after -1, are.
- Scanner.Getopt.Scan: an empty vector, for which every call returns -1 as Scanner.Getopt.Next states, is not repeated in the contracts of the two loops.
- Scanner.Getopt.Scan: a table entry whose value is -1 ends the caller's loop early; the contract then covers the calls up to there.
- The scanner's characters are unsigned and its lengths unbounded; printing of messages, `opterr` and nonoption flags are not modelled, the kind of message is.
- AuthTable.Table.AuthTextAdd: hosts of 255 characters or more, which the fixed buffers cut, and running out of memory are not modelled; a clean is an atomic step between adds.
- AuthTable.QSort: the C library's sort is replaced by insertion on a sequence; only its contract is used.
- Delivery.ExactlyOnceIff: a file counts as followed twice even if nothing of it was read the first time, when no text is repeated; and a log that has the name only between two reopenings is never followed, so nothing is said of its text.
- Delivery.RotationIsSafe: goes one way only; the condition both ways is that of Delivery.ExactlyOnceIff.
- Delivery.Delivers: files never shrink in place, so the difference of offsets is never negative; lengths are unbounded, not 32 or 64 bits.
- Follower.Tail.TailRead: one clock reading a pass, and no waiting: `nap` only splits the delay into seconds and microseconds.
- match.c: matching is an arbitrary function; user names are only logged and not modelled.
- The Berkeley DB backend, configuration files, daemonising, pid and dump files, logging and signal delivery inside a step.
