# Proofs about the bundled kpathsea and readline

The repository carries two C libraries: kpathsea, which finds TeX files along search
paths, and GNU readline, which edits a command line. This project models the parts of
them where loops, pointers and in-place updates make the intent hard to see, and
proves that the intent is met. Where the code keeps state, the model is a class or an
array changed by methods; each method is proved against a function, and the properties
are lemmas about those functions.

C strings are `string`s without NUL; file names are compared with `==`, `/` is the only
directory separator, and integers are unbounded except where a module says otherwise
(`Fallback`, `Hash` and `Strtol` keep the integer widths of the C code).

| module | what it is about |
|---|---|
| `Terminal` | a terminal row: the commands readline sends and what they do |
| `Display` | `update_line`: the commands that turn the old row into the new one |
| `Scroll` | showing a long line on one row, scrolled horizontally |
| `Redisplay` | `rl_redisplay` over all rows, and the methods that write the commands |
| `Getopt` | GNU `getopt` for short options, which permutes `argv` while it scans |
| `GetoptFlag` | its runs with the caller's option string, which may begin with `-` or `+` |
| `GetoptWritten` | option strings and command lines as they are written |
| `DirSearch` | the directory list that is relinked while it is being searched |
| `Braces` | brace expansion |
| `DbMatch` | matching file names against path elements with `//` |
| `VarExpand` | `$VAR` and `${VAR}`, protected against circular definitions |
| `Editor` | the edited line and its undo list |
| `Kill` | the kill ring, yank and yank-pop |
| `KeySyntax` | reading and writing key sequences |
| `Keymap` | binding key sequences in a tree of keymaps, and looking them up |
| `Tokenizer` | splitting a history line into words; `quote_breaks` |
| `Strstr`, `Strtol` | the C library replacements |
| `Hash` | the hash table of file names |
| `Fallback` | trying the font resolutions around the wanted one |

## Where the code does less than one would expect

Each of these is proved: a condition that says exactly when the code keeps its promise,
and an input for which it does not.

- `update_line` draws the right row on a terminal if and only if the terminal
  description is true in the few capabilities it uses, with an input for each of them
  (`Display.OnlyAdequateCapsWork`).
- `update_line` scans for the first difference by the old line's limit only, so it can
  run past the new line's (`Display.UpdateShowsWindowIff`, `Display.WindowIsMissed`).
  `rl_redisplay` never sends such lines (`Redisplay.RedisplayShows`,
  `Scroll.ScrollShows`).
- On one row, the left margin is in the line and the cursor on the row for all lines if
  and only if the screen is at least three columns wide (`Scroll.MarginFitsIff`); the
  cursor never stands on a `<` or `>` if and only if it is at least four wide
  (`Scroll.CursorIsSeenIff`); `Scroll.TooNarrow` has a line for each smaller width.
- `getopt` strips a leading `-` or `+` from the option string on the first call only.
  Later calls take the flag itself for an option and lose a colon at the front
  (`GetoptFlag.FlagIsTakenForAnOption`, `GetoptFlag.ColonIsLost`); which command lines
  are read correctly all the same is `GetoptFlag.DashRunIff` and `GetoptFlag.PlusRunIff`.
- Moving directories to the front can change where another file is found
  (`DirSearch.OtherSearchChanges`; `DirSearch.OtherSearchesUnchangedIff` after a search
  for all files, `DirSearch.OtherSearchesUnchangedByOneIff` after one for a single file).
- `brace_expand` leaves an empty choice `{}` as it is where a scan begins: at the start
  of the text or of an alternative, or right behind another choice
  (`Braces.ExpandWholeIff`, `Braces.EmptyChoiceStays`).
- `match` never tries a `//` wildcard that the file name matches literally; it is right
  for all path elements exactly on names whose slashes are doubled at most before the last
  component (`DbMatch.MatchesIffMeans`, `DbMatch.Hidden`).
- `kpse_var_expand` reads past the end of a text that ends in a bare `$`
  (`VarExpand.RunsPastIff`, `VarExpand.BareDollar`).
- A yank after a run of kills restores all lines if and only if the first kill takes
  something and, at the end of the run, point is where the killed text belongs
  (`Kill.KillThenYankIff`). It is not there after a region killed behind point, unless
  point was at the end of the line (`Kill.RegionThenYankIff`), nor after killing the whole
  line, unless what was killed before belongs at its start (`Kill.FullLineThenYankIff`;
  `Kill.FullLineFromTheMiddle` is a run for which it does). After a run whose first kill
  is empty, the killed text joins that of an earlier run (`Kill.OldTextComesBack`), or,
  without an earlier run, is stored through a null ring (`Kill.NoSlotIff`,
  `Kill.NoSlotHappens`).
- Storing a kill in a full ring, and in no other, reads one place behind the ring's array
  (`Kill.Killer.CopyToKillRing`); what is read has no influence.
- Control-backslash is written with one backslash too many, and where a plain `char` is
  unsigned, meta characters are written in a form that reads otherwise
  (`KeySyntax.RoundTripIff`, `KeySyntax.ControlBackslashIsMisread`,
  `KeySyntax.MetaIsMisread`).
- `rl_translate_keyseq` reads past the end of a text that ends behind a `\C-` waiting for
  its character (`KeySyntax.RunsPastIff`, `KeySyntax.BareControl`).
- `rl_function_of_keyseq` uses a key from 128 on as a negative index where a plain `char`
  is signed (`Keymap.LookedUpIff`, `Keymap.NegativeKey`).
- `strtol` takes `0x` without a digit for a prefix (`Strtol.StandardIff`,
  `Strtol.BareHexIsMisread`).
- The fallback search never tries the sizes above the closest one when that is below the
  wanted one and listed twice, as `kpse_init_fallback_resolutions` allows. It then can find
  a farther size (`Fallback.FoundIsClosestIff`, `Fallback.FartherIsFound`), and runs off
  the front of its list when no size up to the closest is available
  (`Fallback.TryFallbackResolutions`, `Fallback.RunsOff`).
- The tokenizer jumps over the end of a line that ends in a pending escape
  (`Tokenizer.TokensCover`, `Tokenizer.LoneBackslash`).

## Model

| member | source | states |
|---|---|---|
| Terminal.RunPutsPushing | libs/readline/display.c:1382-1400 | characters written in insert mode push the rest of the row to the right |
| Terminal.RunOpen1s | libs/readline/display.c:1388-1392 | n times `ic` opens a gap of n cells at the cursor |
| Terminal.RunDelete1s | libs/readline/display.c:1431-1436 | n times `dc` closes up n cells at the cursor |
| Display.ComparesLines | libs/readline/display.c:805-843 | the pointers of the comparison split both lines into a common front, a changed middle and a common tail |
| Display.TailIsLongest | libs/readline/display.c:821-843 | no longer tail is shared behind the first difference, unless all that is shared are blanks |
| Display.MoveMoves | libs/readline/display.c:1022-1075 | a cursor motion ends in the wanted column and changes no cell, whether it backs up, returns first, or prints the text again |
| Display.MoveIsShortest | libs/readline/display.c:1038-1075 | no more commands are sent than the shorter of backing up and returning first takes, or the characters passed over |
| Display.InsertInserts | libs/readline/display.c:1351-1403 | however the terminal inserts (IC, insert mode, or ic), the text stands at the cursor, the rest has moved right, and insert mode is off |
| Display.DeleteDeletes | libs/readline/display.c:1406-1438 | however the terminal deletes, the cells after the cursor have moved left |
| Display.ClearClears | libs/readline/display.c:1313-1337 | clearing blanks the rest of the text and accounts for the cursor |
| Display.Growing | libs/readline/display.c:892-946 | every branch for a longer middle draws the new row |
| Display.Shrinking | libs/readline/display.c:947-984 | every branch for a middle no longer than before draws the new row |
| Display.UpdateShows | libs/readline/display.c:777-985 | from a row that shows the old line, the commands lead to a row that shows the new text, blank padded, with the cursor where `_rl_last_c_pos` says and insert mode off |
| Display.UpdateShowsWindow | libs/readline/display.c:777-985 | the same, with exactly the new line shown, when its NUL lies within its limit or the old line is no longer than that limit |
| Display.UpdateShowsWindowIff | libs/readline/display.c:805-815 | in general the new line is shown exactly if the scan past its limit met only blanks |
| Display.WindowIsMissed | libs/readline/display.c:805-809 | two lines for which it is not: "abcd" of length four, replaced by its first two characters |
| Display.OnlyAdequateCapsWork | libs/readline/display.c:892-984 | all updates are drawn correctly on a terminal if and only if its description is adequate; each missing capability has a counterexample |
| Scroll.MarginFits | libs/readline/display.c:661-696 | on screens of three columns or more the margin chosen for any line, cursor and old margin lies in the line, with the cursor on the row; of four or more, with the cursor on no mark |
| Scroll.MarginFitsIff | libs/readline/display.c:661-696 | the margin is right for all lines if and only if the screen is at least three columns wide |
| Scroll.CursorIsSeenIff | libs/readline/display.c:696-709 | the cursor never stands on a mark if and only if it is at least four wide |
| Scroll.TooNarrow | libs/readline/display.c:661-709 | for every smaller width, a line and cursor with a wrong margin, or a cursor on a mark |
| Scroll.MarginStaysIff | libs/readline/display.c:675-696 | the margin stays exactly while the cursor is on the row, in neither its first column nor its last, and the beginning of the line would not do |
| Scroll.MarginIsStable | libs/readline/display.c:675-696 | a redisplay repeated with the same line and cursor keeps the margin |
| Scroll.MotionKeepsMargin | libs/readline/display.c:691-696 | so does one after a cursor motion inside the window |
| Scroll.ScrollsByThirds | libs/readline/display.c:671-691 | scrolling to the right leaves the cursor two thirds of the row from its start; scrolling to the left goes by thirds of a row |
| Scroll.ScrollShows | libs/readline/display.c:650-739 | from a row that shows the old line from its margin on, one redisplay leads to a row that shows the new line, marked, from its own margin on, the cursor at the editing position |
| Scroll.MarkedCells | libs/readline/display.c:694-707 | the cells that show the line: a `<` when something is before the margin, a `>` when something is behind the row, all others as in the line |
| Scroll.AllScrollsShow | libs/readline/display.c:650-739 | the same holds after every run of redisplays, each starting from the margin the one before has left |
| Redisplay.VertMoves | libs/readline/display.c:1077-1111 | moving between rows leaves the screen alone and the believed position true |
| Redisplay.LineShows | libs/readline/display.c:845-877 | one call of `update_line` changes its row to the new line and no other row |
| Redisplay.LinesShow | libs/readline/display.c:558-583 | the loop over the new lines leaves each row showing its new line |
| Redisplay.BlanksBlank | libs/readline/display.c:585-598 | old lines without a new one are blanked |
| Redisplay.CursorGoes | libs/readline/display.c:601-647 | the cursor is put in its row and column without changing the screen |
| Redisplay.RedisplayShows | libs/readline/display.c:533-648 | the branch for terminals that can move up: one redisplay turns a screen that shows the old text into one that shows the new text and nothing else, the cursor at the editing position |
| Redisplay.Writer.MoveCursorRelative | libs/readline/display.c:1022-1075 | writes the motion the lemmas are about and records the new column |
| Redisplay.Writer.MoveVert | libs/readline/display.c:1077-1111 | writes the vertical motion and records row and column; nothing for a row beyond the screen |
| Redisplay.Writer.InsertSomeChars | libs/readline/display.c:1350-1403 | writes the insertion by the first way the terminal has |
| Redisplay.Writer.DeleteChars | libs/readline/display.c:1405-1438 | writes the deletion, or nothing for more characters than the screen is wide |
| Redisplay.Writer.ClearToEol | libs/readline/display.c:1313-1337 | writes the clearing, by command or by blanks |
| Redisplay.Writer.CompareLines | libs/readline/display.c:805-843 | the loops find the split the lemmas are about |
| Redisplay.Writer.FindTail | libs/readline/display.c:821-843 | the backward loop with its trailing-blank flag finds the common tail |
| Redisplay.Writer.UpdateLine | libs/readline/display.c:777-985 | writes exactly the commands proved right and ends with the believed position they have |
| Redisplay.Writer.Redisplay | libs/readline/display.c:533-648 | writes exactly the commands of the whole-screen theorem |
| Redisplay.Writer.FindMargin | libs/readline/display.c:661-696 | the branches choose the margin the lemmas are about |
| Redisplay.Writer.RedisplayOnOneRow | libs/readline/display.c:650-739 | writes exactly the commands of the one-row theorem, unless the screen is too narrow for the line |
| Getopt.ShortReads | libs/kpathsea/getopt.c:718-914 | a call inside an element returns what reading that element in order gives next, and uses up the argument it takes |
| Getopt.StepAdvances | libs/kpathsea/getopt.c:494-569 | every call that returns something keeps 1 <= first_nonopt <= last_nonopt <= optind <= argc and gets closer to the end |
| Getopt.StepPermutes | libs/kpathsea/getopt.c:494-569 | one PERMUTE call keeps what the run will return and how the vector will end up; the last one leaves it sorted |
| Getopt.RunPermutes | libs/kpathsea/getopt.c:465-569 | from any state between calls, a run to -1 sorts the vector into options and non-options and returns the options in order |
| Getopt.PermuteRun | libs/kpathsea/getopt.c:465-569 | a whole PERMUTE run returns the options of the command line; `argv` ends as the program name, the option elements with their arguments and `--`, then the non-options, each in their old order, and `optind` is the first non-option |
| Getopt.PermuteConserves | libs/kpathsea/getopt.c:291-345 | the vector ends as a permutation with `argv[0]` in place |
| Getopt.ParseConserves | libs/kpathsea/getopt.c:413-440 | reading in order sorts every argument into exactly one group |
| Getopt.RunInOrder | libs/kpathsea/getopt.c:553-562 | with one option string for all calls, RETURN_IN_ORDER returns everything in order and leaves `argv` alone |
| Getopt.RunRequireOrder | libs/kpathsea/getopt.c:553-562 | with one option string for all calls, REQUIRE_ORDER returns the options before the first non-option and stops there |
| Getopt.PermuteAgreesWithInOrder | libs/kpathsea/getopt.c:505-562 | PERMUTE returns what RETURN_IN_ORDER returns without the code-1 results |
| Getopt.FlagChangesOnlyItself | libs/kpathsea/getopt.c:475-480 | with the flag left in the option string every other character has the same kind; the flag itself becomes an option |
| Getopt.MovedBack | libs/kpathsea/getopt.c:498-503 | a call after `optind` was moved back is the call from the state whose skipped non-options are those in front of it |
| GetoptFlag.FlaggedKind | libs/kpathsea/getopt.c:721-742 | the kind the flag then has, and that a missing argument is answered by ? |
| GetoptFlag.ShortAlikeIff | libs/kpathsea/getopt.c:718-914 | when one option character is read alike with and without the flag in front |
| GetoptFlag.FlaggedRunIff | libs/kpathsea/getopt.c:473-480 | a run whose first call strips the flag and whose later calls do not returns what the flagless run does if and only if every option character behind the first call is read alike; then `argv` and `optind` end alike too |
| GetoptFlag.DashRunIff | libs/kpathsea/getopt.c:370-374 | for `-`, such a run returns the command line in order if and only if that holds |
| GetoptFlag.PlusRunIff | libs/kpathsea/getopt.c:375-379 | for `+`, it returns the command line up to the first non-option if and only if that holds |
| GetoptFlag.CalledPermutes | libs/kpathsea/getopt.c:370-383 | a caller whose option string has no flag, without POSIXLY_CORRECT, gets the options in order; `argv` ends sorted, `optind` at the first non-option |
| GetoptFlag.CalledStops | libs/kpathsea/getopt.c:380-381 | with POSIXLY_CORRECT, the results before the first non-option; `argv` stays |
| GetoptFlag.CalledInOrderIff | libs/kpathsea/getopt.c:370-374 | with a leading `-`, whatever POSIXLY_CORRECT says, the whole command line in order if and only if it is read alike with the flag left in |
| GetoptFlag.CalledStopsIff | libs/kpathsea/getopt.c:375-379 | with a leading `+`, the results before the first non-option if and only if that holds |
| GetoptFlag.FlagIsTakenForAnOption | libs/kpathsea/getopt.c:721-742 | a command line in which the dash is taken for an option |
| GetoptFlag.ColonIsLost | libs/kpathsea/getopt.c:891-905 | a command line whose missing argument is answered by ? instead of a colon |
| GetoptWritten.KindIsWritten | libs/kpathsea/getopt.c:725-742 | a character followed by no, one or two colons at its first place in the option string takes no argument, needs one, or may have one |
| GetoptWritten.UnknownIff | libs/kpathsea/getopt.c:721-742 | exactly the characters that are not there, and the colon, are unknown |
| GetoptWritten.LineParses | libs/kpathsea/getopt.c:413-440 | a command line written from flags, options with attached and separate arguments and words is read back item by item, whatever follows; the options with their arguments and the words are kept apart in order |
| GetoptWritten.LineEndsAtDashes | libs/kpathsea/getopt.c:524-539 | what follows `--` is not read |
| GetoptWritten.ClusterParses | libs/kpathsea/getopt.c:718-742 | options without arguments mean the same in one element or in two |
| GetoptWritten.WrongOptions | libs/kpathsea/getopt.c:728-742 | an option that is not declared returns ?; one whose argument is missing ?, or a colon if the option string begins with one |
| Getopt.Scanner.Initialize | libs/kpathsea/getopt.c:352-406 | sets the static state, the ordering, and the option string without its flag |
| Getopt.Scanner.Rotate | libs/kpathsea/getopt.c:295-339 | the loop of block swaps exchanges the two ranges, keeping the order inside each |
| Getopt.Scanner.Exchange | libs/kpathsea/getopt.c:291-345 | the skipped non-options move behind the options processed since, and the indices follow |
| Getopt.Scanner.Getopt | libs/kpathsea/getopt.c:473-480 | the first call starts afresh and strips the flag, later ones use the option string as it is |
| Getopt.Scanner.ReadAll | libs/kpathsea/getopt.c:944-951 | calling getopt until it returns -1 gives the run the lemmas about whole runs are about, ordering and stripping of the flag included |
| Getopt.Scanner.Next | libs/kpathsea/getopt.c:494-569 | one call takes exactly the step the lemmas are about |
| Getopt.Scanner.NextChar | libs/kpathsea/getopt.c:718-914 | the short-option part of a call: flags, required and optional arguments, errors |
| DirSearch.LList.Add | libs/kpathsea/str-llist.c:26-45 | a new, unmoved element at the end; the rest as before |
| DirSearch.LList.Float | libs/kpathsea/str-llist.c:52-94 | an unmoved element goes before the first unmoved one, the others keep their order; a moved one stays |
| DirSearch.LList.Splice | libs/kpathsea/str-llist.c:70-90 | the pointer updates: only the links of the moved element and its neighbours change |
| DirSearch.HitStep | libs/kpathsea/pathsearch.c:131-147 | after a hit the walk goes on over earlier misses, and what it has found stays the hits of the list's old order so far |
| DirSearch.MissStep | libs/kpathsea/pathsearch.c:117-131 | after a miss, first met or met again, the same holds |
| DirSearch.DirListSearch | libs/kpathsea/pathsearch.c:105-155 | the walk over the list it relinks ends; all-files: it returns every readable file once in the order of the list, and the list ends as the directories moved before, then those hit, then those missed; one file: the first hit, moved up |
| DirSearch.SearchingAgain | libs/kpathsea/pathsearch.c:135-136 | reordering after a search for all files loses and doubles no directory, and the same search finds the same files in the same order |
| DirSearch.SearchingAgainForOne | libs/kpathsea/pathsearch.c:135-142 | the same after a search for one file, and it is found in the same directory |
| DirSearch.OtherSearchesUnchangedIff | libs/kpathsea/str-llist.c:47-50 | after a search for all files another file is found where it was, exactly if a moved directory has it, no unmoved one has both files, or the first unmoved one that has it has both |
| DirSearch.OtherSearchesUnchangedByOneIff | libs/kpathsea/str-llist.c:47-50 | after a search for one file, exactly unless the directory it moved passed the first one that has the other file, and has it too |
| DirSearch.OtherSearchChanges | libs/kpathsea/str-llist.c:47-50 | two directories for which either search changes where another file is found |
| Braces.BraceGobbler | libs/kpathsea/expand.c:498-557 | the scanning loop stops where the step-by-step scanner does, and returns the character there |
| Braces.GobbleStops | libs/kpathsea/expand.c:494-497 | it stops at the wanted character or at the end |
| Braces.SkipTree | libs/kpathsea/expand.c:533-553 | a scan passes over a well-formed pattern in one piece, at every nesting level |
| Braces.SkipQuoted | libs/kpathsea/expand.c:518-531 | a scan passes a text in quote marks of any kind in one piece, whatever it looks for; between single quotes a backslash means nothing |
| Braces.SkipEscaped | libs/kpathsea/expand.c:507-519 | so it does an escaped character, between double and back quotes too |
| Braces.SkipReference | libs/kpathsea/expand.c:543-546 | and a `${}` with its name |
| Braces.SkipLoneBrace | libs/kpathsea/expand.c:535-542 | an open brace between blanks is passed |
| Braces.ArrayConcat | libs/kpathsea/expand.c:450-492 | every pair is joined once, the left array varying fastest |
| Braces.BraceExpand | libs/kpathsea/expand.c:341-396 | the recursive expansion, unmatched braces included, computes `Expand` |
| Braces.ExpandBraces | libs/kpathsea/expand.c:403-448 | splitting at commas and path separators computes `ExpandAmble` |
| Braces.ProductAssoc | libs/kpathsea/expand.c:450-454 | concatenating arrays is associative |
| Braces.ProductAt | libs/kpathsea/expand.c:450-492 | which pair stands at which place: each once, the left array varying fastest |
| Braces.AmbleMeans | libs/kpathsea/expand.c:403-448 | the text between braces expands to what its alternatives are read as, one after the other |
| Braces.ExpandPrefix | libs/kpathsea/expand.c:341-396 | a pattern in front of anything multiplies the expansion of what follows, wherever a scan begins |
| Braces.ExpandReads | libs/kpathsea/expand.c:341-396 | what every pattern of literals, concatenations and choices expands to: what it denotes, except for an empty choice where a scan begins |
| Braces.ExpandWholeIff | libs/kpathsea/expand.c:341-396 | expanding the written form of a pattern gives the list it denotes if and only if no empty choice stands where a scan begins |
| Braces.EmptyChoiceStays | libs/kpathsea/expand.c:341-396 | an empty choice alone, which is not expanded |
| Braces.LeftAlone | libs/kpathsea/expand.c:358-378 | texts without open or without close braces, quoted texts and `${}` are left as they are |
| Braces.CommasAndColons | libs/kpathsea/expand.c:403-448 | commas and colons both separate alternatives |
| DbMatch.Match | libs/kpathsea/db.c:188-242 | the cursor loop with its backtracking ends and returns `Matches` |
| DbMatch.MatchesDirectory | libs/kpathsea/db.c:222-240 | an element without wildcards matches exactly the files in that directory, whether or not it is written with a slash at the end |
| DbMatch.MeansBelow | libs/kpathsea/db.c:182-186 | an element with one wildcard in the middle means the files in directories below the first part, at any depth, that end in the second |
| DbMatch.MeansAllBelow | libs/kpathsea/db.c:182-186 | one with a wildcard at the end means every file below |
| DbMatch.MatchesBelow | libs/kpathsea/db.c:188-242 | what elements with one wildcard match, for names whose slashes are doubled at most before the last component |
| DbMatch.MatchesDrop | libs/kpathsea/db.c:194-197 | matching characters in front can be dropped when that cuts no wildcard in two |
| DbMatch.MatchesMeans | libs/kpathsea/db.c:182-186 | whatever is accepted has the meaning: the literal parts between `//` stand in order in the name, the first at the start, each later one after a slash, and the last component follows |
| DbMatch.MeansMatches | libs/kpathsea/db.c:188-242 | a name with slashes doubled at most before its last component is accepted if it has the meaning |
| DbMatch.MatchesIffMeans | libs/kpathsea/db.c:188-242 | a name is judged by the meaning for every path element if and only if its slashes are doubled at most before the last component |
| DbMatch.Hidden | libs/kpathsea/db.c:195-203 | for every other name, a path element it has the meaning of and that rejects it |
| VarExpand.Expander.Expanding | libs/kpathsea/variable.c:61-77 | marks or unmarks exactly the one variable |
| VarExpand.Expander.ExpandingP | libs/kpathsea/variable.c:82-92 | says whether the variable is marked |
| VarExpand.Expander.Expand | libs/kpathsea/variable.c:98-127 | appends what the reference stands for and restores the marks |
| VarExpand.Expander.VarExpand | libs/kpathsea/variable.c:148-201 | ends for every set of definitions, circular ones included; gives the meaning in which a marked variable is not defined, and leaves the marks as they were |
| VarExpand.BracedName | libs/kpathsea/variable.c:174-187 | `${NAME}` stands for the meaning of the value of NAME, or nothing, whatever follows |
| VarExpand.BareName | libs/kpathsea/variable.c:160-171 | so does `$NAME`, where the name ends |
| VarExpand.OtherText | libs/kpathsea/variable.c:189-195 | other characters are copied; a dollar is dropped with a character that begins no reference |
| VarExpand.UnclosedBrace | libs/kpathsea/variable.c:181-183 | a brace that is not closed swallows the rest |
| VarExpand.NameCharacters | libs/kpathsea/variable.c:134-136 | names are made of letters, digits and underscores |
| VarExpand.AcyclicIsPlain | libs/kpathsea/variable.c:44-48 | without circular definitions the result is plain recursive substitution |
| VarExpand.RunsPastIff | libs/kpathsea/variable.c:157-195 | a scan runs past its end if and only if a chain of references from the source leads to a text that ends in a bare `$` |
| VarExpand.BareDollar | libs/kpathsea/variable.c:157-195 | the shortest source that is read past its end |
| Editor.Line.ExtendLineBuffer | libs/readline/util.c:154-170 | the buffer becomes longer than wanted and keeps its text |
| Editor.Line.InsertText | libs/readline/readline.c:951-984 | the text stands at point, the rest has moved; one record is added, or the newest one grows when a single character joins it |
| Editor.Line.DeleteText | libs/readline/readline.c:986-1023 | the range, put in order and clamped, is gone; the record keeps its text |
| Editor.Line.Modifying | libs/readline/undo.c:205-223 | four records that let text overwritten in place be restored |
| Editor.Line.DoUndo | libs/readline/undo.c:102-168 | takes back one record, or all down to the matching Begin, and sets point |
| Editor.Line.RevertLine | libs/readline/undo.c:226-239 | ends with an empty list and the line the log leads back to |
| Editor.ApplyKeepsOrigin | libs/readline/readline.c:966-977 | every operation (insert, joined insert, delete, overwrite, groups, undo) keeps the line to which the log leads back |
| Editor.RunThenRevert | libs/readline/undo.c:226-239 | after any run of edits, groups and undos, reverting gives the line the run began with |
| Editor.UndoTakesBack | libs/readline/undo.c:102-168 | one undo takes back one edit, or a joined insertion as a whole; point ends where an insertion began, behind a text that was deleted, and behind one that was overwritten |
| Editor.Deletes | libs/readline/readline.c:992-1006 | what is deleted: the text between the two places, whichever comes first, as far as the line goes |
| Editor.TypingJoins | libs/readline/readline.c:966-977 | up to twenty typed characters are one insertion, which one undo takes back with point where it was; the next starts another |
| Editor.UndonePoint | libs/readline/undo.c:124-151 | undoing leaves point inside the line |
| Editor.GroupIsAtomic | libs/readline/undo.c:188-203 | one undo takes back a whole group, however long and nested, with undos inside that stay inside: line and list are those from before it |
| Editor.BalancedWithoutUndo | libs/readline/undo.c:188-203 | edits without undos whose Begins and Ends match are such a group |
| Kill.Killer.ShiftDown | libs/readline/kill.c:121-127 | the loop that drops the oldest slot; its last round reads behind the array |
| Kill.Killer.CopyToKillRing | libs/readline/kill.c:91-161 | takes a new slot, dropping the oldest of ten, or joins the text to the newest at the proper end; there is no slot to join exactly when a kill has been counted and no ring made; the array is read behind its end exactly when a full ring takes a new slot |
| Kill.Killer.KillText | libs/readline/kill.c:163-191 | deletes the text into the ring; an empty kill only counts; fails when there is no slot to join |
| Kill.Killer.KillRegion | libs/readline/kill.c:351-393 | kills between point and mark, then clamps point |
| Kill.Killer.Dispatch | libs/readline/readline.c:445-484 | a round of the command loop: a command that killed nothing ends the run |
| Kill.Killer.Yank | libs/readline/kill.c:446-459 | inserts the current slot at point |
| Kill.Killer.YankPop | libs/readline/kill.c:461-494 | replaces the yanked text by the slot below, if the last command was a yank and the text stands before point |
| Kill.KillOne | libs/readline/kill.c:163-191 | what one kill does to line, point and newest slot for every command: which part goes, and on which side of the slot's text; the other slots are kept, but for the oldest of a full ring |
| Kill.TrackStep | libs/readline/kill.c:135-152 | following where the slot's text belongs through one kill: a text put behind it has to begin there, one put before it has to end there; otherwise the slot holds texts that were not neighbours |
| Kill.HomeDecides | libs/readline/kill.c:446-459 | putting the slot back at point brings every place of the line back in order if and only if point is where the slot's text belongs |
| Kill.KillThenYankIff | libs/readline/kill.c:163-196 | for every run of kills, of every kind and from anywhere, and every ring: a yank restores all lines of that length if and only if the first kill takes something and point ends where the killed text belongs; then the other slots are kept, but for the oldest of a full ring; if the first kill takes nothing, no line is restored |
| Kill.KillsAtPointComeBack | libs/readline/kill.c:198-262 | every run of forward and backward kills, in any order, is undone by a yank |
| Kill.PauseEndsRun | libs/readline/readline.c:445-484 | after a motion that leads nowhere the next kill takes a slot of its own, whatever was killed before |
| Kill.RingHoldsLastTen | libs/readline/kill.c:103-137 | the ring holds the last ten texts in the order in which they were killed |
| Kill.OldTextComesBack | libs/readline/kill.c:135-152 | a run after an earlier one, its first kill empty: the yank brings the old text too |
| Kill.NoSlotIff | libs/readline/kill.c:135-142 | a run reads through a null ring if and only if there is no ring yet, the first kill takes nothing and a later one takes something |
| Kill.NoSlotHappens | libs/readline/kill.c:355-372 | such a run in a fresh session: an empty region, then a kill forward |
| Kill.RegionThenYankIff | libs/readline/kill.c:382-393 | killing a region and yanking is the identity exactly when the mark is not before point or point is at the end |
| Kill.FullLineThenYankIff | libs/readline/kill.c:286-296 | killing the whole line at the end of any run is undone by a yank exactly when nothing was killed before or what was belongs at the start of what is left |
| Kill.FullLineFromTheMiddle | libs/readline/kill.c:286-296 | a region killed to the start of the line, then the rest from the middle: every line of length five is restored |
| Kill.PopsGoRound | libs/readline/kill.c:461-494 | each pop shows the next slot down at the same place; once round shows the first again |
| Kill.PopsAfterYank | libs/readline/kill.c:446-494 | a yank and n pops show the slot n places down where point was |
| Kill.KillKeepsOrigin | libs/readline/kill.c:163-191 | kills are undoable: the log still leads back to the line it began with |
| KeySyntax.TranslateKeyseq | libs/readline/bind.c:309-367 | the reading loop computes `Translate` into a buffer no longer than the text, unless the text ends behind a `\C-`, when it goes past its end |
| KeySyntax.RunsPastIff | libs/readline/bind.c:348-352 | reading goes past the end exactly when a scan of the text, one character a time, ends behind a `\C-` that waits for its character |
| KeySyntax.BareControl | libs/readline/bind.c:348-352 | the shortest such text |
| KeySyntax.EscapeForms | libs/readline/bind.c:338-360 | `\e`, `\C-[` and the prefix `\M-` all are the character 27 |
| KeySyntax.BothPrefixes | libs/readline/bind.c:329-336 | both prefixes mean the same in either order |
| KeySyntax.ControlLetters | libs/readline/bind.c:348-352 | control takes the place of a letter in the alphabet, whatever its case; `\C-?` is 127 |
| KeySyntax.ControlOfOthers | libs/readline/bind.c:348-352 | control of the other characters keeps their five low bits |
| KeySyntax.EscapedCharacter | libs/readline/bind.c:319-327 | a backslash that begins no prefix is dropped |
| KeySyntax.UnfinishedForms | libs/readline/bind.c:319-336 | a backslash at the end is dropped; both prefixes with nothing behind give an escape and a NUL |
| KeySyntax.UntranslateMacroValue | libs/readline/bind.c:415-460 | the writing loop computes `Untranslate`, for all bytes, signed or unsigned, in seven places a character |
| KeySyntax.WrittenReadsBack | libs/readline/bind.c:424-457 | every written character that is not a meta character is read back as itself, whatever follows; Control-backslash leaves a backslash over |
| KeySyntax.RoundTripIff | libs/readline/bind.c:309-367 | for all bytes but NUL, signed or unsigned: reading back what was written gives the sequence if and only if it has no meta character and no left-over backslash meets a character that minds it |
| KeySyntax.RoundTrip | libs/readline/bind.c:415-460 | every sequence without meta characters and Control-backslash reads back |
| KeySyntax.ControlBackslashIsMisread | libs/readline/bind.c:433-454 | Control-backslash before an e does not read back |
| KeySyntax.MetaIsMisread | libs/readline/bind.c:426-432 | the meta character 225 does not read back where a plain `char` is unsigned |
| KeySyntax.MetaReadsAs | libs/readline/bind.c:426-432 | what is written for a meta character reads as an escape and the character without its high bit |
| Keymap.Keymaps.MakeBareKeymap | libs/readline/keymaps.c:55-74 | a new map: capitals mean their small letters, all else is unbound |
| Keymap.CapitalsStandForSmall | libs/readline/keymaps.c:67-71 | the keys that stand for another one are exactly those that have a small form |
| Keymap.Keymaps.BindKeys | libs/readline/bind.c:269-301 | the descending loop binds the sequence, making maps on the way, and keeps the maps a forest |
| Keymap.Keymaps.GenericBind | libs/readline/bind.c:241-304 | binds every written sequence, translated first; nothing for an empty one; reads past the end of one that ends behind a `\C-` |
| Keymap.Keymaps.FunctionOfKeyseq | libs/readline/bind.c:484-538 | returns the slot the keys lead to, or the first on the way that is no map; leaves the map on a negative key |
| Keymap.LookedUpIff | libs/readline/bind.c:494-534 | a lookup leaves the map if and only if maps lead to a key from 128 on and a plain `char` is signed; otherwise it finds what the keys lead to |
| Keymap.NegativeKey | libs/readline/bind.c:494-518 | a key for which it does |
| Keymap.BoundFrame | libs/readline/bind.c:269-301 | binding changes no map outside the subtree it starts in |
| Keymap.SiblingsApart | libs/readline/bind.c:284-287 | maps behind different keys share nothing |
| Keymap.FoundAfterBound | libs/readline/bind.c:484-538 | what every sequence finds after a binding: the new slot if it begins with the bound keys, a map if it is a proper beginning of them, and otherwise what it found before, unless the binding replaced a non-map on its way, when it finds a fresh map's slot |
| Keymap.BindWritten | libs/readline/bind.c:241-304 | writing keys that read back, binding them and looking them up finds the binding |
| Tokenizer.WordEndIs | libs/readline/histexpand.c:1244-1270 | a word ends at the first unquoted metacharacter or the end; the scan leaves the line exactly when it ends in a pending escape |
| Tokenizer.OperatorLengthIs | libs/readline/histexpand.c:1205-1238 | the longest operator is taken, and none is missed |
| Tokenizer.TokensCover | libs/readline/histexpand.c:1193-1288 | tokens are non-empty, in order and disjoint, only blanks lie between them, words hold no unquoted metacharacter; the scan leaves the line iff it ends in a pending escape |
| Tokenizer.LoneBackslash | libs/readline/histexpand.c:1244-1270 | the shortest line the scan leaves |
| Tokenizer.CoversUnique | libs/readline/histexpand.c:1191-1192 | a line can be covered in one way only |
| Tokenizer.MetasAre | libs/readline/histexpand.c:1205-1238 | the metacharacters are the blanks and the operators of one character |
| Tokenizer.QuotedTextHolds | libs/readline/histexpand.c:1244-1270 | a text in quote marks of any kind stays in one word, and nothing behind it is quoted |
| Tokenizer.EscapedHolds | libs/readline/histexpand.c:1244-1270 | so does an escaped character |
| Tokenizer.TokensExactly | libs/readline/histexpand.c:1193-1288 | the words found are that one cover |
| Tokenizer.HistoryTokenizeInternal | libs/readline/histexpand.c:1182-1288 | the loops return the texts of the cover, and the index of the word that holds the given position if one does |
| Tokenizer.QuoteBreaksOf | libs/readline/histexpand.c:292-332 | the second pass fills exactly the length the first has counted |
| Tokenizer.QuoteBreaksKeeps | libs/readline/histexpand.c:292-332 | taking the quotes away gives the text back; nothing but blanks and newlines is left unquoted; no quote stays open |
| Tokenizer.BreaksLeftOut | libs/readline/histexpand.c:316-324 | every blank and newline is left unquoted, between the quoted texts before and behind it |
| Tokenizer.WordIsWhole | libs/readline/histexpand.c:316-324 | a text without any is one word |
| Strstr.RestMatches | libs/kpathsea/strstr.c:93-117 | the two-at-a-time comparison is true iff the rest of the needle stands there |
| Strstr.Search | libs/kpathsea/strstr.c:72-118 | the jumping loop skips no candidate |
| Strstr.Strstr | libs/kpathsea/strstr.c:40-122 | the first occurrence, or none exactly when there is none; no read beyond a NUL |
| Strtol.CutoffTest | libs/kpathsea/strtol.c:221-247 | the test before each step passes exactly when the step stays in range |
| Strtol.Accumulate | libs/kpathsea/strtol.c:224-253 | the accumulator is the exact value, or the overflow flag says that the value is too large; it never exceeds ULONG_MAX |
| Strtol.Strtol | libs/kpathsea/strtol.c:150-290 | the exact signed value clamped to the range of `long`, ERANGE exactly when clamped, and where reading stopped |
| Strtol.StandardIff | libs/kpathsea/strtol.c:176-196 | agrees with section 7.20.1.4 of ISO/IEC 9899:1999 if and only if there is no bare `0x` |
| Strtol.BareHexIsMisread | libs/kpathsea/strtol.c:176-196 | "0x" in base 16: the standard reads the 0, the code reads nothing |
| Strtol.RoundTrip | libs/kpathsea/strtol.c:224-277 | every number written in base 2 to 36 reads back, clamped if out of range |
| Strtol.NumberIsRead | libs/kpathsea/strtol.c:150-290 | white space, a sign, a prefix, digits in either case with zeros in front, and anything that is no digit behind: the number is read in the base the prefix stands for, clamped, and reading stops behind it |
| Strtol.ClampIsNearest | libs/kpathsea/strtol.c:262-277 | out of range the nearest number of the range, which has one more negative number, is given |
| Hash.Table.HashOf | libs/kpathsea/hash.c:34-45 | the hash is a bucket of the table, in 32-bit arithmetic |
| Hash.CodeIsRemainder | libs/kpathsea/hash.c:34-45 | for tables of any reasonable size the bucket is the remainder of the key read as a number, each character counting twice the next |
| Hash.Table.HashInsert | libs/kpathsea/hash.c:67-88 | the new element is linked behind the last of its chain; the log grows by the pair; every bucket still holds exactly its part of the log |
| Hash.Table.Append | libs/kpathsea/hash.c:78-87 | one chain has the element at its end, the others are untouched |
| Hash.Table.FindPair | libs/kpathsea/hash.c:100-103 | the walk ends at the first equal pair and the element before it |
| Hash.Table.Unlink | libs/kpathsea/hash.c:104-107 | one chain loses the element, the others are untouched |
| Hash.Table.HashRemove | libs/kpathsea/hash.c:93-111 | the log loses the first equal pair; every bucket still holds exactly its part |
| Hash.Table.HashLookup | libs/kpathsea/hash.c:121-163 | returns the values logged for the key, in order |
| Hash.InBucketWithout | libs/kpathsea/hash.c:101-110 | removing a pair and taking a bucket's part can be exchanged |
| Hash.ValuesInBucket | libs/kpathsea/hash.c:128-135 | a bucket answers for its keys like the whole log |
| Hash.ValuesAfter | libs/kpathsea/hash.c:67-111 | what each operation does to the answers for each key |
| Hash.OtherKeysCommute | libs/kpathsea/hash.c:67-111 | operations on different keys can be exchanged |
| Fallback.FindClosest | libs/kpathsea/tex-glyph.c:207-217 | the first of the closest sizes, unsigned differences included |
| Fallback.Diffs | libs/kpathsea/tex-glyph.c:234-240 | the unsigned distances of the two fronts are the true ones, unless the closest size is doubled below dpi |
| Fallback.TryFallbackResolutions | libs/kpathsea/tex-glyph.c:192-259 | each size but dpi at most once, in non-decreasing distance, all of them if none is found; unless the closest size is doubled below dpi, what is found is a closest available size; if it is doubled, the last available size up to it is found, and the search runs off the list exactly when there is none |
| Fallback.FoundIsClosestIff | libs/kpathsea/tex-glyph.c:232-255 | a size that is found is a closest available one if and only if the closest of the list is not doubled below dpi, or no available size above it is closer than the available ones up to it |
| Fallback.FartherIsFound | libs/kpathsea/tex-glyph.c:238-240 | a list with 100 twice for which 10 is found although 130 is closer to 110 |
| Fallback.RunsOff | libs/kpathsea/tex-glyph.c:242-250 | a list the search runs off |

## Left out

- Prompts with invisible characters and automatic margins: `update_line` and `rl_redisplay` are modelled without them, and laying the text out into lines is not modelled.
- Scroll.AllScrollsShow: the terminal, its width and the display mode stay the same between redisplays; a redisplay that finds the display unchanged and draws nothing is not modelled.
- Long options, the `W;` branch and the error messages of getopt; calls after -1 was returned.
- Getopt.PermuteRun: a flag in the option string never asks for PERMUTE, so its option string has none.
- DirSearch.DirListSearch: file access is a predicate on names; the growing of the name buffer is not modelled.
- Braces.ExpandWholeIff: is about patterns whose literals have no quotes, blanks, backslashes and `$`; BraceExpand covers all texts.
- VarExpand.Expander.VarExpand: the characters of names are those of ASCII; environment and configuration are finite maps; when a scan leaves its text nothing is said about the marks.
- Reading the configuration files, the file database with its aliases, symbolic links, `~` and path element expansion.
- Undo records with the special positions -1 and -2 and vi mode; freeing of memory everywhere.
- Kill.Killer.KillForward: where word and line motions lead is a parameter, as it is for KillBackward; setting the mark is not modelled.
- KeySyntax.UntranslateMacroValue: the character 128 is written with a NUL, which as a C string ends what is written; the model goes on.
- Keymap.FoundAfterBound: is about functions and macros; shared keymaps, conversion of meta keys and binding a keymap are not modelled.
- Keymap.Keymaps.FunctionOfKeyseq: looks up keys from 1 to 255; a key 0, which can be bound, ends a C string.
- Keymap.Keymaps.BindKeys: a keymap pointer is a place in a table of maps that only grows; releasing of maps is not modelled.
- Tokenizer.HistoryTokenizeInternal: has no comment character, as is the default; `history_find_word` passes an index it has not set, which is the parameter `ind0`.
- Hash.Table.HashOf: keys are 7-bit characters.
- Fallback.TryFallbackResolutions: sizes and dpi are below INT_MAX; the file search of one attempt is a set of available sizes.
- Strtol.Strtol: digit grouping and locales; the unsigned variant.
- History expansion other than tokenizing, completion, input files, signals, terminal set-up.
