# terminal_mints games, modelled in Dafny

terminal_mints is a set of small terminal word and puzzle games. This project models the game logic in Dafny and proves properties about it. The games covered are:

- Minesweeper;
- the anagram round builder, in its two variants: plain, and one with a blitz mode;
- Hangman;
- Wordle, including its row colouring.

Each source file maps to one module:

| module (file) | source file | form |
|---|---|---|
| `MinesweeperTiles` (`tiles.dfy`) | the `Tile` enum and its queries in `mints/src/minesweeper/utils.rs` | datatypes and functions |
| `MinesweeperBoard` (`board.dfy`) | the `Board` in `mints/src/minesweeper/utils.rs` | construction as methods with loops; the reveal as a recursive method on a `Board` class |
| `TextInput` (`text_input.dfy`) | the standard-library pieces the command line relies on: `split_ascii_whitespace` and `usize::from_str` | functions and lemmas |
| `Minesweeper` (`minesweeper.dfy`) | `mints/src/minesweeper/mod.rs` | the dispatch as functions; the game as a class |
| `AnagramParams` (`anagram_params.dfy`) | `mints_cli/src/anagrams/utils.rs` | functions plus the filling loop |
| `BlitzParams` (`blitz_params.dfy`) | `mints/src/anagrams/utils.rs` | reuses `AnagramParams` and adds the blitz branch |
| `Anagrams` (`anagrams.dfy`) | `mints_cli/src/anagrams/anagram.rs` | methods with loops, proved against ghost specifications |
| `Hangman` (`hangman.dfy`) | `mints_cli/src/hangman/mod.rs` | a class whose `DoLoop` updates the guess lists |
| `WordleDisplay` (`wordle_display.dfy`) | the colouring in `print_row` of `mints_cli/src/wordle/display.rs` | two loop methods proved against a recursive specification |
| `Wordle` (`wordle.dfy`) | `mints_cli/src/wordle/mod.rs` | a class whose methods update the guess map and the turn |
| `Common` (`common.dfy`) | shared pieces | see below |

`Common` holds:

- `Option`, `Difficulty` and the mutable `Args`;
- the game codes (ongoing, restart, over) as a datatype `GameCode`;
- the command table and the "Play again?" answer;
- ASCII case mapping;
- `str::contains`;
- the character-count map;
- the command test (a line starting with `!`) and the no-repeats predicate, shared by the games.

The model works at the source's level of detail:

- Randomness is passed in as parameters: the mine draws, the scramble picks and the shuffle draws.
- Input lines are parameters as well: `None` stands for end of input.
- The dictionary check is a predicate parameter.
- Coordinates are unbounded integers, so a step left of column 0 is the coordinate -1, which is off the board. This matches a build without overflow checks, where `0 - 1` on `usize` wraps to a huge index that `get` and the bounds test reject.

## Model

| member | source | states |
|---|---|---|
| MinesweeperTiles.Core | mints/src/minesweeper/utils.rs:18-24 | stripping the wrappers always reaches an empty cell or a mine |
| MinesweeperTiles.StarterTile | mints/src/minesweeper/utils.rs:190-192 | a fresh cell is a hidden empty cell with count 0; it is not a mine, it is empty, and `get_empty` gives 0 |
| MinesweeperTiles.IsMine | mints/src/minesweeper/utils.rs:194-202 | a tile reads as a mine only if its content is a mine; a visible tile or a bare empty cell never reads as a mine |
| MinesweeperTiles.IsVisible | mints/src/minesweeper/utils.rs:204-212 | a visible tile is never a mine; an invisible tile is a mine exactly when its content is |
| MinesweeperTiles.IsEmpty | mints/src/minesweeper/utils.rs:214-222 | a tile is empty exactly when its content, under every wrapper, is an empty cell |
| MinesweeperTiles.GetEmpty | mints/src/minesweeper/utils.rs:224-232 | gives none exactly for a mine, and otherwise the count stored in the content; agrees with `IsEmpty` |
| MinesweeperTiles.GetInner | mints/src/minesweeper/utils.rs:234-242 | unwrapping one layer keeps the content |
| MinesweeperTiles.PlacedQueries | mints/src/minesweeper/utils.rs:194-222 | on any tile the board holds: mine means hidden mine, empty means not a mine, and hidden-empty means neither visible nor a mine |
| MinesweeperBoard.Preset | mints/src/minesweeper/utils.rs:5-7 | every difficulty has at least one mine and at least one mine-free cell |
| MinesweeperBoard.Surrounding | mints/src/minesweeper/utils.rs:63-99 | the eight probes add up to the number of mines among the cell's eight neighbours, at most 8 |
| MinesweeperBoard.NeighbourCount | mints/src/minesweeper/utils.rs:66-96 | the sum of the eight on-board probes equals the size of the neighbouring-mine set |
| MinesweeperBoard.SameMinesSameCounts | mints/src/minesweeper/utils.rs:101-109 | two grids of the same shape whose tiles agree on being mines have the same mine set |
| MinesweeperBoard.SurroundingChecked | mints/src/minesweeper/utils.rs:70 | with overflow checks the probes panic on row 0 and column 0; anywhere else they give the true count |
| MinesweeperBoard.EdgeCountPanics | mints/src/minesweeper/utils.rs:78 | counting any cell in row 0 or column 0 of any grid panics with overflow checks, although the count there is well defined |
| MinesweeperBoard.StarterGrid | mints/src/minesweeper/utils.rs:112-119 | a `width × height` grid whose every cell is a hidden empty cell with count 0 |
| MinesweeperBoard.AssignMines | mints/src/minesweeper/utils.rs:43-60 | only hidden empty cells become hidden mines; the number placed is the growth of the mine set and is at most the mine count; every new mine is a drawn cell |
| MinesweeperBoard.PlacingDone | mints/src/minesweeper/utils.rs:46-59 | when the draws are used up early, every drawn cell is a mine; when the draws cover enough distinct free cells, exactly the mine count is placed |
| MinesweeperBoard.AssignSurrounding | mints/src/minesweeper/utils.rs:101-109 | the mines stay put and every empty cell is rewritten with its neighbouring-mine count |
| MinesweeperBoard.InitBoard | mints/src/minesweeper/utils.rs:42-125 | a consistent, all-hidden board whose mines are drawn cells; exactly the mine count of them once enough distinct cells were drawn |
| MinesweeperBoard.OpenedConsistent | mints/src/minesweeper/utils.rs:137-138 | turning hidden empty cells visible keeps the mines and every stored count correct |
| MinesweeperBoard.OpenedHidden | mints/src/minesweeper/utils.rs:137-138 | opening never adds a hidden cell |
| MinesweeperBoard.OpenedTrans | mints/src/minesweeper/utils.rs:137-145 | two openings in a row are one opening |
| MinesweeperBoard.ClosedTrans | mints/src/minesweeper/utils.rs:140-145 | the zero-count closure of two successive openings is the closure of their composition |
| MinesweeperBoard.OpenOne | mints/src/minesweeper/utils.rs:137-138 | opening one hidden empty cell keeps the board consistent and strictly shrinks the hidden set; for a non-zero count it is the whole reveal |
| MinesweeperBoard.ZeroCascade | mints/src/minesweeper/utils.rs:140-145 | opening a zero-count cell, then revealing its four orthogonal neighbours in order, is a full cascade from that cell |
| MinesweeperBoard.Unchanged | mints/src/minesweeper/utils.rs:128-135 | a reveal off the board, on a visible cell or on a mine changes nothing |
| MinesweeperBoard.CascadeHidden | mints/src/minesweeper/utils.rs:127-147 | a reveal never adds a hidden cell, which is the reveal's termination measure |
| MinesweeperBoard.CascadeTrans | mints/src/minesweeper/utils.rs:140-145 | a reveal after a closed opening leaves the composed opening closed |
| MinesweeperBoard.CloseCentre | mints/src/minesweeper/utils.rs:140-145 | once the four neighbours of the opened zero cell are settled, the whole opening is closed |
| MinesweeperBoard.OpenedCell | mints/src/minesweeper/utils.rs:137-138 | opening one hidden cell opens exactly that cell, keeping its content, and it is reached from itself |
| MinesweeperBoard.ConnectStep | mints/src/minesweeper/utils.rs:141-144 | a reveal started next to an opened zero cell opens only cells reached from that zero cell |
| MinesweeperBoard.ZeroConnected | mints/src/minesweeper/utils.rs:137-145 | every cell a zero-count reveal opens, through its four recursive calls, is reached from the start through opened zero-count cells |
| MinesweeperBoard.TrailLift | mints/src/minesweeper/utils.rs:141-144 | a chain of opened cells of one recursive call is still such a chain for the whole reveal |
| MinesweeperBoard.ReachLift | mints/src/minesweeper/utils.rs:141-144 | a cell reached from a neighbour of an opened zero cell is reached from that zero cell |
| MinesweeperBoard.TrailOpens | mints/src/minesweeper/utils.rs:140-145 | along a chain of one cascade, every cell is opened by any closed opening that opens the chain's first cell |
| MinesweeperBoard.CascadeCovers | mints/src/minesweeper/utils.rs:127-147 | every cell one cascade from a cell opens, every other cascade from that cell opens too |
| MinesweeperBoard.CascadeUnique | mints/src/minesweeper/utils.rs:127-147 | two cascades from the same cell on the same grid leave the same grid, so the reveal's contract fixes its result |
| MinesweeperBoard.Board.constructor | mints/src/minesweeper/utils.rs:27-40 | a new board has the preset's size and mine count, is consistent and all hidden, and its mines are drawn cells |
| MinesweeperBoard.Board.CheckMine | mints/src/minesweeper/utils.rs:149-151 | true exactly when the on-board cell is a hidden mine, that is, when it is in the mine set |
| MinesweeperBoard.Board.RevealAdjacent | mints/src/minesweeper/utils.rs:127-147 | keeps the board consistent; only opens hidden empty cells, keeping their contents; leaves the board alone off the board, on a visible cell or on a mine; on a non-zero count opens that cell alone; afterwards the cell is open; every opened zero-count cell has no hidden empty cell among its four orthogonal neighbours; and every opened cell is reached from the start through opened zero-count cells, which by `CascadeUnique` fixes the new board |
| TextInput.Word | mints/src/minesweeper/mod.rs:83 | the longest whitespace-free prefix |
| TextInput.Tokens | mints/src/minesweeper/mod.rs:83 | every piece is a non-empty run of non-whitespace characters |
| TextInput.NoTokens | mints/src/minesweeper/mod.rs:84 | a line has no first token exactly when it is empty or all whitespace |
| TextInput.TokensOfJoin | mints/src/minesweeper/mod.rs:83 | splitting tokens joined by spaces gives back the same tokens |
| TextInput.ParseUsize | mints/src/minesweeper/mod.rs:76-77 | succeeds exactly on an optional `+` followed by at least one digit, with a value that fits in 64 bits |
| TextInput.DecimalValue | mints/src/minesweeper/mod.rs:76-77 | the value of the numeral of n is n |
| TextInput.ParseDecimal | mints/src/minesweeper/mod.rs:76-77 | the numeral of any 64-bit value parses back to that value, with or without `+` |
| TextInput.ParseRejects | mints/src/minesweeper/mod.rs:76-77 | a negative numeral, or one past 64 bits, is rejected |
| Minesweeper.ParseArgs | mints/src/minesweeper/mod.rs:58-62 | a missing difficulty becomes Easy and a given one is kept; the other arguments are untouched |
| Minesweeper.DefaultDifficulty | mints/src/minesweeper/mod.rs:58-62 | the given difficulty, else Easy |
| Minesweeper.ParseNext | mints/src/minesweeper/mod.rs:65-73 | succeeds exactly when `expected` tokens remain, and then gives them in order |
| Minesweeper.ParseCoords | mints/src/minesweeper/mod.rs:75-81 | an unparsable token is an error; a parsed 0 is the `usize` underflow; otherwise both coordinates drop by one |
| Minesweeper.ParseCoordsOfNumerals | mints/src/minesweeper/mod.rs:75-81 | typing the 1-based numerals of a cell yields its 0-based coordinates |
| Minesweeper.Decide | mints/src/minesweeper/mod.rs:83-136 | the handler as written: whenever it probes, the cell is on the board |
| Minesweeper.DecideFixed | mints/src/minesweeper/mod.rs:83-136 | the intended handler: whenever it probes, the cell is on the board |
| Minesweeper.FixedAgrees | mints/src/minesweeper/mod.rs:83-136 | wherever the handler as written does not panic, the intended handler does the same |
| Minesweeper.FixedCrashes | mints/src/minesweeper/mod.rs:103-136 | the intended handler panics exactly on the flag commands; quit gives over, restart gives restart, and a blank line carries on |
| Minesweeper.MalformedCheck | mints/src/minesweeper/mod.rs:86-99 | `!check` with too few arguments, or with a non-number argument, carries on in both handlers |
| Minesweeper.CheckProbes | mints/src/minesweeper/mod.rs:85-101 | `!c x y` typed with the 1-based numerals of an on-board cell probes exactly that cell |
| Minesweeper.BlankLineCrashes | mints/src/minesweeper/mod.rs:84 | a blank line makes the handler as written panic; the intended one carries on |
| Minesweeper.ZeroCoordinateCrashes | mints/src/minesweeper/mod.rs:80 | `!c 0 1` and a column past the board make the handler as written panic; the intended one carries on |
| Minesweeper.NumeralCommand | mints/src/minesweeper/mod.rs:83-84 | `!c a b` splits into the command and the two numerals |
| Minesweeper.Minesweeper.constructor | mints/src/minesweeper/mod.rs:20-28 | the difficulty defaults to Easy; the board is new, all hidden and has the preset's size; the turn starts at 0 |
| Minesweeper.Minesweeper.Check | mints/src/minesweeper/mod.rs:140-152 | on a mine: game over, nothing revealed; otherwise play goes on and the board is the cascade from the cell, unique by `CascadeUnique` |
| Minesweeper.Minesweeper.HandleCommands | mints/src/minesweeper/mod.rs:64-138 | follows the intended dispatch: it panics exactly when that does; answers leave the board alone; a probe ends the game on a mine and cascades otherwise |
| Minesweeper.Minesweeper.DoLoop | mints/src/minesweeper/mod.rs:35-49 | end of input is game over with nothing changed; otherwise it panics exactly when the intended dispatch does; answers leave the board alone; a probe ends the game on a mine and cascades from the cell otherwise; a returned code advances the turn by one |
| AnagramParams.Range | mints_cli/src/anagrams/utils.rs:16-20 | every length range lies within 4..8; it spans three lengths, or four on Hard |
| AnagramParams.Table | mints_cli/src/anagrams/utils.rs:23-29 | the fixed table asks for Easy words exactly at lengths 4..6, Medium at 5..7 and Hard at 5..8, matching each difficulty's range |
| AnagramParams.EntryMin | mints_cli/src/anagrams/utils.rs:41-48 | the entry for Easy, Medium or Hard, matching the difficulty; the length must be in the map (the `expect`) |
| AnagramParams.FillEntries | mints_cli/src/anagrams/utils.rs:22-32 | the map has exactly the lengths of the range, each with its row of the fixed table |
| AnagramParams.New | mints_cli/src/anagrams/utils.rs:13-39 | the range and difficulty of the tier, and a table entry for exactly the lengths of that range |
| AnagramParams.StandardMinimums | mints_cli/src/anagrams/utils.rs:22-32 | in a standard round every length has a positive minimum, and a longer length needs strictly fewer words |
| AnagramParams.StandardCovers | mints_cli/src/anagrams/utils.rs:22-32 | a standard round has an entry for every length of its range |
| AnagramParams.OutsideRange | mints_cli/src/anagrams/utils.rs:42 | a length outside the range has no entry, so asking for its minimum is the `expect` failure |
| BlitzParams.AsUsize | mints/src/anagrams/utils.rs:18-19 | `i32 as usize`: below 2^64, congruent to the input modulo 2^64, and equal to it when non-negative |
| BlitzParams.NewBlitz | mints/src/anagrams/utils.rs:13-51 | with both numbers given: the single length given, on Easy, requiring the given count; otherwise the standard parameters of the difficulty |
| BlitzParams.BlitzMinimum | mints/src/anagrams/utils.rs:17-25 | a blitz round has one length, whose minimum is the given guess count, itself when non-negative |
| Anagrams.Insert | mints_cli/src/anagrams/anagram.rs:19-20 | inserting into a sorted string keeps it sorted and adds exactly the one letter |
| Anagrams.Sort | mints_cli/src/anagrams/anagram.rs:19-23 | a sorted arrangement of the same letters |
| Anagrams.SortedUnique | mints_cli/src/anagrams/anagram.rs:19-24 | two sorted strings with the same letters are equal, so the key identifies the bag of letters |
| Anagrams.SameLettersSameKey | mints_cli/src/anagrams/anagram.rs:19-24 | two words with the same letters get the same key |
| Anagrams.ScrambleKeys | mints_cli/src/anagrams/anagram.rs:16-28 | the keys of the list in order of first appearance: each key once, and a string is a key exactly when it is the sorted form of some listed word of the given length |
| Anagrams.KeysMeaning | mints_cli/src/anagrams/anagram.rs:16-26 | the key list has no repeats, and holds exactly the sorted forms of the listed words of the given length |
| Anagrams.KeyShape | mints_cli/src/anagrams/anagram.rs:16-26 | a key is sorted and has the given length; any arrangement of its letters sorts back to it |
| Anagrams.Filed | mints_cli/src/anagrams/anagram.rs:97-100 | each filed word has the length, is spelled by the letters, and is listed |
| Anagrams.FiledComplete | mints_cli/src/anagrams/anagram.rs:79-101 | every listed word the letters spell is filed under its own length |
| Anagrams.GroupStep | mints_cli/src/anagrams/anagram.rs:97-100 | filing one more word keeps the map in step with the filter over the longer prefix |
| Anagrams.WordMap | mints_cli/src/anagrams/anagram.rs:68-104 | the map built directly from the list is grouped: each length present maps to the listed words of that length the letters spell, in list order |
| Anagrams.GroupedUnique | mints_cli/src/anagrams/anagram.rs:68-104 | a grouped map is the word map, so the grouping fixes the result of `words_from_scramble` |
| Anagrams.GroupedNonEmpty | mints_cli/src/anagrams/anagram.rs:98 | a length present in the map has at least one word |
| Anagrams.CanSpell | mints_cli/src/anagrams/anagram.rs:80-95 | true exactly when the word uses no letter more often than the counts hold |
| Anagrams.WordsFromScramble | mints_cli/src/anagrams/anagram.rs:68-104 | every length present maps to the listed words of that length the scramble spells, in list order, and every such length is present |
| Anagrams.ValidAnagrams | mints_cli/src/anagrams/anagram.rs:106-121 | true exactly when every length of the range is present with at least its minimum number of words; true only when no length of the range is missing |
| Anagrams.MissingRejects | mints_cli/src/anagrams/anagram.rs:107-111 | a length of the range missing from the map rejects the round |
| Anagrams.ShortRejects | mints_cli/src/anagrams/anagram.rs:113-117 | a length of the range with fewer words than its minimum rejects the round |
| Anagrams.NoneShort | mints_cli/src/anagrams/anagram.rs:106-121 | every length of the range present and none short: the round is accepted |
| Anagrams.OutOfRangeIgnored | mints_cli/src/anagrams/anagram.rs:113-114 | the words under a length outside the range do not affect acceptance |
| Anagrams.ValidWord | mints_cli/src/anagrams/anagram.rs:123-128 | a valid word is listed under its own length |
| Anagrams.ValidWordMeaning | mints_cli/src/anagrams/anagram.rs:123-128 | in a round built from a list, a word is valid exactly when it is listed and spelled by the scramble's letters |
| Anagrams.Shuffle | mints_cli/src/anagrams/anagram.rs:63 | the shuffled scramble has exactly the same letters |
| Anagrams.New | mints_cli/src/anagrams/anagram.rs:15-66 | no round when no word has the size; a round is made from the first pick whose key passes the acceptance test: its scramble sorts to that key, a key of the list, and its words are the word map of the scramble, which is accepted; no round means no pick passes |
| Anagrams.MadeRound | mints_cli/src/anagrams/anagram.rs:35-66 | the first passing pick makes a round with the shuffled key and its word map, and the list has a word of the size |
| Anagrams.NoKeyNoWord | mints_cli/src/anagrams/anagram.rs:28-32 | an empty key list means no listed word has the size, the case where the pick's `expect` fails |
| Hangman.Letters | mints_cli/src/hangman/mod.rs:195-196 | the set of letters occurring in the string |
| Hangman.DistinctCount | mints_cli/src/hangman/mod.rs:86 | a list without repeats has as many distinct letters as entries |
| Hangman.Hangman.constructor | mints_cli/src/hangman/mod.rs:38-56 | turn 0, no guesses, the given answer |
| Hangman.Hangman.CheckWin | mints_cli/src/hangman/mod.rs:194-199 | won exactly when the answer's letters and the correct guesses are the same set |
| Hangman.Hangman.Disjoint | mints_cli/src/hangman/mod.rs:91-95 | a letter is never both correct and incorrect |
| Hangman.Hangman.WinMeansAllGuessed | mints_cli/src/hangman/mod.rs:194-199 | won exactly when every letter of the answer was guessed; there are never more correct guesses than distinct answer letters |
| Hangman.Hangman.DoLoop | mints_cli/src/hangman/mod.rs:64-118 | end of input is over; a command goes to the command table; a line that is not one new letter changes nothing; a new letter joins exactly the list its membership in the answer picks; a win or the seventh miss asks "Play again?", otherwise the turn advances |
| Common.CommandCode | mints_cli/src/hangman/mod.rs:201-228 | over exactly on the quit aliases, restart exactly on the restart aliases, ongoing for hint and unknown commands |
| Common.PlayAgain | mints_cli/src/hangman/mod.rs:107-114 | never ongoing; restart exactly on the reply `Y` or `y` |
| Common.AsciiUpper | mints_cli/src/hangman/mod.rs:67 | the same length, with each character upper-cased if it is an ASCII lower-case letter |
| Common.AsciiLower | mints_cli/src/hangman/mod.rs:74 | the same length, with each character lower-cased if it is an ASCII upper-case letter |
| Common.ContainsSameLength | mints_cli/src/wordle/mod.rs:83-86 | between strings of equal length, containment is equality |
| Common.CountChars | mints_cli/src/anagrams/anagram.rs:72-75 | each character's count is its number of occurrences, and exactly the occurring characters are keys |
| WordleDisplay.Colouring | mints_cli/src/wordle/display.rs:95-103 | one mark per letter of the guess; `MarkRule` states the rule each mark follows |
| WordleDisplay.Marks | mints_cli/src/wordle/display.rs:95-103 | one mark per letter of the prefix |
| WordleDisplay.GreenFits | mints_cli/src/wordle/display.rs:87-92 | the greens never use more copies of a letter than the answer has |
| WordleDisplay.GreenBound | mints_cli/src/wordle/display.rs:87-92 | the greens among the first n letters use at most the copies in the answer's first n positions |
| WordleDisplay.MarkGreens | mints_cli/src/wordle/display.rs:77-92 | a letter is flagged exactly when it matches the answer there; each count is the answer's copies minus the greens |
| WordleDisplay.PaintRow | mints_cli/src/wordle/display.rs:77-103 | the marks printed are the colouring of the row |
| WordleDisplay.MarksPrefix | mints_cli/src/wordle/display.rs:95-103 | marking is left to right, so later letters never change earlier marks |
| WordleDisplay.MarkRule | mints_cli/src/wordle/display.rs:95-103 | green exactly on a position match; yellow exactly when not green and a copy is left after the greens and earlier yellows |
| WordleDisplay.GreenTally | mints_cli/src/wordle/display.rs:96-97 | the green marks are exactly the position matches |
| WordleDisplay.RemainingNonNegative | mints_cli/src/wordle/display.rs:98-100 | the remaining count never drops below zero |
| WordleDisplay.ClaimsBounded | mints_cli/src/wordle/display.rs:95-103 | for every letter, greens plus yellows never exceed the answer's copies |
| WordleDisplay.AllGreen | mints_cli/src/wordle/display.rs:84-92 | for a guess as long as the answer, the row is all green exactly when the guess is the answer |
| Wordle.ParseArgs | mints_cli/src/wordle/mod.rs:116-134 | the guess count and length are corrected into range or set to the default; a missing difficulty becomes Easy |
| Wordle.ClampGuesses | mints_cli/src/wordle/mod.rs:117-122 | always 3..9: a given value in range is kept, anything else becomes 6 |
| Wordle.ClampLetters | mints_cli/src/wordle/mod.rs:124-129 | always 4..8: a given value in range is kept, anything else becomes 5 |
| Wordle.ClampIdempotent | mints_cli/src/wordle/mod.rs:116-129 | correcting a corrected value changes nothing |
| Wordle.EmptyGuesses | mints_cli/src/wordle/mod.rs:38-41 | keys exactly 0..n-1, each without a guess |
| Wordle.Wordle.constructor | mints_cli/src/wordle/mod.rs:34-53 | corrected limits, turn 0, one empty slot per guess |
| Wordle.Wordle.Guess | mints_cli/src/wordle/mod.rs:136-147 | records the guess at the current turn and advances it; victory if the answer contains the guess, failure on the last turn, otherwise the board |
| Wordle.AlreadyGuessed | mints_cli/src/wordle/mod.rs:83-87 | true only if some recorded guess is at least as long; true whenever the guess itself was recorded |
| Wordle.Wordle.AlreadyMeansRecorded | mints_cli/src/wordle/mod.rs:83-87 | for a guess of the game's length, the containment test is the same as the guess having been recorded |
| Wordle.Wordle.DoLoop | mints_cli/src/wordle/mod.rs:62-107 | end of input is over; a command goes to the command table; a wrong-length, unknown or repeated guess changes nothing; otherwise the guess is recorded and the round asks "Play again?" on a win or the last turn; the turn stays below the limit while play goes on |

## Left out

- Terminal output is not part of this model: the board, gallows and row display, colours, cursor control, the loading screens, the countdowns and sleeps, the timer, and terminal-size padding. The colouring the Wordle row prints is modelled, and how it is drawn is not.
- Input is not read. Each loop step takes the line it would read, and the "Play again?" reply, as parameters. A failed read (`unwrap` on an I/O error) is not modelled.
- Randomness is not generated. Mine positions, the scramble choice and the letter shuffle come from parameter sequences. The random answer word, `choose_random_word`, is not modelled: the answer is a constructor parameter.
- The word lists, `load_word_list`, `word_exists`, `hint` and `define` belong to the shared library and are not part of this model. `word_exists` is the `isWord` parameter.
- `mints_lib/src/lib.rs` has its game codes, `Game` trait and `Args` commented out. The codes are modelled as the datatype `GameCode` and `Args` as a small class. The outer driver in `main.rs` and `anagrams/mod.rs` is not part of this model, and neither is the anagram display.
- MinesweeperBoard.AssignMines: the source redraws until every mine is placed. The model consumes a finite sequence of draws, so when the draws are used up it places fewer mines. `PlacingDone` states when the full count is reached.
- Anagrams.New: the source retries random keys forever until one passes. The model tries the finite `picks` and gives no round when they are used up. A list with no word of the size, where the source's `expect` panics, also gives no round.
- Anagrams.ScrambleKeys: the source collects keys in a `HashSet` and then picks one at random. The model keeps them in order of first appearance, each once, and the pick indexes that list.
- Anagrams.WordsFromScramble: the source splits the list with `split_whitespace`, which also splits at non-ASCII whitespace. The model uses the ASCII splitting of the key pass for both.
- WordleDisplay.MarkGreens: the source decrements an `i32` counter that never goes negative here (`GreenFits`). The model keeps the counts as naturals.
- Strings are sequences of characters, and `len()` is taken to count characters. This agrees with Rust's byte length for the ASCII words the games use, but not for other text.
- Minesweeper.Minesweeper.DoLoop: the turn counters are unbounded integers. The source's `i32` would overflow only after 2^31 turns.
- MinesweeperBoard.Board.RevealAdjacent: it follows a build without overflow checks, where `x - 1` and `y - 1` at column or row 0 (`utils.rs:142`, `:144`) wrap and are rejected by the bounds test. With overflow checks, revealing a zero-count cell on the edge panics there, as described for `get_surrounding` under Findings.
- The reveal cascades to the four orthogonal neighbours, as the code does, while the count looks at all eight. The model keeps that difference.
- The flag commands are `todo!()` in the source, so the model treats them as a panic and the `Flag` tile is never created. `!cheat` only redraws the board, so it is modelled as carrying on.
- `usize` is taken to be 64 bits wide, for `usize::from_str` and for `i32 as usize`.
- The obsolete scramble generators below `valid_word` in `anagram.rs` are unused and not modelled.

## Findings

| source | as written | input that shows it | evidently intended | confidence | as-written member | corrected member |
|---|---|---|---|---|---|---|
| mints/src/minesweeper/mod.rs:84 | `split.nth(0).unwrap()` on the first token | an empty or all-whitespace line | an empty line is ignored like other malformed commands | not executed | Minesweeper.BlankLineCrashes | Minesweeper.DecideFixed |
| mints/src/minesweeper/mod.rs:80 | `x - 1` on a parsed `usize`, and an unchecked `board[x][y]` in `check_mine` | `!c 0 1`, or `!c 10 1` on the 9-column board | a coordinate outside 1..width or 1..height is refused like an unparsable one | not executed | Minesweeper.ZeroCoordinateCrashes | Minesweeper.DecideFixed |
| mints/src/minesweeper/utils.rs:70 | `x - 1` and `y - 1` on `usize` in `get_surrounding` (lines 70, 78, 86, 94) | any non-mine cell in row 0 or column 0 while the board is built, in a build with overflow checks (the debug default) | an off-board neighbour counts as no mine, as `get` does for the right and bottom edges | not executed; only with overflow checks on | MinesweeperBoard.EdgeCountPanics | MinesweeperBoard.Surrounding |
