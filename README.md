# Word search: board engine and answer checker

This project models the grid engine of a console word-search game (`WordSearch.java`).

**The object.** A `WordSearch` holds three things:
- a fixed list of words;
- a square `char` board indexed `[y][x]`;
- the list of words found so far.

**The generator.**
1. It scrambles a copy of the word list.
2. It builds an empty board of a given side.
3. It places the words one after another. Each word gets up to 1000 random attempts; an attempt is an anchor cell plus one of the eight directions.
4. If a word cannot be placed, it starts again on a board one larger.
5. Once every word is placed, it pads every empty cell with a letter drawn from a weighted filler alphabet.

**The answer checker.**
1. It walks from one endpoint to the other, moving each coordinate by the sign of its remaining distance.
2. It lower-cases the letters it reads.
3. It looks for the first listed word equal to those letters or to their reverse.
4. On a match, it upper-cases the walked cells and appends the word to the found words.

**Rendering.** Small string functions render a board row, the whole board, the board with row and column labels, and the word list with found marks. One function turns a board side into a difficulty label, and another decodes a typed pair of letters into a column and a row.

**Layout of the model.**
- Modules `Grid`, `Answer`, `Scramble` and `Render` state everything on values. A board is a `seq<seq<char>>`.
- Module `Puzzle` holds the class `WordSearch`, with an `array2<char>` board and a `seq<string>` list of found words. The methods that change the board or the found words (`InitBoard`, `WriteRun`, `ScanDirections`, `PlaceWord`, `PlaceAll`, `FillEmpty`, `Generate`, `GenerateFromLongest`, `UppercasePath`, `Capitalize`, `Answer`) update these in place. The queries `IsValid`, `IsEmpty`, `CheckRun`, `SpellPath` and `MatchWord`, and `GetScrambled`, which returns a new list, change nothing. Each method is proved against the value-level function through `Cells()`, the board's contents as a value.
- Random draws are parameters with range preconditions:
  - an `Attempt` carries the four draws of one placement attempt;
  - one swap draw per word;
  - one filler pick per cell;
  - a `Round` gathers the draws of one generator level.

**Where the code does something other than its names and doc comments suggest, the model follows the code:**
- **Scrambling is not a Fisher–Yates shuffle.** `getScrambled` (WordSearch.java:83-93) swaps the last slot with a drawn slot at every step. The result is always a permutation (`ScrambledPermutes`), but not a uniform one.
- **Each attempt tests only one direction.** The attempt's flag is raised once, before the 3x3 direction scan. A failed check lowers it, and nothing raises it again. So only the first non-centre direction of the scan can succeed (`FirstDirection`, `ScanDirections`).
- **A word found twice is appended twice.** An accepted answer appends the word to the found words with no duplicate check. Answering the same endpoints again appends the word again (`Answer`, `AnswerRepeat`).
- **Every retry re-scrambles.** A retry on a larger board draws a new scramble, so the word that failed can change between levels (`Generate`).
- **1000 tries, not 100.** The doc comment of `placeWord` speaks of 100 tries, but the loop makes 1000 (`ATTEMPTS`).

## Model

| member | source | states |
|---|---|---|
| Puzzle.WordSearch.constructor | WordSearch.java:34-38 | keeps the given word list and starts with no found words; the board is an empty 0x0 grid |
| Puzzle.WordSearch.Cells | WordSearch.java:26 | the board array read as rows of cells, square whenever the array is |
| Puzzle.Contents | WordSearch.java:26 | a character grid as rows: same dimensions, and each cell equals the array element at [y, x] |
| Puzzle.WordSearch.IsValid | WordSearch.java:181-187 | true exactly when the board has a row 0, 0 <= x < the length of row 0, and 0 <= y < the number of rows |
| Puzzle.WordSearch.IsEmpty | WordSearch.java:195-197 | true exactly when the cell is valid and holds the empty marker ' ' |
| Puzzle.WordSearch.InitBoard | WordSearch.java:167-174 | a fresh n x n board with every cell ' '; the found words are unchanged |
| Grid.Blank | WordSearch.java:167-174 | the blank board is square, of side n, and every cell is an empty in-bounds cell |
| Grid.FirstDirection | WordSearch.java:128-135 | the direction an attempt tests is a unit step other than (0, 0): the scan's first position, or the next one when the first is the centre |
| Grid.ScanReachesFirst | WordSearch.java:126-135 | before any direction is tested, the scan position met is either the centre (only at t = 0) or the effective direction |
| Grid.EveryDirectionReachable | WordSearch.java:124-131 | each of the eight directions is the effective one for some pair of draws in 0..9 |
| Grid.ScanDirection | WordSearch.java:130-131 | a scan position gives a step of -1, 0 or 1 along each axis |
| Grid.Fits | WordSearch.java:136-144 | the empty word always fits; a fitting run starts and ends on empty in-bounds cells |
| Grid.Written | WordSearch.java:145-152 | writing a run keeps the board's dimensions |
| Puzzle.WordSearch.CheckRun | WordSearch.java:136-144 | the result is true exactly when every cell of the run is in bounds and empty |
| Puzzle.WordSearch.WriteRun | WordSearch.java:145-152 | the new board is the old one with the word's letters written along the run, and no other cell changed |
| Grid.WrittenPlaces | WordSearch.java:145-152 | writing a word where it fits leaves it spelled along the run and overwrites no letter |
| Grid.FitsNeedsRoom | WordSearch.java:136-144 | a non-empty word whose run fits is no longer than the board's side |
| Puzzle.WordSearch.ScanDirections | WordSearch.java:126-156 | one attempt succeeds exactly when the word fits along its first non-centre direction, and then writes it there; a failed attempt leaves the board unchanged |
| Puzzle.WordSearch.PlaceWord | WordSearch.java:118-161 | the result and the new board are those of the first of the 1000 attempts whose run fits; the board is unchanged when none fits |
| Grid.Place | WordSearch.java:118-161 | the board after an attempt sequence is square and of the same side |
| Grid.PlaceSound | WordSearch.java:118-161 | on success the word appears on a straight in-bounds run and every earlier letter is kept; on failure the board is returned unchanged |
| Grid.PlaceTooLong | WordSearch.java:118-161 | a word longer than the board's side is never placed and leaves the board unchanged |
| Grid.PlaceEmptyWord | WordSearch.java:126-152 | the empty word is placed by the first attempt |
| Puzzle.WordSearch.PlaceAll | WordSearch.java:102-108 | places the words in order and stops at the first failure; the result and the board match the value-level fold of placements |
| Grid.PlaceEach | WordSearch.java:102-108 | the board stays square and of the same side through the word-by-word placement |
| Grid.PlaceEachSound | WordSearch.java:102-108 | no placement overwrites a letter; when all words are placed, every word free of ' ' appears on the board |
| Grid.AppearsKept | WordSearch.java:102-109 | a word without ' ' keeps appearing on any later board that keeps every letter |
| Puzzle.WordSearch.FillEmpty | WordSearch.java:228-237 | every empty cell receives the filler letter its pick selects; every other cell is unchanged |
| Grid.FillCell | WordSearch.java:231-234 | a padded cell is never ' ', and a cell that held a letter keeps it |
| Grid.Filled | WordSearch.java:228-237 | padding keeps the board square and of the same side |
| Grid.FilledComplete | WordSearch.java:228-237 | after padding no cell is ' ', every letter already there is kept, and each cell that was empty holds a filler letter |
| Grid.FillerHasNoSpace | WordSearch.java:20 | the filler alphabet contains no ' ' |
| Puzzle.WordSearch.GetScrambled | WordSearch.java:83-93 | the copy is the word list after one swap with the last slot per draw; it holds the same words, each as often |
| Scramble.SwapLast | WordSearch.java:88-90 | one swap with the last slot keeps the length |
| Scramble.SwapLastPermutes | WordSearch.java:88-90 | one swap with the last slot keeps the same multiset of words |
| Scramble.Scrambled | WordSearch.java:86-91 | the scrambled list has the length of the word list |
| Scramble.ScrambledStep | WordSearch.java:86-91 | each additional swap keeps the multiset of words |
| Scramble.ScrambledPermutes | WordSearch.java:83-93 | the scrambled list is a permutation of the word list |
| Puzzle.WordSearch.Generate | WordSearch.java:98-110 | the result and the new board are those of `Levels`: true exactly when some supplied level places every word, and then the board has the side of the first such level, no cell is ' ' and every listed word without ' ' appears on a straight run; the found words are unchanged |
| Puzzle.Level | WordSearch.java:99-108 | one level scrambles the words and places them in turn on a blank board of the level's side; the board keeps that side |
| Puzzle.Levels | WordSearch.java:98-110 | the first level that places every word is padded with filler letters, a failed level hands over to the next one a side larger; the side lies between the requested one and the last supplied level |
| Puzzle.LevelsFirstFit | WordSearch.java:102-109 | generation succeeds exactly when some supplied level places every word, and its board then has the side of the first such level |
| Puzzle.LevelsSound | WordSearch.java:98-110 | after a successful generation no cell is ' ' and every word without ' ' appears on a straight run |
| Puzzle.RoundsFromRest | WordSearch.java:105 | the draws left after one level serve the next level, one side larger |
| Puzzle.WordSearch.GenerateFromLongest | WordSearch.java:202-210 | the result and the new board are those of `Levels` started at the longest word's length: true exactly when some supplied level places every word, the side then that of the first such level; every word fits within the side, and on success no cell is ' ' and every word without ' ' appears |
| Puzzle.Longest | WordSearch.java:203-208 | -1 exactly for no words; otherwise the length of some word and no less than any word's length |
| Answer.Path | WordSearch.java:342-349 | the walk has one cell more than the larger of the two coordinate distances and runs from (x1, y1) to (x2, y2) |
| Answer.PathInBox | WordSearch.java:344-348 | every cell of the walk lies within the endpoints' bounding box |
| Answer.PathOnBoard | WordSearch.java:338-349 | the walk between two valid cells never leaves the board |
| Answer.PathIsStraight | WordSearch.java:344-348 | between aligned endpoints, cell i of the walk is i unit steps from the start in a single direction |
| Answer.PathSuffix | WordSearch.java:344-349 | the walk from any of its cells is the rest of the walk |
| Answer.PathStep | WordSearch.java:344-349 | each next cell is one sign step from the previous one, and the target is reached only at the last cell |
| Answer.WalkOn | WordSearch.java:344-348 | a cell of the walk other than the target is followed by its sign step |
| Answer.WalkEnds | WordSearch.java:344-349 | the walk meets its target only at its last cell |
| Answer.AlignedStep | WordSearch.java:346-347 | one sign step between aligned endpoints keeps them aligned, shortens the distance by one, and keeps the direction |
| Answer.PathMirrorAt | WordSearch.java:342-349 | between aligned endpoints, cell i of the walk back is cell d - i of the walk there, d being the common distance |
| Answer.PathReversed | WordSearch.java:342-349 | swapping aligned endpoints walks the same cells in reverse order |
| Answer.Sign | WordSearch.java:346-347 | the step along one axis: 1, -1 or 0 as the remaining distance is positive, negative or zero |
| Answer.SpellOf | WordSearch.java:341-349 | the letters read along a walk, one per cell |
| Answer.LowerChar | WordSearch.java:350 | lower-casing leaves no capital A to Z and keeps every other character |
| Answer.Lower | WordSearch.java:350 | the lower-cased letters keep their number |
| Puzzle.WordSearch.SpellPath | WordSearch.java:341-349 | the letters read are those of the walk's cells, in walking order |
| Puzzle.Reversed | WordSearch.java:353-356 | the string built from the last character to the first is the reverse of the letters |
| Answer.Found | WordSearch.java:352-357 | no match exactly when no word equals the letters or their reverse; otherwise the first such word in list order |
| Puzzle.WordSearch.MatchWord | WordSearch.java:352-357 | the loop over the words returns the first word matching forwards or reversed, or none |
| Answer.FoundReversed | WordSearch.java:353-357 | matching the reversed letters finds the same word as matching the letters |
| Answer.UpperChar | WordSearch.java:361 | the upper case of a to z, every other character kept |
| Answer.UpperCell | WordSearch.java:361 | upper-casing one cell keeps the number of rows |
| Answer.UpperPath | WordSearch.java:358-365 | upper-casing a walk keeps the number of rows |
| Answer.UpperPathSnoc | WordSearch.java:358-365 | upper-casing one more cell of the walk is upper-casing that cell of the board |
| Answer.UpperAlong | WordSearch.java:358-365 | upper-casing cell after cell keeps the board's dimensions |
| Answer.UpperAlongIsUpperPath | WordSearch.java:358-365 | upper-casing the walk cell after cell gives the board with exactly the walk's cells upper-cased |
| Puzzle.WordSearch.UppercasePath | WordSearch.java:358-365 | the new board has exactly the walk's cells upper-cased |
| Puzzle.WordSearch.Capitalize | WordSearch.java:361 | exactly the one cell is upper-cased |
| Answer.UpperPathShape | WordSearch.java:358-365 | upper-casing keeps the board square and keeps which cells are valid |
| Answer.UpperPathIdempotent | WordSearch.java:358-365 | upper-casing the same walk twice changes nothing the second time |
| Answer.UpperPathSameCells | WordSearch.java:358-365 | upper-casing depends only on which cells the walk visits |
| Answer.SpellUpper | WordSearch.java:350-365 | the lower-cased letters of the walk are the same after it is upper-cased |
| Answer.SpellReversed | WordSearch.java:341-356 | reading the reversed walk gives the reversed lower-cased letters |
| Puzzle.WordSearch.Answer | WordSearch.java:337-371 | true exactly when both endpoints are valid and the lower-cased walk matches a word; the walk is then upper-cased and that first matching word appended, even if already found; otherwise neither the board nor the found words change |
| Answer.AnswerMatch | WordSearch.java:337-357 | an accepted answer has both endpoints valid and is one of the listed words |
| Answer.AnswerSymmetric | WordSearch.java:337-368 | for aligned endpoints, swapping them accepts the same word and upper-cases the same cells |
| Answer.AnswerRepeat | WordSearch.java:337-368 | after an accepted answer the same endpoints are accepted again with the same word, and the board does not change again |
| Render.RowOf | WordSearch.java:243-249 | a printed row has two characters per cell |
| Render.RowOfLayout | WordSearch.java:243-249 | cell k is printed at position 2k and followed by a space |
| Render.Render | WordSearch.java:217-223 | a square board prints as one line of 2n + 1 characters per row |
| Render.RowsLength | WordSearch.java:217-223 | n printed lines of a square board take n times the line length |
| Render.RowsPrefix | WordSearch.java:217-223 | the first m lines are a prefix of the first n |
| Render.RowsLayout | WordSearch.java:217-223 | line y of the printed board follows the first y lines |
| Render.RenderedLine | WordSearch.java:217-223 | the unlabelled board has one line per row; line y, the row's cells and a newline, starts y line lengths in |
| Render.Header | WordSearch.java:256-261 | the label line has 2n + 1 characters and ends on the last column label once the trailing '_' is cut |
| Render.Labeled | WordSearch.java:255-266 | a square board prints as the label line, its newline, and one line of 2n + 3 characters per row |
| Render.LabelRun | WordSearch.java:256-259 | the label line starts with two spaces, then each column label followed by '_' |
| Render.HeaderLayout | WordSearch.java:256-261 | after the last '_' is cut, the label line has 2n + 1 characters with column label i at 2 + 2i |
| Render.LabeledLine | WordSearch.java:255-266 | in the labelled board, row y's label, a bar, the row's cells and a newline start after the label line and y lines |
| Render.Entry | WordSearch.java:322-327 | a word's line is three characters longer than the word: X when the word was found and O otherwise, a space, and a final newline |
| Render.ListOf | WordSearch.java:319-330 | the list is empty exactly for no words and otherwise ends with a newline |
| Render.ListAround | WordSearch.java:321-328 | a word's entry sits between the lists of the words before and after it |
| Render.EntryBetween | WordSearch.java:322-327 | an entry placed after some text has its mark and its word at fixed offsets from that text |
| Render.ListConcat | WordSearch.java:319-330 | the list of two word lists is the list of the first followed by the list of the second |
| Render.ListEntry | WordSearch.java:319-330 | word k's line starts with X when the word was found and O otherwise, then holds the word |
| Render.Difficulty | WordSearch.java:425-442 | the label is one of the six tiers |
| Render.DifficultyByThresholds | WordSearch.java:428-440 | the label is the tier indexed by how many of 6, 9, 15, 18, 21 the side exceeds |
| Render.DifficultyMonotone | WordSearch.java:425-442 | a larger board never gets an easier label |
| Render.IndexOf | WordSearch.java:292-295 | the position of the first occurrence of the character, or -1 exactly when it is absent |
| Render.AlphaOrdered | WordSearch.java:22 | the label alphabet has 26 letters, A to Z in order |
| Render.Decode | WordSearch.java:292-295 | each coordinate is -1 or a label position, and a label position names the typed character |
| Render.LabelIndex | WordSearch.java:292-295 | the label at position i is looked up at position i |
| Render.DecodeLabels | WordSearch.java:292-295 | typing the labels of row y and column x decodes to (x, y) |
| Render.DecodeRejectsNonLabel | WordSearch.java:292-295 | a pair with a character that is not a label decodes to a cell no board accepts |
| Render.DecodeZZOffSmallBoard | WordSearch.java:292-295 | "ZZ" decodes to (25, 25), off every board smaller than 26 |

## Left out

- Console and file I/O is not modelled: `main`, `start`, `getDesiredBoard`, `getInfo`, `promptAnswer` apart from its letter-to-index decode, `enterToContinue`, `getHelp`, `extractWords` and the file-based constructors.
- Wall-clock time is not modelled: `startTime` and the win-time arithmetic.
- Random draws are inputs, not a `Random`. Each draw is a parameter with its range as a precondition, and nothing about their distribution is stated. The shuffle is not uniform and the direction draw is biased, but the model only proves that the shuffle is a permutation.
- Puzzle.WordSearch.Generate: the source recursion has no bound. The model consumes one `Round` of draws per level and returns false when the rounds run out. It does not model a run that would need more levels than the caller supplied draws for.
- Puzzle.WordSearch.GenerateFromLongest: requires a non-empty word list. With no words the source calls `generate(-1)`, whose array allocation throws. When every word is empty the longest length is 0, and the source then throws as `generate(0)` does below; the draw precondition cannot be met there, so that call is outside the model.
- Puzzle.WordSearch.Generate: on a board of side 0 with at least one word, the source's `RNG.nextInt(board.length)` in `placeWord` (WordSearch.java:121) throws `IllegalArgumentException`. The model has no exception: a level of side 0 needs placement draws in the empty range 0..-1, so `RoundFor` cannot hold for it, and `generate(0)` on a non-empty word list is outside the model. `generate(0)` on an empty word list is modelled: it gives a 0x0 board.
- Puzzle.WordSearch.PlaceWord: on a board of side 0 it throws in the source for the same reason; its precondition `AttemptsInRange` cannot be met there with 1000 attempts, so that call is outside the model.
- Puzzle.WordSearch.IsValid: on a board with no rows the source throws when it reads the length of row 0. The model answers false instead. Before the first generation the source board is `null`; the model's board is an empty 0x0 grid.
- Answer.LowerChar: covers the ASCII letters only. `toLowerCase` and `Character.toUpperCase` also map other Unicode letters, and `String.toLowerCase()` follows the default locale (a Turkish locale maps 'I' to a dotless 'ı'); `LowerChar` and `UpperChar` map A to Z and a to z as in an English locale and leave every other character unchanged.
- A character of the model is a Unicode code point, while a Java `char` is a UTF-16 code unit. Words are taken to lie in the Basic Multilingual Plane, where the two agree. A word with a character outside it takes two cells in the source and one in the model, which changes `Fits`, `PlaceTooLong` and the spelled letters.
- `Math.signum` steps through a floating-point value; the model uses an integer sign.
- Render.LabeledLine: assumes a side of at most 26, since the source's `ALPHA.charAt` throws on a larger board.
- The render functions and `Difficulty` take a board value, a side, or a word list and found list, rather than reading the object. `getDifficulty`, `getRow`, `toString`, `getLabeled` and `getList` are modelled as functions of any `Board`, side or word lists; no member applies them to the object's own board.
- The upper-casing of typed input in `promptAnswer` is not modelled: `Decode` takes the two characters as typed.
- `placeWord` and `answer` are split into helper methods, with one loop or one cell write each: `CheckRun`, `WriteRun` and `ScanDirections` for `placeWord`; `SpellPath`, `MatchWord`, `UppercasePath` and `Capitalize` for `answer`. Together they perform the same steps in the same order as the source. `PlaceAll` is the word loop of `generate(int)` (WordSearch.java:102-108), split out the same way.
