# SQL quiz game core in Dafny

This project models the logic at the centre of a browser quiz app that turns a
PDF into learning content and runs a "fix the SQL typo" game. It has three parts.

- `normalize_sql.dfy` (module `SqlNormalize`) covers the SQL answer normaliser,
  `normalizeSql`. It lower-cases the answer, replaces every run of whitespace with
  one space, then trims. These are pure functions. The lemmas prove the normaliser's
  algebra: the canonical shape of the result, idempotence, case and run-length
  insensitivity, and "empty iff blank".
- `sql_game.dfy` (module `SqlGame`) covers the game session of `useSQLGame`.
  - The hook's six state variables are the fields of class `Session`.
  - `submitAnswer`, `goToNextQuestion` and `resetGame` are its methods. Each is
    proved against a function on the value `GameState`.
  - Whole plays are sequences of events run through `Run`, and lemmas about them
    state what the game promises over time.
  - The two `setTimeout` calls do not run. `SubmitAnswer` returns the advance it
    schedules (`AdvanceAfter(1000)` or `AdvanceAfter(2000)`). The advance itself
    is an explicit `GoToNextQuestion` call (the `Advance` event), which returns
    whether `onComplete` was called.
- `quiz_content.dfy` (module `QuizContent`) covers the state of the generated
  content view, `GameContent`.
  - The four keyed maps are the fields of class `ContentView`. Its click and typing
    handlers are methods proved against pure `Board` functions.
  - The multiple-choice option flags are predicates.
  - `split(/(___)/g)` is the function `SplitOnBlanks`.
  - The render walk is the method `RenderFillInTheBlank`. It loops over the parts
    with the running `blankIndex` and pairs placeholder k with blank k under the
    key `"<item>-<k>"`.
  - Blank answers are compared by `BlankCorrect` (lower-case, then trim).

Whitespace is the set that ECMAScript uses both for the regular-expression class
`\s` and for `String.prototype.trim`: the WhiteSpace and LineTerminator code points.

Three behaviours of the code are easy to miss, and the model proves each one:

- Hearts can go negative. `goToNextQuestion` never restores hearts
  (src/hooks/useSQLGame.ts:24-30), and only `newHearts === 0` locks the question
  (src/hooks/useSQLGame.ts:54). So a player who enters a question with 0 hearts and
  answers wrongly gets -1 hearts and a retry. The model proves `hearts <= 2`
  (`Valid`, `HeartsNeverRise`) and proves that negative hearts are reachable
  (`HeartsGoNegative`).
- Fill-in-the-blank answers are only lower-cased and trimmed before they are
  compared (src/components/GameContent.tsx:154). Inner whitespace runs are not
  collapsed, so two answers that `normalizeSql` treats as the same SQL can still
  get different verdicts (`BlankKeepsInnerWhitespace`).
- A mini-quiz's inner question `q` is rendered with `renderMCQ(question, qIndex)`
  (src/components/GameContent.tsx:214). It therefore reads and writes the same
  `mcqAnswers` and `showResults` entries as top-level item `q`
  (`MiniQuizSharesState`). A top-level fill-in-the-blank item `q` also reads and
  toggles `showResults[q]` (src/components/GameContent.tsx:138, 192), so the inner
  question's "Check Answer" reveals that item's answers too.

## Model

| member | source | states |
|---|---|---|
| SqlNormalize.ToLower | src/utils/normalizeSql.ts:8 | lower-casing one character never yields a capital and maps whitespace to itself |
| SqlNormalize.Lower | src/utils/normalizeSql.ts:8 | `toLowerCase()` keeps the length and lower-cases every position in place |
| SqlNormalize.TrimStart | src/utils/normalizeSql.ts:8 | the front half of `trim()`: the result does not start with whitespace, is no longer, and keeps a non-whitespace last character |
| SqlNormalize.TrimEnd | src/utils/normalizeSql.ts:8 | the back half of `trim()`: the result does not end with whitespace, is no longer, and keeps a non-whitespace first character |
| SqlNormalize.Collapse | src/utils/normalizeSql.ts:8 | `replace(/\s+/g, ' ')` never lengthens the string, is empty exactly on empty input, and keeps a non-whitespace first character |
| SqlNormalize.TrimStartIsSuffix | src/utils/normalizeSql.ts:8 | what trimming the front leaves is a suffix of the input |
| SqlNormalize.TrimEndIsPrefix | src/utils/normalizeSql.ts:8 | what trimming the back leaves is a prefix of the input |
| SqlNormalize.TrimStartDropsWhitespace | src/utils/normalizeSql.ts:8 | only whitespace is removed from the front |
| SqlNormalize.TrimEndDropsWhitespace | src/utils/normalizeSql.ts:8 | only whitespace is removed from the back |
| SqlNormalize.TrimKeepsNonWhitespace | src/utils/normalizeSql.ts:8 | every non-whitespace character of the input survives `trim()` |
| SqlNormalize.TrimEmptyIffAllWhitespace | src/hooks/useSQLGame.ts:34 | `userAnswer.trim()` is empty exactly when the answer is whitespace only |
| SqlNormalize.LowerAppend | src/utils/normalizeSql.ts:8 | lower-casing distributes over concatenation |
| SqlNormalize.LowerTrim | src/utils/normalizeSql.ts:8 | lower-casing commutes with `trim()` |
| SqlNormalize.CollapseShape | src/utils/normalizeSql.ts:4-8 | after collapsing, every whitespace character is a plain space and no two are adjacent |
| SqlNormalize.CollapseCharsFromInput | src/utils/normalizeSql.ts:8 | every non-whitespace character of the collapsed string occurs in the input |
| SqlNormalize.CollapseKeepsNonWhitespace | src/utils/normalizeSql.ts:8 | every non-whitespace character of the input survives collapsing |
| SqlNormalize.CollapseOfCollapsed | src/utils/normalizeSql.ts:8 | a string whose whitespace is already single plain spaces is left unchanged |
| SqlNormalize.CollapseRunToSpace | src/utils/normalizeSql.ts:4-8 | any whitespace run collapses exactly as a single space in its place would |
| SqlNormalize.CollapseTrailingRun | src/utils/normalizeSql.ts:4-8 | a whitespace run after a non-whitespace end becomes exactly one trailing space |
| SqlNormalize.NoUpperCollapse | src/utils/normalizeSql.ts:8 | collapsing introduces no capital letters |
| SqlNormalize.CanonicalTrim | src/utils/normalizeSql.ts:8 | trimming keeps the inner shape and removes the outer whitespace |
| SqlNormalize.NormalizeSqlCanonical | src/utils/normalizeSql.ts:1-8 | the result has no capitals, only single plain spaces, and no whitespace at either end |
| SqlNormalize.NormalizeSqlShorter | src/utils/normalizeSql.ts:8 | the result is never longer than the input |
| SqlNormalize.NormalizeSqlIdempotent | src/utils/normalizeSql.ts:1-8 | normalising twice gives the same string as normalising once |
| SqlNormalize.NormalizeSqlIgnoresCase | src/utils/normalizeSql.ts:3-8 | inputs that differ only in letter case normalise to the same string |
| SqlNormalize.NormalizeSqlIgnoresRunLength | src/utils/normalizeSql.ts:4-8 | inputs that differ only in the length of one whitespace run normalise to the same string |
| SqlNormalize.TrimCollapseIgnoresOuter | src/utils/normalizeSql.ts:4-8 | whitespace at either end of the input never reaches the collapsed and trimmed form |
| SqlNormalize.NormalizeSqlOfTrim | src/utils/normalizeSql.ts:5-8 | trimming the input first does not change its normal form |
| SqlNormalize.NormalizeSqlEmptyIffBlank | src/utils/normalizeSql.ts:7-9 | the normal form is empty exactly when the input is whitespace only, which is exactly when its `trim()` is empty |
| SqlGame.Session.constructor | src/hooks/useSQLGame.ts:10-16 | a new session is at index 0 with 2 hearts, an empty answer, unlocked, unevaluated and unrevealed, and satisfies the invariant |
| SqlGame.Session.CurrentQuestion | src/hooks/useSQLGame.ts:18 | `currentQuestion` is an element of the question list |
| SqlGame.Session.IsLastQuestion | src/hooks/useSQLGame.ts:18-23 | `isLastQuestion` holds exactly when advancing would leave the session unchanged, that is, when `goToNextQuestion` only calls `onComplete` |
| SqlGame.Session.SetUserAnswer | src/hooks/useSQLGame.ts:13 | the setter replaces the typed answer and nothing else |
| SqlGame.Session.SubmitAnswer | src/hooks/useSQLGame.ts:33-67 | the new fields and the scheduled advance are those of `Submit` on the state before the call, and the invariant is kept |
| SqlGame.Session.GoToNextQuestion | src/hooks/useSQLGame.ts:21-31 | the new fields are those of `Next` on the old state; onComplete is reported exactly at the last question; the invariant is kept |
| SqlGame.Session.ResetGame | src/hooks/useSQLGame.ts:69-76 | from any valid state the session returns to the initial state |
| SqlGame.SubmitIgnoredChangesNothing | src/hooks/useSQLGame.ts:34 | a locked session or a whitespace-only answer makes submission a no-op that schedules nothing |
| SqlGame.SubmitCorrect | src/hooks/useSQLGame.ts:36-47 | a matching answer sets correct and locked, keeps hearts, index, answer and reveal flag, and schedules the advance after 1000 ms |
| SqlGame.SubmitWrong | src/hooks/useSQLGame.ts:48-65 | a wrong answer sets incorrect and costs exactly one heart; at exactly 0 hearts it locks, reveals, keeps the text and schedules the advance after 2000 ms; at any other count, negative included, it clears the text, stays unlocked and schedules nothing |
| SqlGame.SubmitSchedulesIffLocks | src/hooks/useSQLGame.ts:39-65 | a submission schedules an advance exactly when it locks a previously unlocked session |
| SqlGame.NextEffect | src/hooks/useSQLGame.ts:21-31 | at the last index the advance changes nothing; elsewhere it moves to the next index with an empty unlocked unevaluated unrevealed input and the same hearts |
| SqlGame.Step | src/hooks/useSQLGame.ts:21-76 | typing, submitting, advancing and resetting each keep the invariant: index in range, hearts at most 2, reveal only when locked, lock only with a verdict (reveal only at 0 hearts) |
| SqlGame.Run | src/hooks/useSQLGame.ts:21-76 | every state reachable by a play from a valid state is valid |
| SqlGame.InitialValid | src/hooks/useSQLGame.ts:11-16 | the initial state is valid for any non-empty question list and starts with 2 hearts at index 0 |
| SqlGame.HeartsNeverRise | src/hooks/useSQLGame.ts:21-67 | along any play without a reset, hearts never increase and the index never decreases |
| SqlGame.ResetRestoresInitial | src/hooks/useSQLGame.ts:69-76 | any play that ends with a reset ends in the initial state |
| SqlGame.NoRevealWithoutHearts | src/hooks/useSQLGame.ts:51-65 | on a question entered with 0 or fewer hearts, typing and submitting never reveal the answer, never move on, and keep hearts at or below 0 |
| SqlGame.RightAttempt | src/hooks/useSQLGame.ts:36-47 | typing and submitting a matching answer leaves the question locked as correct with the answer kept |
| SqlGame.RetryAttempt | src/hooks/useSQLGame.ts:62-65 | typing and submitting a wrong answer when the hearts are not 1 costs a heart and clears the input for a retry |
| SqlGame.RevealAttempt | src/hooks/useSQLGame.ts:54-61 | typing and submitting a wrong answer with the last heart locks and reveals the question at 0 hearts |
| SqlGame.AdvanceStep | src/hooks/useSQLGame.ts:24-30 | an advance before the last question enters the next one with the same hearts |
| SqlGame.HeartsGoNegative | src/hooks/useSQLGame.ts:51-65 | two wrong answers on question 1, an advance and a wrong answer on question 2 leave -1 hearts, unlocked, unrevealed, with a cleared input |
| SqlGame.ThreeQuestionPlay | src/hooks/useSQLGame.ts:21-67 | with 3 questions: right on Q1, advance, wrong twice on Q2, advance ends at index 2 with 0 hearts and a fresh input |
| QuizContent.AfterFlip | src/components/GameContent.tsx:85-92 | flipping card i negates its flag (missing reads as false) and leaves every other card and every other map unchanged |
| QuizContent.AfterSelect | src/components/GameContent.tsx:38-43 | choosing option k records it for card i only while the result is hidden; once shown the board is unchanged; other cards and maps are untouched |
| QuizContent.AfterToggleResult | src/components/GameContent.tsx:73 | Check/Hide Answer negates the reveal flag of card i and changes no other key or map |
| QuizContent.AfterType | src/components/GameContent.tsx:162-164 | typing stores the text under its answer key and changes no other key or map |
| QuizContent.FlipTwiceRestores | src/components/GameContent.tsx:92 | two flips of the same card leave every flip flag as it was |
| QuizContent.ToggleTwiceRestores | src/components/GameContent.tsx:192 | two reveal toggles of the same item leave every reveal flag as it was |
| QuizContent.SelectionFrozenWhileShown | src/components/GameContent.tsx:38-43 | once a card's result is shown, no sequence of option clicks changes the board |
| QuizContent.LastClickWins | src/components/GameContent.tsx:38-43 | with the result hidden, the last clicked option is the recorded selection |
| QuizContent.ContentView.constructor | src/components/GameContent.tsx:11-15 | the view starts with all four maps empty |
| QuizContent.ContentView.FlipCard | src/components/GameContent.tsx:126 | the flip handler updates the maps as `AfterFlip` says |
| QuizContent.ContentView.SelectOption | src/components/GameContent.tsx:38-42 | the option handler updates the maps as `AfterSelect` says |
| QuizContent.ContentView.ToggleResult | src/components/GameContent.tsx:73 | the reveal toggle updates the maps as `AfterToggleResult` says |
| QuizContent.ContentView.TypeAnswer | src/components/GameContent.tsx:162-164 | the input's onChange updates the maps as `AfterType` says |
| QuizContent.OptionFlags | src/components/GameContent.tsx:29-33 | no option is flagged both correct and incorrect; at most one, the selected one, is flagged incorrect; while shown exactly the correct option is flagged correct; while hidden nothing is flagged |
| QuizContent.SelectionVerdict | src/components/GameContent.tsx:30-33 | the selected option is flagged incorrect exactly when the result is shown and it is not the correct option |
| QuizContent.SplitOnBlanks | src/components/GameContent.tsx:139 | the split has an odd number of parts and every odd part is the kept separator `___` |
| QuizContent.SplitOnBlanksConcat | src/components/GameContent.tsx:139 | joining the parts gives the sentence back |
| QuizContent.SplitOnBlanksText | src/components/GameContent.tsx:139 | no text part contains `___` |
| QuizContent.SplitOnBlanksLeftmost | src/components/GameContent.tsx:139 | each match is the leftmost: a text part followed by its separator has no earlier `___` |
| QuizContent.SplitFirstMatch | src/components/GameContent.tsx:139 | a sentence with a placeholder reads as its first text part, `___`, then the rest |
| QuizContent.NoMarkerIsText | src/components/GameContent.tsx:150 | a text part never compares equal to `___` |
| QuizContent.DecimalString | src/components/GameContent.tsx:152 | a number renders as a non-empty string of digits |
| QuizContent.ParseDecimalString | src/components/GameContent.tsx:152 | the decimal rendering reads back as the same number |
| QuizContent.AnswerKeyInjective | src/components/GameContent.tsx:152 | distinct (item, blank) pairs get distinct keys `"<item>-<k>"` |
| QuizContent.BlankCorrectImpliesSqlMatch | src/components/GameContent.tsx:154 | any answer a blank accepts is also equal to the correct answer after SQL normalisation |
| QuizContent.BlankKeepsInnerWhitespace | src/components/GameContent.tsx:154 | answers that differ only in the length of one inner whitespace run normalise alike as SQL but are not equal as blank answers |
| QuizContent.BlankKeyKeepsLength | src/components/GameContent.tsx:154 | an answer without outer whitespace keeps its length under lower-case plus trim |
| QuizContent.BlankIgnoresCase | src/components/GameContent.tsx:154 | letter case does not change a blank's verdict |
| QuizContent.RenderFillInTheBlank | src/components/GameContent.tsx:137-155 | rendering succeeds exactly when there are at least as many blanks as placeholders, and otherwise fails at the placeholder whose number equals the number of blanks; on success part 2k+1 is the input of `blanks[k]` under key `"<index>-<k>"` with the stored or empty value and its lower+trim verdict, and every even part is its text; and the rendered segments, with each input read back as `___`, give the sentence back |
| QuizContent.RenderedTextIsSentence | src/components/GameContent.tsx:139-188 | any segments that render the split parts one by one (text as itself, placeholder k as the input of `blanks[k]`) read back, with each input as `___`, to the original sentence |
| QuizContent.CardsOf | src/components/GameContent.tsx:203-214 | every multiple-choice card an item renders belongs to that item |
| QuizContent.CardsFrom | src/components/GameContent.tsx:232-245 | every card of the content belongs to an item in range |
| QuizContent.CardsFromHas | src/components/GameContent.tsx:232-245 | every card an item renders is among the content's cards |
| QuizContent.CardsFromFrom | src/components/GameContent.tsx:232-245 | every card of the content is rendered by the item it names |
| QuizContent.TopLevelKeysDistinct | src/components/GameContent.tsx:232-235 | without mini-quizzes, two cards with the same key are the same card |
| QuizContent.MiniQuizSharesState | src/components/GameContent.tsx:214 | inner question q of a mini-quiz and top-level item q are different cards on one key: a selection or a reveal toggle in one shows in the other |

## Left out

- Lower-casing is modelled on ASCII letters only. Full Unicode `toLowerCase` (other scripts, length-changing mappings) is not modelled.
- SqlNormalize.Lower, SqlNormalize.LowerAppend, SqlNormalize.NormalizeSqlShorter: these hold for the ASCII lower-casing only. In JavaScript `"İ".toLowerCase()` has two code units, so `normalizeSql` can lengthen its input. The lower-case form of `"Σ"` depends on its neighbours, so lower-casing does not distribute over concatenation.
- Timers: the 1000 ms and 2000 ms `setTimeout` calls are returned as `PendingAdvance` values rather than run. There is no clock, no cancellation, and no model of a timer that fires after a reset or after another advance.
- React mechanics: `useState` re-renders, update batching and the stale closures of `useCallback` are not modelled. Each handler is a sequence of field updates that reads the state as it was before the call.
- `onComplete` is not called. `GoToNextQuestion` returns `completed` instead.
- SqlGame.Session.constructor: requires a non-empty question list. With an empty list `currentQuestion` is undefined and the session cannot be valid.
- The `disabled` attributes on option buttons and blank inputs (src/components/GameContent.tsx:43, 165) are not modelled. `TypeAnswer` accepts typing even while the result is shown, as the handler itself does.
- `mcqAnswers` entries are typed `number | null`, but no handler stores `null`. They are modelled as `map<nat, nat>`, so option positions are non-negative.
- JSX, CSS class selection, card layout, the explanation text (src/components/GameContent.tsx:67-71), the time-limit caption (208-210) and the item count caption (227) are not modelled.
- Flashcard front/back text is carried in `Flashcard` but not rendered.
- QuizContent.RenderFillInTheBlank: a missing blank is reported as `MissingBlank`. It stands for the TypeError the render throws, and nothing after it is modelled.
- src/components/sql/LevelOneSQLGame.tsx, src/components/sql/Hearts.tsx, src/components/ui/loading.tsx and src/pages/LevelTwoPage.tsx are not part of this model (presentation and navigation).
- src/services/pdfExtractor.ts and src/services/sqlGameService.ts are not part of this model (PDF and network I/O).
