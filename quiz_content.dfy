/** The generated-content view of src/components/GameContent.tsx, without its
    markup: the four keyed state maps, the handlers that replace their entries,
    the per-option flags of a multiple-choice card, and the fill-in-the-blank
    walk that splits a sentence on "___" and pairs the k-th placeholder with
    the k-th blank under the answer key "<item>-<k>". */
module QuizContent {
  import opened SqlNormalize

  datatype Option<T> = None | Some(value: T)

  // ---------------------------------------------------------------------------
  // Content items

  /** A multiple-choice question; `correctAnswer` is an option position. */
  datatype Mcq = Mcq(question: string, options: seq<string>, correctAnswer: nat)

  datatype Flashcard = Flashcard(front: string, back: string)

  datatype Blank = Blank(correctAnswer: string)

  datatype FillInTheBlank = FillInTheBlank(sentence: string, blanks: seq<Blank>)

  datatype MiniQuiz = MiniQuiz(title: string, questions: seq<Mcq>)

  /** A generated item, tagged by kind; an unknown tag renders nothing. */
  datatype ContentItem =
    | McqItem(mcq: Mcq)
    | FlashcardItem(card: Flashcard)
    | FillItem(fill: FillInTheBlank)
    | MiniQuizItem(quiz: MiniQuiz)
    | OtherItem

  // ---------------------------------------------------------------------------
  // The four state maps and how the renderers read them

  /** `flashcardFlipped`, `mcqAnswers`, `fillAnswers` and `showResults`. */
  datatype Board = Board(
    flashcardFlipped: map<nat, bool>,
    mcqAnswers: map<nat, nat>,
    fillAnswers: map<string, string>,
    showResults: map<nat, bool>)

  function EmptyBoard(): Board {
    Board(map[], map[], map[], map[])
  }

  /** `flashcardFlipped[index] || false`: a missing entry reads as not flipped. */
  predicate IsFlipped(b: Board, index: nat) {
    index in b.flashcardFlipped && b.flashcardFlipped[index]
  }

  /** `showResults[index]`, used as a truth value: a missing entry is hidden. */
  predicate ResultShown(b: Board, index: nat) {
    index in b.showResults && b.showResults[index]
  }

  /** `mcqAnswers[index] ?? null`. */
  function SelectedOption(b: Board, index: nat): Option<nat> {
    if index in b.mcqAnswers then Some(b.mcqAnswers[index]) else None
  }

  /** `fillAnswers[key] || ''`. */
  function FillAnswer(b: Board, key: string): string {
    if key in b.fillAnswers then b.fillAnswers[key] else ""
  }

  // ---------------------------------------------------------------------------
  // The handlers, as functions of the board before the click

  /** Flip handler of a flashcard (both the card and its "Flip Card" button). */
  function AfterFlip(b: Board, index: nat): (r: Board)
    ensures IsFlipped(r, index) == !IsFlipped(b, index)
    ensures forall j :: j != index ==> IsFlipped(r, j) == IsFlipped(b, j)
    ensures r.mcqAnswers == b.mcqAnswers && r.fillAnswers == b.fillAnswers
    ensures r.showResults == b.showResults
  {
    b.(flashcardFlipped := b.flashcardFlipped[index := !IsFlipped(b, index)])
  }

  /** Click on option `optIndex` of the card keyed `index`: recorded only while
      that card's result is hidden. */
  function AfterSelect(b: Board, index: nat, optIndex: nat): (r: Board)
    ensures !ResultShown(b, index) ==> SelectedOption(r, index) == Some(optIndex)
    ensures ResultShown(b, index) ==> r == b
    ensures forall j :: j != index ==> SelectedOption(r, j) == SelectedOption(b, j)
    ensures r.flashcardFlipped == b.flashcardFlipped && r.fillAnswers == b.fillAnswers
    ensures r.showResults == b.showResults
  {
    if ResultShown(b, index) then b
    else b.(mcqAnswers := b.mcqAnswers[index := optIndex])
  }

  /** "Check Answer" / "Hide Answer" of the card keyed `index`. */
  function AfterToggleResult(b: Board, index: nat): (r: Board)
    ensures ResultShown(r, index) == !ResultShown(b, index)
    ensures forall j :: j != index ==> ResultShown(r, j) == ResultShown(b, j)
    ensures r.flashcardFlipped == b.flashcardFlipped && r.mcqAnswers == b.mcqAnswers
    ensures r.fillAnswers == b.fillAnswers
  {
    b.(showResults := b.showResults[index := !ResultShown(b, index)])
  }

  /** `onChange` of the input for `answerKey`. */
  function AfterType(b: Board, answerKey: string, text: string): (r: Board)
    ensures FillAnswer(r, answerKey) == text
    ensures forall k :: k != answerKey ==> FillAnswer(r, k) == FillAnswer(b, k)
    ensures r.flashcardFlipped == b.flashcardFlipped && r.mcqAnswers == b.mcqAnswers
    ensures r.showResults == b.showResults
  {
    b.(fillAnswers := b.fillAnswers[answerKey := text])
  }

  /** Two flips of the same card show the board as it was. */
  lemma FlipTwiceRestores(b: Board, index: nat)
    ensures forall j :: IsFlipped(AfterFlip(AfterFlip(b, index), index), j) == IsFlipped(b, j)
  {
    var once := AfterFlip(b, index);
    var twice := AfterFlip(once, index);
    forall j ensures IsFlipped(twice, j) == IsFlipped(b, j) {
      if j != index {
        assert IsFlipped(twice, j) == IsFlipped(once, j);
      }
    }
  }

  /** Two toggles of the same card leave every reveal flag as it was. */
  lemma ToggleTwiceRestores(b: Board, index: nat)
    ensures forall j :: ResultShown(AfterToggleResult(AfterToggleResult(b, index), index), j)
                        == ResultShown(b, j)
  {
    var once := AfterToggleResult(b, index);
    var twice := AfterToggleResult(once, index);
    forall j ensures ResultShown(twice, j) == ResultShown(b, j) {
      if j != index {
        assert ResultShown(twice, j) == ResultShown(once, j);
      }
    }
  }

  /** Once a card's result is revealed, no sequence of option clicks on it
      changes the recorded selection; hiding it again re-enables them. */
  lemma {:induction false} SelectionFrozenWhileShown(b: Board, index: nat, clicks: seq<nat>)
    requires ResultShown(b, index)
    ensures SelectAll(b, index, clicks) == b
    decreases |clicks|
  {
    if clicks != [] {
      SelectionFrozenWhileShown(AfterSelect(b, index, clicks[0]), index, clicks[1..]);
    }
  }

  /** The clicks on options of one card, in order. */
  function SelectAll(b: Board, index: nat, clicks: seq<nat>): Board
    decreases |clicks|
  {
    if clicks == [] then b else SelectAll(AfterSelect(b, index, clicks[0]), index, clicks[1..])
  }

  /** With the result hidden, the last click wins. */
  lemma {:induction false} LastClickWins(b: Board, index: nat, clicks: seq<nat>)
    requires !ResultShown(b, index) && clicks != []
    ensures SelectedOption(SelectAll(b, index, clicks), index) == Some(clicks[|clicks| - 1])
    ensures !ResultShown(SelectAll(b, index, clicks), index)
    decreases |clicks|
  {
    var next := AfterSelect(b, index, clicks[0]);
    if |clicks| > 1 {
      LastClickWins(next, index, clicks[1..]);
    }
  }

  // ---------------------------------------------------------------------------
  // The component's state, updated in place

  class ContentView {
    const content: seq<ContentItem>
    var flashcardFlipped: map<nat, bool>
    var mcqAnswers: map<nat, nat>
    var fillAnswers: map<string, string>
    var showResults: map<nat, bool>

    function Snapshot(): Board
      reads this
    {
      Board(flashcardFlipped, mcqAnswers, fillAnswers, showResults)
    }

    /** GameContent({content}): every map starts empty. */
    constructor (content: seq<ContentItem>)
      ensures this.content == content
      ensures Snapshot() == EmptyBoard()
    {
      this.content := content;
      flashcardFlipped := map[];
      mcqAnswers := map[];
      fillAnswers := map[];
      showResults := map[];
    }

    method FlipCard(index: nat)
      modifies this
      ensures Snapshot() == AfterFlip(old(Snapshot()), index)
    {
      var isFlipped := index in flashcardFlipped && flashcardFlipped[index];
      flashcardFlipped := flashcardFlipped[index := !isFlipped];
    }

    method SelectOption(index: nat, optIndex: nat)
      modifies this
      ensures Snapshot() == AfterSelect(old(Snapshot()), index, optIndex)
    {
      var showResult := index in showResults && showResults[index];
      if !showResult {
        mcqAnswers := mcqAnswers[index := optIndex];
      }
    }

    method ToggleResult(index: nat)
      modifies this
      ensures Snapshot() == AfterToggleResult(old(Snapshot()), index)
    {
      var showResult := index in showResults && showResults[index];
      showResults := showResults[index := !showResult];
    }

    method TypeAnswer(answerKey: string, text: string)
      modifies this
      ensures Snapshot() == AfterType(old(Snapshot()), answerKey, text)
    {
      fillAnswers := fillAnswers[answerKey := text];
    }
  }

  // ---------------------------------------------------------------------------
  // Multiple-choice option flags

  /** `showCorrect`: the result is shown and this is the correct option. */
  predicate ShowCorrect(b: Board, index: nat, mcq: Mcq, optIndex: nat) {
    ResultShown(b, index) && optIndex == mcq.correctAnswer
  }

  /** `showIncorrect`: shown, selected, and not the correct option. */
  predicate ShowIncorrect(b: Board, index: nat, mcq: Mcq, optIndex: nat) {
    ResultShown(b, index) && SelectedOption(b, index) == Some(optIndex)
    && optIndex != mcq.correctAnswer
  }

  /** The two marks never meet on one option, at most one option is marked
      incorrect (the selected one), and while the result is shown exactly the
      correct option (when it is a real option) is marked correct; while it is
      hidden nothing is marked. */
  lemma OptionFlags(b: Board, index: nat, mcq: Mcq)
    ensures forall k: nat :: !(ShowCorrect(b, index, mcq, k) && ShowIncorrect(b, index, mcq, k))
    ensures forall k: nat, l: nat :: ShowIncorrect(b, index, mcq, k) && ShowIncorrect(b, index, mcq, l) ==> k == l
    ensures forall k: nat :: ShowIncorrect(b, index, mcq, k) ==> SelectedOption(b, index) == Some(k)
    ensures ResultShown(b, index) && mcq.correctAnswer < |mcq.options| ==>
              (set k: nat | 0 <= k < |mcq.options| && ShowCorrect(b, index, mcq, k)) == {mcq.correctAnswer}
    ensures !ResultShown(b, index) ==>
              forall k: nat :: !ShowCorrect(b, index, mcq, k) && !ShowIncorrect(b, index, mcq, k)
  {
  }

  /** A correct selection is never marked incorrect; a wrong one is marked as
      soon as the result is shown. */
  lemma SelectionVerdict(b: Board, index: nat, mcq: Mcq, k: nat)
    requires SelectedOption(b, index) == Some(k)
    ensures ShowIncorrect(b, index, mcq, k) <==> ResultShown(b, index) && k != mcq.correctAnswer
  {
  }

  // ---------------------------------------------------------------------------
  // Splitting a sentence on its placeholders

  const Marker: string := "___"

  /** Three underscores start at position j of s. */
  predicate MarkerAt(s: string, j: int) {
    0 <= j && j + 3 <= |s| && s[j] == '_' && s[j + 1] == '_' && s[j + 2] == '_'
  }

  predicate NoMarker(s: string) {
    forall j :: 0 <= j < |s| ==> !MarkerAt(s, j)
  }

  function Concat(parts: seq<string>): string {
    if parts == [] then [] else parts[0] + Concat(parts[1..])
  }

  /** `sentence.split(/(___)/g)`: the sentence cut at each leftmost
      non-overlapping "___", with the captured separators kept in between, so
      text parts sit at even positions and placeholders at odd ones. */
  function SplitOnBlanks(s: string): (parts: seq<string>)
    ensures |parts| % 2 == 1
    ensures forall k :: 0 <= k < |parts| && k % 2 == 1 ==> parts[k] == Marker
    decreases |s|
  {
    if |s| < 3 then [s]
    else if MarkerAt(s, 0) then ["", Marker] + SplitOnBlanks(s[3..])
    else
      var rest := SplitOnBlanks(s[1..]);
      [[s[0]] + rest[0]] + rest[1..]
  }

  lemma ConcatCons(p: string, parts: seq<string>)
    ensures Concat([p] + parts) == p + Concat(parts)
  {
    assert ([p] + parts)[1..] == parts;
  }

  /** Joining the parts gives the sentence back. */
  lemma {:induction false} SplitOnBlanksConcat(s: string)
    ensures Concat(SplitOnBlanks(s)) == s
    decreases |s|
  {
    if |s| < 3 {
      ConcatCons(s, []);
    } else if MarkerAt(s, 0) {
      SplitOnBlanksConcat(s[3..]);
      assert s == Marker + s[3..];
      ConcatAfterMarker(SplitOnBlanks(s[3..]), s[3..]);
    } else {
      SplitOnBlanksConcat(s[1..]);
      ConcatExtendHead(s[0], SplitOnBlanks(s[1..]), s[1..]);
      assert s == [s[0]] + s[1..];
    }
  }

  lemma ConcatAfterMarker(tail: seq<string>, rest: string)
    requires Concat(tail) == rest
    ensures Concat(["", Marker] + tail) == Marker + rest
  {
    var parts := ["", Marker] + tail;
    assert parts == [""] + ([Marker] + tail);
    ConcatCons("", [Marker] + tail);
    ConcatCons(Marker, tail);
  }

  lemma ConcatExtendHead(c: char, parts: seq<string>, joined: string)
    requires parts != [] && Concat(parts) == joined
    ensures Concat([[c] + parts[0]] + parts[1..]) == [c] + joined
  {
    var more := Concat(parts[1..]);
    assert parts == [parts[0]] + parts[1..];
    ConcatCons(parts[0], parts[1..]);
    ConcatCons([c] + parts[0], parts[1..]);
    assert ([c] + parts[0]) + more == [c] + (parts[0] + more);
  }

  /** No text part holds a placeholder. */
  lemma {:induction false} SplitOnBlanksText(s: string)
    ensures forall k :: 0 <= k < |SplitOnBlanks(s)| && k % 2 == 0 ==> NoMarker(SplitOnBlanks(s)[k])
    decreases |s|
  {
    var parts := SplitOnBlanks(s);
    if |s| < 3 {
      assert parts == [s];
    } else if MarkerAt(s, 0) {
      var tail := SplitOnBlanks(s[3..]);
      SplitOnBlanksText(s[3..]);
      forall k | 0 <= k < |parts| && k % 2 == 0 ensures NoMarker(parts[k]) {
        if k > 0 {
          assert parts[k] == tail[k - 2];
        }
      }
    } else {
      var rest := SplitOnBlanks(s[1..]);
      SplitOnBlanksText(s[1..]);
      SplitOnBlanksConcat(s[1..]);
      assert rest == [rest[0]] + rest[1..];
      ConcatCons(rest[0], rest[1..]);
      HeadNoMarker(s, rest[0], Concat(rest[1..]));
      forall k | 0 <= k < |parts| && k % 2 == 0 ensures NoMarker(parts[k]) {
        if k > 0 {
          assert parts[k] == rest[k];
        }
      }
    }
  }

  /** `part` followed by a placeholder has its first placeholder at the end:
      the split did not skip an earlier match. */
  predicate MarkerFirstAfter(part: string) {
    forall j :: 0 <= j < |part| ==> !MarkerAt(part + Marker, j)
  }

  /** The split takes the leftmost match each time: every text part that
      precedes a placeholder, read together with that placeholder, holds no
      earlier "___". */
  lemma {:induction false} SplitOnBlanksLeftmost(s: string)
    ensures forall k :: 0 <= k < |SplitOnBlanks(s)| - 1 && k % 2 == 0 ==>
              MarkerFirstAfter(SplitOnBlanks(s)[k])
    decreases |s|
  {
    var parts := SplitOnBlanks(s);
    if |s| < 3 {
      assert parts == [s];
    } else if MarkerAt(s, 0) {
      var tail := SplitOnBlanks(s[3..]);
      SplitOnBlanksLeftmost(s[3..]);
      forall k | 0 <= k < |parts| - 1 && k % 2 == 0 ensures MarkerFirstAfter(parts[k]) {
        if k > 0 {
          assert parts[k] == tail[k - 2];
        }
      }
    } else {
      var rest := SplitOnBlanks(s[1..]);
      SplitOnBlanksLeftmost(s[1..]);
      if |rest| > 1 {
        SplitFirstMatch(s[1..]);
        LeftmostHead(s, rest[0], Concat(rest[2..]));
      }
      forall k | 0 <= k < |parts| - 1 && k % 2 == 0 ensures MarkerFirstAfter(parts[k]) {
        if k > 0 {
          assert parts[k] == rest[k];
        }
      }
    }
  }

  /** When a sentence has a placeholder, it reads as the first text part, the
      placeholder, then the rest. */
  lemma SplitFirstMatch(s: string)
    requires |SplitOnBlanks(s)| > 1
    ensures s == SplitOnBlanks(s)[0] + Marker + Concat(SplitOnBlanks(s)[2..])
  {
    var parts := SplitOnBlanks(s);
    SplitOnBlanksConcat(s);
    assert parts == [parts[0]] + ([parts[1]] + parts[2..]);
    ConcatCons(parts[0], [parts[1]] + parts[2..]);
    ConcatCons(parts[1], parts[2..]);
  }

  lemma LeftmostHead(s: string, first: string, more: string)
    requires |s| >= 1 && s[1..] == first + Marker + more
    requires MarkerFirstAfter(first) && !MarkerAt(s, 0)
    ensures MarkerFirstAfter([s[0]] + first)
  {
    var head := [s[0]] + first;
    var t := head + Marker;
    assert |t| <= |s|;
    forall j | 0 <= j < |head| ensures !MarkerAt(t, j) {
      if j >= 1 {
        assert MarkerAt(t, j) ==> MarkerAt(first + Marker, j - 1);
      } else {
        assert t[0] == s[0] && t[1] == s[1] && t[2] == s[2];
      }
    }
  }

  /** Extending a placeholder-free prefix of s[1..] by s[0] keeps it
      placeholder-free when s itself does not start with one. */
  lemma HeadNoMarker(s: string, first: string, more: string)
    requires |s| >= 1 && s[1..] == first + more
    requires NoMarker(first) && !MarkerAt(s, 0)
    ensures NoMarker([s[0]] + first)
  {
    var head := [s[0]] + first;
    forall j | 0 <= j < |head| ensures !MarkerAt(head, j) {
      if j >= 1 {
        assert MarkerAt(head, j) ==> MarkerAt(first, j - 1);
      } else if |head| >= 3 {
        assert head[1] == s[1] && head[2] == s[2];
      }
    }
  }

  /** A text part is never mistaken for a placeholder. */
  lemma NoMarkerIsText(part: string)
    requires NoMarker(part)
    ensures part != Marker
  {
    if part == Marker {
      assert MarkerAt(part, 0);
    }
  }

  /** The number of placeholders in a sentence. */
  function BlankCount(sentence: string): nat {
    |SplitOnBlanks(sentence)| / 2
  }

  // ---------------------------------------------------------------------------
  // Answer keys "<item>-<k>"

  function DigitChar(d: nat): char
    requires d < 10
  {
    ('0' as int + d) as char
  }

  predicate IsDigit(c: char) {
    '0' <= c <= '9'
  }

  /** The decimal rendering of a number in a template literal. */
  function DecimalString(n: nat): (r: string)
    ensures |r| >= 1
    ensures forall i :: 0 <= i < |r| ==> IsDigit(r[i])
  {
    if n < 10 then [DigitChar(n)] else DecimalString(n / 10) + [DigitChar(n % 10)]
  }

  function DigitValue(c: char): nat
    requires IsDigit(c)
  {
    c as int - '0' as int
  }

  /** Reads a string of digits back as a number. */
  function ParseDecimal(s: string): nat
    requires forall i :: 0 <= i < |s| ==> IsDigit(s[i])
  {
    if s == [] then 0 else ParseDecimal(s[..|s| - 1]) * 10 + DigitValue(s[|s| - 1])
  }

  lemma {:induction false} ParseDecimalString(n: nat)
    ensures ParseDecimal(DecimalString(n)) == n
  {
    if n >= 10 {
      var r := DecimalString(n);
      assert r[..|r| - 1] == DecimalString(n / 10);
      ParseDecimalString(n / 10);
    }
  }

  /** `${index}-${blankIndex}`. */
  function AnswerKey(index: nat, blankIndex: nat): string {
    DecimalString(index) + "-" + DecimalString(blankIndex)
  }

  /** Distinct (item, blank) pairs get distinct answer keys. */
  lemma AnswerKeyInjective(i: nat, k: nat, i': nat, k': nat)
    requires AnswerKey(i, k) == AnswerKey(i', k')
    ensures i == i' && k == k'
  {
    var a, b := DecimalString(i), DecimalString(k);
    var c, d := DecimalString(i'), DecimalString(k');
    var key := AnswerKey(i, k);
    assert key == a + ("-" + b) == c + ("-" + d);
    assert key[|a|] == '-' && key[|c|] == '-';
    assert forall i :: 0 <= i < |a| ==> key[i] == a[i];
    assert forall i :: 0 <= i < |c| ==> key[i] == c[i];
    assert a == key[..|a|] == c;
    assert b == key[|a| + 1..] == d;
    ParseDecimalString(i);
    ParseDecimalString(i');
    ParseDecimalString(k);
    ParseDecimalString(k');
  }

  // ---------------------------------------------------------------------------
  // Comparing a blank's answer

  /** `userAnswer.toLowerCase().trim() === correctAnswer.toLowerCase().trim()`. */
  predicate BlankCorrect(userAnswer: string, correctAnswer: string) {
    Trim(Lower(userAnswer)) == Trim(Lower(correctAnswer))
  }

  /** Any answer a blank accepts is also accepted by the SQL normaliser. */
  lemma BlankCorrectImpliesSqlMatch(a: string, b: string)
    requires BlankCorrect(a, b)
    ensures NormalizeSql(a) == NormalizeSql(b)
  {
    TrimCollapseIgnoresOuter(Lower(a));
    TrimCollapseIgnoresOuter(Lower(b));
  }

  /** The converse fails: the blank comparison keeps inner whitespace. Two
      answers that differ only in the length of one inner whitespace run are
      the same SQL but different blank answers. */
  lemma BlankKeepsInnerWhitespace(p: string, w1: string, w2: string, q: string)
    requires w1 != [] && AllWhitespace(w1) && w2 != [] && AllWhitespace(w2) && |w1| != |w2|
    requires p != [] && !IsWhitespace(p[0]) && q != [] && !IsWhitespace(q[|q| - 1])
    ensures NormalizeSql(p + w1 + q) == NormalizeSql(p + w2 + q)
    ensures !BlankCorrect(p + w1 + q, p + w2 + q)
  {
    NormalizeSqlIgnoresRunLength(p, w1, w2, q);
    BlankKeyKeepsLength(p + w1 + q);
    BlankKeyKeepsLength(p + w2 + q);
  }

  /** An answer without outer whitespace loses nothing to the blank key. */
  lemma BlankKeyKeepsLength(s: string)
    requires NoOuterWhitespace(s)
    ensures |Trim(Lower(s))| == |s|
  {
    var l := Lower(s);
    if s != [] {
      assert l[0] == ToLower(s[0]);
      assert l[|l| - 1] == ToLower(s[|s| - 1]);
    }
    TrimOfUntrimmed(l);
  }

  lemma TrimOfUntrimmed(s: string)
    requires NoOuterWhitespace(s)
    ensures Trim(s) == s
  {
  }

  /** Letter case does not matter to a blank. */
  lemma BlankIgnoresCase(a: string, a': string, b: string)
    requires SameUpToCase(a, a')
    ensures BlankCorrect(a, b) == BlankCorrect(a', b)
  {
    assert Lower(a) == Lower(a');
  }

  // ---------------------------------------------------------------------------
  // Rendering a fill-in-the-blank item

  /** A rendered piece of the sentence: literal text, or an input bound to an
      answer key, showing the typed value and its verdict. */
  datatype Segment =
    | Text(text: string)
    | Input(answerKey: string, value: string, correctAnswer: string, isCorrect: bool)

  /** The sentence text a segment stands for: its text, or "___" for an input. */
  function SegmentText(segment: Segment): string {
    match segment
    case Text(t) => t
    case Input(_, _, _, _) => Marker
  }

  /** The rendered segments read back as a sentence, each input as "___". */
  function ReadBack(segments: seq<Segment>): string {
    if segments == [] then [] else SegmentText(segments[0]) + ReadBack(segments[1..])
  }

  /** The render either completes, or throws at the first placeholder that
      has no blank (reading `correctAnswer` of undefined). */
  datatype Rendering = Rendered(segments: seq<Segment>) | MissingBlank(blankIndex: nat)

  /** The input the k-th placeholder of item `index` should become. */
  function BlankInput(fill: FillInTheBlank, index: nat, fillAnswers: map<string, string>, k: nat): Segment
    requires k < |fill.blanks|
  {
    var key := AnswerKey(index, k);
    var value := if key in fillAnswers then fillAnswers[key] else "";
    Input(key, value, fill.blanks[k].correctAnswer, BlankCorrect(value, fill.blanks[k].correctAnswer))
  }

  /** What part q of the split sentence should render as: its text, or the
      input of placeholder number q / 2. */
  function PartSegment(fill: FillInTheBlank, index: nat, fillAnswers: map<string, string>,
                       parts: seq<string>, q: nat): Segment
    requires q < |parts| && (q % 2 == 1 ==> q / 2 < |fill.blanks|)
  {
    if q % 2 == 0 then Text(parts[q]) else BlankInput(fill, index, fillAnswers, q / 2)
  }

  /** renderFillInTheBlank: walks the split parts with the running counter
      `blankIndex`. The k-th placeholder (part 2k+1) becomes the input for
      blanks[k] under key "<index>-<k>"; every other part stays text. When
      the sentence has more placeholders than blanks, rendering fails at
      placeholder number |blanks|. */
  method RenderFillInTheBlank(fill: FillInTheBlank, index: nat, fillAnswers: map<string, string>)
    returns (r: Rendering)
    ensures r.Rendered? <==> BlankCount(fill.sentence) <= |fill.blanks|
    ensures r.MissingBlank? ==> r.blankIndex == |fill.blanks|
    ensures r.Rendered? ==> ReadBack(r.segments) == fill.sentence
    ensures r.Rendered? ==>
      var parts := SplitOnBlanks(fill.sentence);
      && |r.segments| == |parts|
      && forall q :: 0 <= q < |parts| ==>
           (q % 2 == 1 ==> q / 2 < |fill.blanks|)
           && r.segments[q] == PartSegment(fill, index, fillAnswers, parts, q)
  {
    var parts := SplitOnBlanks(fill.sentence);
    SplitOnBlanksText(fill.sentence);
    var segments: seq<Segment> := [];
    var blankIndex := 0;
    var p := 0;
    while p < |parts|
      invariant 0 <= p <= |parts|
      invariant blankIndex == p / 2 <= |fill.blanks|
      invariant |segments| == p
      invariant forall q :: 0 <= q < p ==>
                  (q % 2 == 1 ==> q / 2 < |fill.blanks|)
                  && segments[q] == PartSegment(fill, index, fillAnswers, parts, q)
    {
      var part := parts[p];
      if p % 2 == 0 {
        NoMarkerIsText(part);
      }
      var segment: Segment;
      if part == Marker {
        if blankIndex >= |fill.blanks| {
          return MissingBlank(blankIndex);
        }
        var blank := fill.blanks[blankIndex];
        var answerKey := AnswerKey(index, blankIndex);
        var userAnswer := if answerKey in fillAnswers then fillAnswers[answerKey] else "";
        var isCorrect := BlankCorrect(userAnswer, blank.correctAnswer);
        segment := Input(answerKey, userAnswer, blank.correctAnswer, isCorrect);
        blankIndex := blankIndex + 1;
      } else {
        segment := Text(part);
      }
      assert segment == PartSegment(fill, index, fillAnswers, parts, p);
      ghost var done := segments;
      segments := segments + [segment];
      forall q | 0 <= q < p + 1
        ensures (q % 2 == 1 ==> q / 2 < |fill.blanks|)
        ensures segments[q] == PartSegment(fill, index, fillAnswers, parts, q)
      {
        if q < p {
          assert segments[q] == done[q];
        }
      }
      p := p + 1;
    }
    RenderedTextIsSentence(fill, index, fillAnswers, segments);
    return Rendered(segments);
  }

  /** Any segments that render the split parts one by one read back, with each
      input as "___", to the sentence. */
  lemma RenderedTextIsSentence(fill: FillInTheBlank, index: nat, fillAnswers: map<string, string>,
                               segments: seq<Segment>)
    requires |segments| == |SplitOnBlanks(fill.sentence)|
    requires forall q :: 0 <= q < |segments| ==>
               (q % 2 == 1 ==> q / 2 < |fill.blanks|)
               && segments[q] == PartSegment(fill, index, fillAnswers, SplitOnBlanks(fill.sentence), q)
    ensures ReadBack(segments) == fill.sentence
  {
    var parts := SplitOnBlanks(fill.sentence);
    forall q | 0 <= q < |segments|
      ensures SegmentText(segments[q]) == parts[q]
    {
      PartSegmentText(fill, index, fillAnswers, parts, q);
    }
    ReadBackConcat(segments, parts);
    SplitOnBlanksConcat(fill.sentence);
  }

  /** A text part reads back as itself and a placeholder's input as "___". */
  lemma PartSegmentText(fill: FillInTheBlank, index: nat, fillAnswers: map<string, string>,
                        parts: seq<string>, q: nat)
    requires q < |parts| && (q % 2 == 1 ==> q / 2 < |fill.blanks|)
    requires q % 2 == 1 ==> parts[q] == Marker
    ensures SegmentText(PartSegment(fill, index, fillAnswers, parts, q)) == parts[q]
  {
  }

  lemma {:induction false} ReadBackConcat(segments: seq<Segment>, parts: seq<string>)
    requires |segments| == |parts|
    requires forall q :: 0 <= q < |segments| ==> SegmentText(segments[q]) == parts[q]
    ensures ReadBack(segments) == Concat(parts)
  {
    if segments != [] {
      ReadBackConcat(segments[1..], parts[1..]);
    }
  }

  // ---------------------------------------------------------------------------
  // Which keys the multiple-choice cards use

  /** A multiple-choice card as rendered: the item it belongs to, its position
      inside a mini-quiz (None at top level) and the key `renderMCQ` receives. */
  datatype McqCard = McqCard(item: nat, inner: Option<nat>, key: nat, mcq: Mcq)

  /** The cards item `index` renders: a top-level question is keyed by its
      item position, a mini-quiz question by its position inside the quiz. */
  function CardsOf(item: ContentItem, index: nat): (r: seq<McqCard>)
    ensures forall c :: c in r ==> c.item == index
  {
    match item
    case McqItem(m) => [McqCard(index, None, index, m)]
    case MiniQuizItem(quiz) =>
      seq(|quiz.questions|, q requires 0 <= q < |quiz.questions| =>
            McqCard(index, Some(q), q, quiz.questions[q]))
    case _ => []
  }

  /** All cards of items `from` onwards, in render order. */
  function CardsFrom(content: seq<ContentItem>, from: nat): (r: seq<McqCard>)
    ensures forall c :: c in r ==> from <= c.item < |content|
    decreases |content| - from
  {
    if from >= |content| then [] else CardsOf(content[from], from) + CardsFrom(content, from + 1)
  }

  lemma {:induction false} CardsFromHas(content: seq<ContentItem>, from: nat, j: nat, c: McqCard)
    requires from <= j < |content| && c in CardsOf(content[j], j)
    ensures c in CardsFrom(content, from)
    decreases j - from
  {
    if from < j {
      CardsFromHas(content, from + 1, j, c);
    }
  }

  lemma {:induction false} CardsFromFrom(content: seq<ContentItem>, from: nat, c: McqCard)
    requires c in CardsFrom(content, from)
    ensures from <= c.item < |content| && c in CardsOf(content[c.item], c.item)
    decreases |content| - from
  {
    if c !in CardsOf(content[from], from) {
      CardsFromFrom(content, from + 1, c);
    }
  }

  predicate HasMiniQuiz(content: seq<ContentItem>) {
    exists i :: 0 <= i < |content| && content[i].MiniQuizItem?
  }

  /** Without mini-quizzes every card has its own key: the key is the item
      position, so two cards with one key are the same card. */
  lemma TopLevelKeysDistinct(content: seq<ContentItem>, c: McqCard, d: McqCard)
    requires !HasMiniQuiz(content)
    requires c in CardsFrom(content, 0) && d in CardsFrom(content, 0)
    requires c.key == d.key
    ensures c == d
  {
    CardsFromFrom(content, 0, c);
    CardsFromFrom(content, 0, d);
  }

  /** Inner question q of a mini-quiz and top-level item q are two cards on
      one key: they read and write the same selection and reveal flag, so a
      click in the quiz shows up on the item and the other way round. */
  lemma MiniQuizSharesState(content: seq<ContentItem>, quizIndex: nat, q: nat, b: Board, optIndex: nat)
    requires quizIndex < |content| && content[quizIndex].MiniQuizItem?
    requires q < |content[quizIndex].quiz.questions| && q < |content| && content[q].McqItem?
    ensures var inner := McqCard(quizIndex, Some(q), q, content[quizIndex].quiz.questions[q]);
            var outer := McqCard(q, None, q, content[q].mcq);
      && inner in CardsFrom(content, 0) && outer in CardsFrom(content, 0) && inner != outer
      && inner.key == outer.key
      && (!ResultShown(b, q) ==> SelectedOption(AfterSelect(b, inner.key, optIndex), outer.key) == Some(optIndex))
      && ResultShown(AfterToggleResult(b, inner.key), outer.key) == !ResultShown(b, outer.key)
  {
    var quiz := content[quizIndex].quiz;
    var inner := McqCard(quizIndex, Some(q), q, quiz.questions[q]);
    var outer := McqCard(q, None, q, content[q].mcq);
    assert CardsOf(content[quizIndex], quizIndex)[q] == inner;
    CardsFromHas(content, 0, quizIndex, inner);
    assert CardsOf(content[q], q) == [outer];
    CardsFromHas(content, 0, q, outer);
  }
}

