/** The "fix the SQL typo" game session of src/hooks/useSQLGame.ts.

    The hook's six pieces of state become the fields of class Session; its
    three callbacks become methods. Each method is specified by a function on
    the value GameState, and the properties of the game (what a submission
    does, which invariants hold, how hearts evolve over a whole play) are
    lemmas about those functions. The two `setTimeout` calls are not run:
    SubmitAnswer returns the advance it schedules, and the advance itself is
    the explicit call GoToNextQuestion. */
module SqlGame {
  import opened SqlNormalize

  /** One item of the question list: the task shown and its canonical answer. */
  datatype Question = Question(task: string, answer: string)

  /** `isCorrect`: null before any evaluation, then true or false. */
  datatype Verdict = Unevaluated | Correct | Incorrect

  datatype GameState = GameState(
    currentIndex: nat,
    hearts: int,
    userAnswer: string,
    isLocked: bool,
    isCorrect: Verdict,
    showAnswer: bool)

  /** What a submission leaves pending: nothing, or a call of goToNextQuestion
      after the given delay. */
  datatype PendingAdvance = NoAdvance | AdvanceAfter(delayMs: nat)

  datatype SubmitResult = SubmitResult(state: GameState, pending: PendingAdvance)

  const MaxHearts: int := 2
  const CorrectDelayMs: nat := 1000
  const RevealDelayMs: nat := 2000

  /** The state every game starts in, and the one resetGame restores. */
  function InitialState(): GameState {
    GameState(0, MaxHearts, "", false, Unevaluated, false)
  }

  /** `isLastQuestion`. */
  predicate IsLast(questions: seq<Question>, st: GameState) {
    st.currentIndex == |questions| - 1
  }

  /** The early return of submitAnswer: locked, or nothing but whitespace typed. */
  predicate SubmitIgnored(st: GameState) {
    st.isLocked || Trim(st.userAnswer) == []
  }

  /** The typed answer matches the current question's answer after normalising both. */
  predicate AnswerMatches(questions: seq<Question>, st: GameState)
    requires st.currentIndex < |questions|
  {
    NormalizeSql(st.userAnswer) == NormalizeSql(questions[st.currentIndex].answer)
  }

  /** submitAnswer, reading the state as it was before the call. */
  function Submit(questions: seq<Question>, st: GameState): SubmitResult
    requires st.currentIndex < |questions|
  {
    if SubmitIgnored(st) then
      SubmitResult(st, NoAdvance)
    else if AnswerMatches(questions, st) then
      SubmitResult(st.(isCorrect := Correct, isLocked := true), AdvanceAfter(CorrectDelayMs))
    else
      var newHearts := st.hearts - 1;
      if newHearts == 0 then
        SubmitResult(
          st.(isCorrect := Incorrect, hearts := newHearts, isLocked := true, showAnswer := true),
          AdvanceAfter(RevealDelayMs))
      else
        SubmitResult(st.(isCorrect := Incorrect, hearts := newHearts, userAnswer := ""), NoAdvance)
  }

  /** goToNextQuestion: at the last question it only reports completion
      (calls onComplete); otherwise it moves on and keeps the hearts. */
  function Next(questions: seq<Question>, st: GameState): GameState {
    if IsLast(questions, st) then st
    else st.(currentIndex := st.currentIndex + 1, userAnswer := "", isLocked := false,
             isCorrect := Unevaluated, showAnswer := false)
  }

  /** The invariant every reachable state keeps. Hearts are bounded above
      only: see HeartsGoNegative. */
  predicate Valid(questions: seq<Question>, st: GameState) {
    && st.currentIndex < |questions|
    && st.hearts <= MaxHearts
    && (st.showAnswer ==> st.isLocked)
    && (st.isLocked ==>
          || (st.isCorrect == Correct && !st.showAnswer)
          || (st.isCorrect == Incorrect && st.showAnswer && st.hearts == 0))
  }

  // ---------------------------------------------------------------------------
  // The session object

  class Session {
    const questions: seq<Question>
    var currentIndex: nat
    var hearts: int
    var userAnswer: string
    var isLocked: bool
    var isCorrect: Verdict
    var showAnswer: bool

    function State(): GameState
      reads this
    {
      GameState(currentIndex, hearts, userAnswer, isLocked, isCorrect, showAnswer)
    }

    ghost predicate Invariant()
      reads this
    {
      Valid(questions, State())
    }

    /** useSQLGame({questions, onComplete}); the hook reads `questions[currentIndex]`
        unguarded, so the list must not be empty. */
    constructor (questions: seq<Question>)
      requires |questions| > 0
      ensures this.questions == questions
      ensures State() == InitialState()
      ensures Invariant()
    {
      this.questions := questions;
      currentIndex := 0;
      hearts := MaxHearts;
      userAnswer := "";
      isLocked := false;
      isCorrect := Unevaluated;
      showAnswer := false;
    }

    /** `currentQuestion`. */
    function CurrentQuestion(): (q: Question)
      reads this
      requires Invariant()
      ensures q in questions
    {
      questions[currentIndex]
    }

    /** `isLastQuestion`: exactly where the advance only reports completion
        and leaves the session as it is. */
    predicate IsLastQuestion()
      reads this
      requires Invariant()
      ensures IsLastQuestion() <==> Next(questions, State()) == State()
    {
      IsLast(questions, State())
    }

    /** `setUserAnswer`, the text box's setter. */
    method SetUserAnswer(text: string)
      requires Invariant()
      modifies this
      ensures Invariant()
      ensures State() == old(State()).(userAnswer := text)
    {
      userAnswer := text;
    }

    /** `submitAnswer`. */
    method SubmitAnswer() returns (pending: PendingAdvance)
      requires Invariant()
      modifies this
      ensures Invariant()
      ensures SubmitResult(State(), pending) == Submit(questions, old(State()))
    {
      ghost var before := State();
      if isLocked || Trim(userAnswer) == [] {
        return NoAdvance;
      }
      assert !SubmitIgnored(before);
      var normalizedUserAnswer := NormalizeSql(userAnswer);
      var normalizedCorrectAnswer := NormalizeSql(questions[currentIndex].answer);
      if normalizedUserAnswer == normalizedCorrectAnswer {
        assert Submit(questions, before)
            == SubmitResult(before.(isCorrect := Correct, isLocked := true), AdvanceAfter(CorrectDelayMs));
        isCorrect := Correct;
        isLocked := true;
        pending := AdvanceAfter(CorrectDelayMs);
      } else {
        assert Submit(questions, before).state.isCorrect == Incorrect;
        isCorrect := Incorrect;
        var newHearts := hearts - 1;
        hearts := newHearts;
        if newHearts == 0 {
          isLocked := true;
          showAnswer := true;
          pending := AdvanceAfter(RevealDelayMs);
        } else {
          userAnswer := "";
          pending := NoAdvance;
        }
      }
    }

    /** `goToNextQuestion`; `completed` says whether onComplete was called. */
    method GoToNextQuestion() returns (completed: bool)
      requires Invariant()
      modifies this
      ensures Invariant()
      ensures completed == IsLast(questions, old(State()))
      ensures State() == Next(questions, old(State()))
    {
      if IsLastQuestion() {
        completed := true;
      } else {
        completed := false;
        currentIndex := currentIndex + 1;
        userAnswer := "";
        isLocked := false;
        isCorrect := Unevaluated;
        showAnswer := false;
      }
    }

    /** `resetGame`. */
    method ResetGame()
      requires Invariant()
      modifies this
      ensures Invariant()
      ensures State() == InitialState()
    {
      currentIndex := 0;
      hearts := MaxHearts;
      userAnswer := "";
      isLocked := false;
      isCorrect := Unevaluated;
      showAnswer := false;
    }
  }

  // ---------------------------------------------------------------------------
  // One submission

  /** A locked session, or a blank answer, makes submitAnswer a no-op. */
  lemma SubmitIgnoredChangesNothing(questions: seq<Question>, st: GameState)
    requires st.currentIndex < |questions|
    requires st.isLocked || AllWhitespace(st.userAnswer)
    ensures Submit(questions, st) == SubmitResult(st, NoAdvance)
  {
    TrimEmptyIffAllWhitespace(st.userAnswer);
  }

  /** A matching answer locks the session as correct and schedules the short
      advance; hearts, index, typed answer and reveal flag are kept. */
  lemma SubmitCorrect(questions: seq<Question>, st: GameState)
    requires st.currentIndex < |questions| && !st.isLocked
    requires NormalizeSql(st.userAnswer) == NormalizeSql(questions[st.currentIndex].answer)
    requires !AllWhitespace(st.userAnswer)
    ensures var r := Submit(questions, st);
      && r.state.isCorrect == Correct && r.state.isLocked
      && r.state.hearts == st.hearts && r.state.currentIndex == st.currentIndex
      && r.state.userAnswer == st.userAnswer && r.state.showAnswer == st.showAnswer
      && r.pending == AdvanceAfter(1000)
  {
    TrimEmptyIffAllWhitespace(st.userAnswer);
  }

  /** A wrong answer costs exactly one heart and is marked incorrect. When the
      hearts reach exactly 0 the answer is revealed, the session locks, the
      typed text stays and the long advance is scheduled; at any other count,
      negative ones included, the text is cleared and a retry is allowed. */
  lemma SubmitWrong(questions: seq<Question>, st: GameState)
    requires st.currentIndex < |questions| && !st.isLocked
    requires NormalizeSql(st.userAnswer) != NormalizeSql(questions[st.currentIndex].answer)
    requires !AllWhitespace(st.userAnswer)
    ensures var r := Submit(questions, st);
      && r.state.isCorrect == Incorrect
      && r.state.hearts == st.hearts - 1
      && r.state.currentIndex == st.currentIndex
      && (r.state.hearts == 0 ==>
            r.state.isLocked && r.state.showAnswer && r.state.userAnswer == st.userAnswer
            && r.pending == AdvanceAfter(2000))
      && (r.state.hearts != 0 ==>
            !r.state.isLocked && r.state.showAnswer == st.showAnswer && r.state.userAnswer == ""
            && r.pending == NoAdvance)
  {
    TrimEmptyIffAllWhitespace(st.userAnswer);
  }

  /** An advance is scheduled exactly when the submission locked the session. */
  lemma SubmitSchedulesIffLocks(questions: seq<Question>, st: GameState)
    requires Valid(questions, st)
    ensures var r := Submit(questions, st);
      r.pending != NoAdvance <==> (!st.isLocked && r.state.isLocked)
  {
  }

  /** At the last question goToNextQuestion changes nothing (it only calls
      onComplete); elsewhere it moves to the next question with a fresh,
      unlocked input and the same hearts. */
  lemma NextEffect(questions: seq<Question>, st: GameState)
    requires Valid(questions, st)
    ensures var n := Next(questions, st);
      && (st.currentIndex == |questions| - 1 ==> n == st)
      && (st.currentIndex < |questions| - 1 ==>
            n == GameState(st.currentIndex + 1, st.hearts, "", false, Unevaluated, false))
  {
  }

  // ---------------------------------------------------------------------------
  // Whole plays

  /** What the player and the timers can do to a session. */
  datatype Event = Type(text: string) | SubmitPressed | Advance | ResetPressed

  function Step(questions: seq<Question>, st: GameState, e: Event): (r: GameState)
    requires Valid(questions, st)
    ensures Valid(questions, r)
  {
    match e
    case Type(text) => st.(userAnswer := text)
    case SubmitPressed => Submit(questions, st).state
    case Advance => Next(questions, st)
    case ResetPressed => InitialState()
  }

  function Run(questions: seq<Question>, st: GameState, events: seq<Event>): (r: GameState)
    requires Valid(questions, st)
    ensures Valid(questions, r)
    decreases |events|
  {
    if events == [] then st else Run(questions, Step(questions, st, events[0]), events[1..])
  }

  /** One event of a play, taken from its position in the event list. */
  lemma RunStep(questions: seq<Question>, st: GameState, events: seq<Event>, k: nat, next: GameState)
    requires Valid(questions, st) && k < |events|
    requires Step(questions, st, events[k]) == next
    ensures Run(questions, st, events[k..]) == Run(questions, next, events[k + 1..])
  {
    assert events[k..][0] == events[k];
    assert events[k..][1..] == events[k + 1..];
  }

  /** Typing an answer (at position typeAt) and submitting it (at submitAt)
      is one submission of that answer; the play resumes at resumeAt. */
  lemma TypeThenSubmit(questions: seq<Question>, st: GameState, events: seq<Event>,
                       typeAt: nat, submitAt: nat, resumeAt: nat, text: string, next: GameState)
    requires Valid(questions, st) && submitAt == typeAt + 1 && resumeAt == submitAt + 1
    requires submitAt < |events|
    requires events[typeAt] == Type(text) && events[submitAt] == SubmitPressed
    requires Submit(questions, st.(userAnswer := text)).state == next
    ensures Run(questions, st, events[typeAt..]) == Run(questions, next, events[resumeAt..])
  {
    var typed := st.(userAnswer := text);
    RunStep(questions, st, events, typeAt, typed);
    RunStep(questions, typed, events, submitAt, next);
  }

  /** A right answer typed and submitted locks the question as correct. */
  lemma RightAttempt(questions: seq<Question>, st: GameState, events: seq<Event>,
                     typeAt: nat, submitAt: nat, resumeAt: nat, text: string)
    requires Valid(questions, st) && !st.isLocked
    requires submitAt == typeAt + 1 && resumeAt == submitAt + 1 && submitAt < |events|
    requires events[typeAt] == Type(text) && events[submitAt] == SubmitPressed
    requires !AllWhitespace(text)
    requires NormalizeSql(text) == NormalizeSql(questions[st.currentIndex].answer)
    ensures Run(questions, st, events[typeAt..])
         == Run(questions, st.(userAnswer := text, isCorrect := Correct, isLocked := true), events[resumeAt..])
  {
    var typed := st.(userAnswer := text);
    SubmitCorrect(questions, typed);
    TypeThenSubmit(questions, st, events, typeAt, submitAt, resumeAt, text,
                   typed.(isCorrect := Correct, isLocked := true));
  }

  /** A wrong answer that leaves hearts (or debt) clears the input for a retry. */
  lemma RetryAttempt(questions: seq<Question>, st: GameState, events: seq<Event>,
                     typeAt: nat, submitAt: nat, resumeAt: nat, text: string)
    requires Valid(questions, st) && !st.isLocked && st.hearts != 1
    requires submitAt == typeAt + 1 && resumeAt == submitAt + 1 && submitAt < |events|
    requires events[typeAt] == Type(text) && events[submitAt] == SubmitPressed
    requires !AllWhitespace(text)
    requires NormalizeSql(text) != NormalizeSql(questions[st.currentIndex].answer)
    ensures Run(questions, st, events[typeAt..])
         == Run(questions, st.(userAnswer := "", isCorrect := Incorrect, hearts := st.hearts - 1),
                events[resumeAt..])
  {
    var typed := st.(userAnswer := text);
    SubmitWrong(questions, typed);
    TypeThenSubmit(questions, st, events, typeAt, submitAt, resumeAt, text,
                   typed.(userAnswer := "", isCorrect := Incorrect, hearts := st.hearts - 1));
  }

  /** A wrong answer that spends the last heart locks the question and reveals it. */
  lemma RevealAttempt(questions: seq<Question>, st: GameState, events: seq<Event>,
                      typeAt: nat, submitAt: nat, resumeAt: nat, text: string)
    requires Valid(questions, st) && !st.isLocked && st.hearts == 1
    requires submitAt == typeAt + 1 && resumeAt == submitAt + 1 && submitAt < |events|
    requires events[typeAt] == Type(text) && events[submitAt] == SubmitPressed
    requires !AllWhitespace(text)
    requires NormalizeSql(text) != NormalizeSql(questions[st.currentIndex].answer)
    ensures Run(questions, st, events[typeAt..])
         == Run(questions, st.(userAnswer := text, isCorrect := Incorrect, hearts := 0,
                               isLocked := true, showAnswer := true), events[resumeAt..])
  {
    var typed := st.(userAnswer := text);
    SubmitWrong(questions, typed);
    TypeThenSubmit(questions, st, events, typeAt, submitAt, resumeAt, text,
                   typed.(isCorrect := Incorrect, hearts := 0, isLocked := true, showAnswer := true));
  }

  /** An advance (at position at) before the last question enters the next
      question with the same hearts; the play resumes at resumeAt. */
  lemma AdvanceStep(questions: seq<Question>, st: GameState, events: seq<Event>, at: nat, resumeAt: nat)
    requires Valid(questions, st) && st.currentIndex + 1 < |questions|
    requires resumeAt == at + 1 && at < |events| && events[at] == Advance
    ensures Run(questions, st, events[at..])
         == Run(questions, GameState(st.currentIndex + 1, st.hearts, "", false, Unevaluated, false),
                events[resumeAt..])
  {
    RunStep(questions, st, events, at, GameState(st.currentIndex + 1, st.hearts, "", false, Unevaluated, false));
  }

  /** A session built from a non-empty question list starts valid. */
  lemma InitialValid(questions: seq<Question>)
    requires |questions| > 0
    ensures Valid(questions, InitialState())
    ensures InitialState().hearts == 2 && InitialState().currentIndex == 0
  {
  }

  /** Only a reset can raise the hearts: along any play without a reset the
      hearts never grow and the index never falls. */
  lemma {:induction false} HeartsNeverRise(questions: seq<Question>, st: GameState, events: seq<Event>)
    requires Valid(questions, st)
    requires forall i :: 0 <= i < |events| ==> !events[i].ResetPressed?
    ensures Run(questions, st, events).hearts <= st.hearts
    ensures Run(questions, st, events).currentIndex >= st.currentIndex
    decreases |events|
  {
    if events != [] {
      HeartsNeverRise(questions, Step(questions, st, events[0]), events[1..]);
    }
  }

  /** A reset at the end of any play gives back the initial state. */
  lemma {:induction false} ResetRestoresInitial(questions: seq<Question>, st: GameState, events: seq<Event>)
    requires Valid(questions, st)
    ensures Run(questions, st, events + [ResetPressed]) == InitialState()
    decreases |events|
  {
    if events == [] {
      assert [ResetPressed][1..] == [];
    } else {
      assert (events + [ResetPressed])[1..] == events[1..] + [ResetPressed];
      ResetRestoresInitial(questions, Step(questions, st, events[0]), events[1..]);
    }
  }

  /** Once the player is on a question with no hearts left (or fewer), that
      question can never reveal its answer: without an advance or a reset the
      answer stays hidden and the hearts stay at or below 0. */
  lemma {:induction false} NoRevealWithoutHearts(questions: seq<Question>, st: GameState, events: seq<Event>)
    requires Valid(questions, st) && st.hearts <= 0 && !st.showAnswer
    requires forall i :: 0 <= i < |events| ==> events[i].Type? || events[i].SubmitPressed?
    ensures !Run(questions, st, events).showAnswer
    ensures Run(questions, st, events).hearts <= 0
    ensures Run(questions, st, events).currentIndex == st.currentIndex
    decreases |events|
  {
    if events != [] {
      NoRevealWithoutHearts(questions, Step(questions, st, events[0]), events[1..]);
    }
  }

  /** The hearts are not a lower-bounded quantity: a player who loses both
      hearts on the first question enters the second with 0 hearts, and a
      wrong answer there leaves -1 hearts with the session unlocked for a retry. */
  lemma HeartsGoNegative(questions: seq<Question>, wrong: string, events: seq<Event>)
    requires |questions| >= 2
    requires !AllWhitespace(wrong)
    requires NormalizeSql(wrong) != NormalizeSql(questions[0].answer)
    requires NormalizeSql(wrong) != NormalizeSql(questions[1].answer)
    requires |events| == 7
    requires events[0] == events[2] == events[5] == Type(wrong)
    requires events[1] == events[3] == events[6] == SubmitPressed
    requires events[4] == Advance
    ensures var st := Run(questions, InitialState(), events);
      && st.currentIndex == 1 && st.hearts == -1
      && !st.isLocked && !st.showAnswer && st.isCorrect == Incorrect && st.userAnswer == ""
  {
    var s0 := InitialState();
    assert events[0..] == events;
    RetryAttempt(questions, s0, events, 0, 1, 2, wrong);
    var s2 := GameState(0, 1, "", false, Incorrect, false);
    RevealAttempt(questions, s2, events, 2, 3, 4, wrong);
    var s4 := GameState(0, 0, wrong, true, Incorrect, true);
    AdvanceStep(questions, s4, events, 4, 5);
    var s5 := GameState(1, 0, "", false, Unevaluated, false);
    RetryAttempt(questions, s5, events, 5, 6, 7, wrong);
    assert events[7..] == [];
  }

  /** A three-question play: a right first answer moves on with both hearts;
      two wrong answers on the second reveal it; the advance then enters the
      third question with 0 hearts (hearts are not restored between questions). */
  lemma ThreeQuestionPlay(questions: seq<Question>, right: string, wrong: string, events: seq<Event>)
    requires |questions| == 3
    requires !AllWhitespace(right) && !AllWhitespace(wrong)
    requires NormalizeSql(right) == NormalizeSql(questions[0].answer)
    requires NormalizeSql(wrong) != NormalizeSql(questions[1].answer)
    requires |events| == 8
    requires events[0] == Type(right) && events[3] == events[5] == Type(wrong)
    requires events[1] == events[4] == events[6] == SubmitPressed
    requires events[2] == events[7] == Advance
    ensures Run(questions, InitialState(), events) == GameState(2, 0, "", false, Unevaluated, false)
  {
    var s0 := InitialState();
    assert events[0..] == events;
    RightAttempt(questions, s0, events, 0, 1, 2, right);
    var s2 := GameState(0, 2, right, true, Correct, false);
    AdvanceStep(questions, s2, events, 2, 3);
    var s3 := GameState(1, 2, "", false, Unevaluated, false);
    RetryAttempt(questions, s3, events, 3, 4, 5, wrong);
    var s5 := GameState(1, 1, "", false, Incorrect, false);
    RevealAttempt(questions, s5, events, 5, 6, 7, wrong);
    var s7 := GameState(1, 0, wrong, true, Incorrect, true);
    AdvanceStep(questions, s7, events, 7, 8);
    assert events[8..] == [];
  }
}
