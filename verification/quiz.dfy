/**
  The question bank screen (`Questoes.jsx`): option selection, answer
  submission with its XP / streak / review-list bookkeeping, navigation, and the
  filter and shuffle applied to a loaded year. Dates are day numbers; "today"
  is a parameter and "yesterday" is `today - 1`.
 */
module Quiz {
  import opened Wrappers
  import opened Seqs
  import opened Percent
  import opened Questions

  /** The progress record kept under `sanfran-questoes-stats`. */
  datatype Stats = Stats(
    xp: nat,
    streak: nat,
    lastDate: Option<int>,
    totalAnswered: nat,
    correctCount: nat,
    wrongQuestions: seq<string>   // ids of questions last answered wrongly
  )

  /** The initial stats value. */
  const FreshStats: Stats := Stats(0, 0, None, 0, 0, [])

  /** Selection state of the question on screen. */
  datatype Ui = Ui(selected: Option<string>, submitted: bool)

  const Cleared: Ui := Ui(None, false)

  /** What the stats must always satisfy. */
  predicate ValidStats(s: Stats) {
    s.correctCount <= s.totalAnswered && NoDup(s.wrongQuestions)
  }

  /** JavaScript truthiness of the selected option key. */
  predicate HasSelection(ui: Ui) {
    ui.selected.Some? && ui.selected.value != ""
  }

  /** `handleOptionSelect`: ignored once the answer was submitted. */
  function SelectOption(ui: Ui, key: string): (r: Ui)
    ensures ui.submitted ==> r == ui
    ensures !ui.submitted ==> r.selected == Some(key) && !r.submitted
  {
    if ui.submitted then ui else ui.(selected := Some(key))
  }

  /** The streak after answering on day `today`. */
  function NextStreak(streak: nat, lastDate: Option<int>, today: int): (r: nat)
    ensures lastDate == Some(today) ==> r == streak
    ensures lastDate == Some(today - 1) ==> r == streak + 1
    ensures lastDate != Some(today) && lastDate != Some(today - 1) ==> r == 1
  {
    if lastDate == Some(today) then streak
    else if lastDate == Some(today - 1) then streak + 1
    else 1
  }

  /** The chosen option matches the answer key (a missing key matches nothing). */
  predicate IsCorrect(choice: string, q: Question) {
    q.answer == Some(choice)
  }

  /** Stats after one graded answer. */
  function Grade(s: Stats, q: Question, choice: string, today: int): (r: Stats)
    ensures r.totalAnswered == s.totalAnswered + 1
    ensures r.correctCount == s.correctCount + (if IsCorrect(choice, q) then 1 else 0)
    ensures r.xp == s.xp + (if IsCorrect(choice, q) then 10 else 2)
    ensures r.lastDate == Some(today)
    ensures r.streak == NextStreak(s.streak, s.lastDate, today)
    ensures IsCorrect(choice, q) ==> q.id !in r.wrongQuestions
    ensures !IsCorrect(choice, q) ==> q.id in r.wrongQuestions
    ensures forall x :: x != q.id ==> (x in r.wrongQuestions <==> x in s.wrongQuestions)
    ensures NoDup(s.wrongQuestions) ==> NoDup(r.wrongQuestions)
    ensures !IsCorrect(choice, q) ==> NoDup(r.wrongQuestions)
    ensures ValidStats(s) ==> ValidStats(r)
  {
    var correct := IsCorrect(choice, q);
    var wrong := if correct then Without(s.wrongQuestions, q.id) else Dedup(s.wrongQuestions + [q.id]);
    assert forall x :: x in s.wrongQuestions + [q.id] <==> x in s.wrongQuestions || x == q.id;
    WithoutKeepsNoDup(s.wrongQuestions, q.id);
    Stats(
      s.xp + (if correct then 10 else 2),
      NextStreak(s.streak, s.lastDate, today),
      Some(today),
      s.totalAnswered + 1,
      s.correctCount + (if correct then 1 else 0),
      wrong)
  }

  lemma {:induction false} WithoutKeepsNoDup<T>(s: seq<T>, x: T)
    ensures NoDup(s) ==> NoDup(Without(s, x))
  {
    if |s| > 0 && NoDup(s) {
      WithoutKeepsNoDup(s[1..], x);
      var rest := Without(s[1..], x);
      if s[0] != x {
        assert s[0] !in s[1..];
        assert s[0] !in rest;
        assert Without(s, x) == [s[0]] + rest;
      }
    }
  }

  /**
    `handleSubmit` on the question `q` on screen: nothing happens without a
    selection or after submission; otherwise the answer is graded and the
    question is marked submitted.
   */
  function Submit(ui: Ui, s: Stats, q: Question, today: int): (r: (Ui, Stats))
    ensures !HasSelection(ui) || ui.submitted ==> r == (ui, s)
    ensures HasSelection(ui) && !ui.submitted ==>
      r.0 == ui.(submitted := true) && r.1 == Grade(s, q, ui.selected.value, today)
    ensures ValidStats(s) ==> ValidStats(r.1)
  {
    if !HasSelection(ui) || ui.submitted then (ui, s)
    else (ui.(submitted := true), Grade(s, q, ui.selected.value, today))
  }

  /** A submitted question ignores further option clicks and further submits. */
  lemma SubmittedIsFrozen(ui: Ui, s: Stats, q: Question, today: int, key: string)
    requires HasSelection(ui) && !ui.submitted
    ensures var (ui', s') := Submit(ui, s, q, today);
      SelectOption(ui', key) == ui' && Submit(ui', s', q, today + 1) == (ui', s')
  {
  }

  /** One answered question in a history of interactions. */
  datatype Answer = Answer(q: Question, choice: string, day: int)

  /** Grades a whole history of answers, oldest first. */
  function Replay(s: Stats, history: seq<Answer>): Stats
    decreases |history|
  {
    if |history| == 0 then s
    else Replay(Grade(s, history[0].q, history[0].choice, history[0].day), history[1..])
  }

  /** Every answer counts once, correct ones once more, and the invariant survives any history. */
  lemma {:induction false} ReplayCounts(s: Stats, history: seq<Answer>)
    requires ValidStats(s)
    ensures ValidStats(Replay(s, history))
    ensures Replay(s, history).totalAnswered == s.totalAnswered + |history|
    ensures Replay(s, history).correctCount ==
      s.correctCount + Count(history, (a: Answer) => IsCorrect(a.choice, a.q))
    decreases |history|
  {
    if |history| > 0 {
      var s' := Grade(s, history[0].q, history[0].choice, history[0].day);
      ReplayCounts(s', history[1..]);
    }
  }

  /** `nextQuestion`: advance unless on the last question, clearing the selection. */
  function NextQuestion(index: nat, count: nat, ui: Ui): (r: (nat, Ui))
    ensures index + 1 < count ==> r == (index + 1, Cleared)
    ensures index + 1 >= count ==> r == (index, ui)
    ensures index < count ==> r.0 < count
  {
    if index < count - 1 then (index + 1, Cleared) else (index, ui)
  }

  /** The bank shows a question only when it has an explanation whose theory is not "Pendente". */
  predicate ShownInBank(q: Question) {
    q.explanation.Some? && q.explanation.value.theory != Some(Pending)
  }

  /** The filter applied to a loaded year. */
  function EnrichedOnly(qs: seq<Question>): (r: seq<Question>)
    ensures forall i :: 0 <= i < |r| ==> ShownInBank(r[i]) && r[i] in qs
    ensures forall i :: 0 <= i < |qs| && ShownInBank(qs[i]) ==> qs[i] in r
    ensures |r| <= |qs|
  {
    Filter(qs, ShownInBank)
  }

  /** The filter keeps the questions' order: it works question by question, keeping exactly those shown in the bank. */
  lemma EnrichedOnlyInOrder(a: seq<Question>, b: seq<Question>, q: Question)
    ensures EnrichedOnly(a + b) == EnrichedOnly(a) + EnrichedOnly(b)
    ensures EnrichedOnly([q]) == if ShownInBank(q) then [q] else []
  {
    FilterConcat(a, b, ShownInBank);
    assert [q][1..] == [];
  }

  /**
    A shuffle driven by random draws: each draw picks one of the remaining
    elements. The source sorts with a random comparator; all that is relied on
    is that the outcome is some ordering of the same questions.
   */
  function Shuffle<T>(s: seq<T>, draws: seq<nat>): (r: seq<T>)
    ensures multiset(r) == multiset(s)
    ensures |r| == |s|
    decreases |s|
  {
    if |s| == 0 then []
    else
      var j := (if |draws| > 0 then draws[0] else 0) % |s|;
      assert s == s[..j] + [s[j]] + s[j + 1..];
      [s[j]] + Shuffle(s[..j] + s[j + 1..], if |draws| > 0 then draws[1..] else [])
  }

  /** The screen state right after a year is loaded. */
  datatype Bank = Bank(questions: seq<Question>, index: nat, ui: Ui)

  function Load(data: seq<Question>, draws: seq<nat>): (r: Bank)
    ensures multiset(r.questions) == multiset(EnrichedOnly(data))
    ensures forall i :: 0 <= i < |r.questions| ==> ShownInBank(r.questions[i])
    ensures r.index == 0 && r.ui == Cleared
  {
    var shown := EnrichedOnly(data);
    var order := Shuffle(shown, draws);
    assert forall i :: 0 <= i < |order| ==> order[i] in multiset(shown);
    Bank(order, 0, Cleared)
  }

  /** The accuracy badge: 0 before any answer, otherwise the rounded percentage correct. */
  function Accuracy(s: Stats): (r: int)
    ensures s.totalAnswered == 0 ==> r == 0
    ensures s.totalAnswered > 0 ==>
      2 * s.totalAnswered * r <= 200 * s.correctCount + s.totalAnswered < 2 * s.totalAnswered * r + 2 * s.totalAnswered
    ensures ValidStats(s) ==> 0 <= r <= 100
  {
    if s.totalAnswered > 0 then RoundPercent(s.correctCount, s.totalAnswered) else 0
  }
}
