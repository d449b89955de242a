/** The quiz-attempt page: wait for the quiz to start, answer the questions against a
    countdown under an anti-cheat watcher, submit.

    Every callback the page installs (the 3-second poll, the 1-second countdown tick, window
    blur, visibility change, option and button clicks, the settling of the submit request)
    is an `Event`. `Step` says what each one does to the page's `State`; `Enabled` says when
    the page can deliver it (the interval or the listener is installed, the button is on
    screen). The class `Session` holds the same state in fields, as the page's module-level
    variables, and has one method per callback whose new state is `Step` of the old one. */
module Attempt {
  import opened Wrappers
  import opened Text
  import JsArray

  /** A question as the quiz service sends it; the answer key is not sent. */
  datatype Question = Question(text: string, options: seq<string>)

  /** Which screen is up. `Quiz` is the live quiz and also the quiz screen left after a
      submit request failed (the countdown and the anti-cheat listeners are then detached). */
  datatype Phase = Waiting | Quiz | Submitting | Thanks

  /** One poll of the questions endpoint: the request or its JSON parsing threw, or a reply
      with its `ok` flag, its question list (absent when the field is missing) and its end
      time in milliseconds. */
  datatype PollResponse =
    | PollFailed
    | PollReply(ok: bool, questions: Option<seq<Question>>, endTime: int)

  datatype Event =
    | PollTick(response: PollResponse)   // the poll interval fires and its request settles
    | TimerTick(now: int)                // the countdown interval fires at time `now` (ms)
    | Blur                               // window blur
    | VisibilityChange(hidden: bool)     // visibilitychange, with `document.hidden`
    | ClickOption(option: nat)           // a click on option `option` of the shown question
    | ClickNext                          // the primary button while it reads "Next"
    | ClickPrev                          // the "Previous" button while it is enabled
    | ClickSubmit(confirmed: bool)       // the primary button while it reads "Submit", and the answer to the prompt
    | SubmitReply(resolved: bool)        // the submit request resolves (any status) or rejects

  /** The page's module-level variables. `polling`, `timerOn` and `antiCheatOn` say whether the
      poll interval, the countdown interval and the anti-cheat handlers are installed;
      `joinerStored` whether the joiner record is still in local storage; `timerLeft` the
      milliseconds left when the countdown element was last drawn (0 before the first draw), so
      that the element shows `CountdownText`. `answers` is the sparse answers array (see `JsArray`). */
  datatype State = State(
    phase: Phase,
    questions: seq<Question>,
    answers: seq<Option<nat>>,
    index: nat,
    endTime: int,
    warnings: nat,
    polling: bool,
    timerOn: bool,
    antiCheatOn: bool,
    joinerStored: bool,
    timerLeft: int)

  /** Violations after which the quiz is submitted. */
  const WarningLimit: nat := 3

  /** The state when the page has loaded with a quiz code and a joiner record. */
  const Initial := State(Waiting, [], [], 0, 0, 0, true, false, false, true, 0)

  /** What holds in every state the page can reach. */
  ghost predicate ValidState(st: State) {
    && (st.phase == Waiting ==>
          && st.polling && st.questions == [] && st.answers == [] && st.index == 0
          && st.warnings == 0 && !st.timerOn && !st.antiCheatOn)
    && (st.phase != Waiting ==>
          && !st.polling && 0 < |st.questions| && st.index < |st.questions|
          && |st.answers| <= |st.questions|)
    && st.timerOn == st.antiCheatOn
    && (st.antiCheatOn ==> st.phase == Quiz && st.warnings < WarningLimit)
    && st.warnings <= WarningLimit
    && (st.joinerStored <==> st.phase != Thanks)
    && (forall k :: 0 <= k < |st.answers| && st.answers[k].Some? ==>
          k < |st.questions| && st.answers[k].value < |st.questions[k].options|)
  }

  lemma InitialValid()
    ensures ValidState(Initial)
  {
  }

  // ---------------------------------------------------------------------------------------
  // Navigation

  /** `nextQuestion`: one forward unless on the last question. */
  function NextIndex(i: nat, n: nat): nat {
    if i < n - 1 then i + 1 else i
  }

  /** `prevQuestion`: one back unless on the first question. */
  function PrevIndex(i: nat): nat {
    if i > 0 then i - 1 else i
  }

  /** The "Previous" button is rendered disabled. */
  predicate PrevDisabled(i: nat) {
    i == 0
  }

  datatype PrimaryButton = NextButton | SubmitButton

  /** The second navigation button: "Submit Quiz" (calling `confirmSubmit`) on the last
      question, "Next" elsewhere. */
  function Primary(i: nat, n: nat): PrimaryButton {
    if i == n - 1 then SubmitButton else NextButton
  }

  /** The buttons offer exactly the moves that do something: "Previous" is disabled exactly
      when going back is a no-op, and "Next" is replaced by "Submit" exactly when going forward
      is one. */
  lemma NavigationButtonsMatchMoves(i: nat, n: nat)
    requires i < n
    ensures PrevDisabled(i) <==> PrevIndex(i) == i
    ensures Primary(i, n) == SubmitButton <==> NextIndex(i, n) == i
    ensures Primary(i, n) == NextButton ==> NextIndex(i, n) == i + 1
  {
  }

  datatype Move = Forward | Back

  function Walk(i: nat, n: nat, moves: seq<Move>): nat
    decreases |moves|
  {
    if moves == [] then i
    else Walk(if moves[0] == Forward then NextIndex(i, n) else PrevIndex(i), n, moves[1..])
  }

  /** Whatever next/previous calls are made, in whatever order, the cursor stays on a question. */
  lemma {:induction false} WalkInBounds(i: nat, n: nat, moves: seq<Move>)
    requires i < n
    ensures Walk(i, n, moves) < n
    decreases |moves|
  {
    if moves != [] {
      WalkInBounds(if moves[0] == Forward then NextIndex(i, n) else PrevIndex(i), n, moves[1..]);
    }
  }

  // ---------------------------------------------------------------------------------------
  // Countdown

  lemma MulAtLeast(d: int, k: int)
    requires d > 0 && k >= 1
    ensures d * k >= d
  {
  }

  /** Quotient and remainder are determined by `a == d * q + r` with `0 <= r < d`. */
  lemma DivUnique(a: int, d: int, q: int, r: int)
    requires d > 0 && 0 <= r < d && a == d * q + r
    ensures a / d == q && a % d == r
  {
    var q', r' := a / d, a % d;
    assert d * (q' - q) == r - r';
    if q' - q >= 1 {
      MulAtLeast(d, q' - q);
    } else if q - q' >= 1 {
      MulAtLeast(d, q - q');
    }
  }

  /** The minutes and seconds the countdown shows with `diff` milliseconds left: whole minutes,
      then the whole seconds of the rest, which together are the whole seconds left. */
  function Countdown(diff: int): (ms: (nat, nat))
    requires diff > 0
    ensures ms.1 < 60
    ensures 60 * ms.0 + ms.1 == diff / 1000
  {
    var m, rest := diff / 60000, diff % 60000;
    var s := rest / 1000;
    DivUnique(rest, 1000, s, rest % 1000);
    DivUnique(diff, 1000, 60 * m + s, rest % 1000);
    (m, s)
  }

  /** The text before the minutes. */
  const TimerPrefix := "\U{23F1} "

  /** The countdown display, `⏱ m:ss`. */
  function TimerText(diff: int): string
    requires diff > 0
  {
    var ms := Countdown(diff);
    TimerPrefix + NatToString(ms.0) + ":" + PadStart(NatToString(ms.1), 2, '0')
  }

  /** What the countdown element shows: nothing before the first draw. */
  function CountdownText(st: State): string {
    if st.timerLeft > 0 then TimerText(st.timerLeft) else ""
  }

  lemma TwoDigits(s: nat)
    requires s < 100
    ensures var p := PadStart(NatToString(s), 2, '0');
            |p| == 2 && AllDigits(p) && ParseNat(p) == s
  {
    var t := NatToString(s);
    var p := PadStart(t, 2, '0');
    ParseNatToString(s);
    if s < 10 {
      assert p == "0" + t;
      ParseNatLeadingZero(t);
    } else {
      assert |t| == 2;
    }
  }

  lemma SplitTimer(p: string, a: string, b: string)
    requires |b| == 2
    ensures var t := p + a + ":" + b;
            && t[..|p|] == p && t[|p|..|t| - 3] == a && t[|t| - 3] == ':' && t[|t| - 2..] == b
  {
    var t := p + a + ":" + b;
    assert t == p + (a + (":" + b));
  }

  /** The minutes field of the display is the decimal rendering of the whole minutes. */
  lemma TimerMinutes(diff: int)
    requires diff > 0
    ensures var t := TimerText(diff);
            && |t| >= |TimerPrefix| + 4
            && t[|TimerPrefix|..|t| - 3] == NatToString(Countdown(diff).0)
  {
    var ms := Countdown(diff);
    var mins, secs := NatToString(ms.0), PadStart(NatToString(ms.1), 2, '0');
    TwoDigits(ms.1);
    SplitTimer(TimerPrefix, mins, secs);
    assert TimerText(diff) == TimerPrefix + mins + ":" + secs;
  }

  /** Read back, the display gives minutes and two-digit seconds below 60 whose total is the
      whole number of seconds left; the minutes are written without a leading zero. */
  lemma TimerTextReadsBack(diff: int)
    requires diff > 0
    ensures var t := TimerText(diff);
            && |t| >= |TimerPrefix| + 4
            && t[..|TimerPrefix|] == TimerPrefix
            && t[|t| - 3] == ':'
            && AllDigits(t[|TimerPrefix|..|t| - 3]) && AllDigits(t[|t| - 2..])
            && ParseNat(t[|t| - 2..]) < 60
            && 60 * ParseNat(t[|TimerPrefix|..|t| - 3]) + ParseNat(t[|t| - 2..]) == diff / 1000
            && t[|TimerPrefix|..|t| - 3] == NatToString(Countdown(diff).0)
            && (|t| > |TimerPrefix| + 4 ==> t[|TimerPrefix|] != '0')
  {
    TimerMinutes(diff);
    var t := TimerText(diff);
    var m := t[|TimerPrefix|..|t| - 3];
    assert m[0] == t[|TimerPrefix|];
    assert |t| > |TimerPrefix| + 4 ==> |m| > 1;
    var ms := Countdown(diff);
    var mins, secs := NatToString(ms.0), PadStart(NatToString(ms.1), 2, '0');
    TwoDigits(ms.1);
    ParseNatToString(ms.0);
    SplitTimer(TimerPrefix, mins, secs);
    assert TimerText(diff) == TimerPrefix + mins + ":" + secs;
  }

  // ---------------------------------------------------------------------------------------
  // The unanswered count and the confirmation prompt

  /** `questions.length - answers.filter(a => a !== undefined).length`. */
  function Unanswered(n: nat, answers: seq<Option<nat>>): int {
    n - JsArray.CountDefined(answers)
  }

  /** The number of the first `n` questions whose slot reads as `undefined`. */
  function MissingBelow(answers: seq<Option<nat>>, n: nat): nat {
    if n == 0 then 0
    else MissingBelow(answers, n - 1) + (if JsArray.Get(answers, n - 1).None? then 1 else 0)
  }

  lemma {:induction false} MissingBelowPrefix(a: seq<Option<nat>>, m: nat)
    requires m <= |a|
    ensures MissingBelow(a, m) == m - JsArray.CountDefined(a[..m])
  {
    if m > 0 {
      MissingBelowPrefix(a, m - 1);
      assert a[..m][..m - 1] == a[..m - 1];
    }
  }

  /** The count in the prompt is the number of questions left unanswered, so it is never
      negative and never more than the number of questions. */
  lemma {:induction false} UnansweredIsMissing(answers: seq<Option<nat>>, n: nat)
    requires |answers| <= n
    ensures Unanswered(n, answers) == MissingBelow(answers, n)
    ensures 0 <= Unanswered(n, answers) <= n
    decreases n
  {
    if n == |answers| {
      MissingBelowPrefix(answers, n);
      assert answers[..n] == answers;
    } else {
      UnansweredIsMissing(answers, n - 1);
    }
  }

  const ConfirmQuestion := "Are you sure you want to submit your quiz?"

  /** The text of the confirmation prompt: the bare question when nothing is unanswered, else
      followed by the count, with "questions" plural when it is more than one. */
  function ConfirmMessage(unanswered: int): (msg: string)
    ensures |msg| >= |ConfirmQuestion|
    ensures msg == ConfirmQuestion <==> unanswered <= 0
    ensures unanswered > 0 ==> msg[|msg| - 2] == (if unanswered > 1 then 's' else 'n')
  {
    if unanswered > 0 then
      ConfirmQuestion + CountIntro + NatToString(unanswered) + CountTail(unanswered)
    else
      ConfirmQuestion
  }

  /** The text between the question and the count. */
  const CountIntro := "\n\nYou have "

  /** The text after the count: "question" in the plural for more than one. */
  function CountTail(n: int): string {
    if n > 1 then " unanswered questions." else " unanswered question."
  }

  lemma SplitAround(p: string, d: string, t: string)
    ensures var m := p + d + t;
            && m[..|p|] == p && m[|p|..|m| - |t|] == d && m[|m| - |t|..] == t
  {
    var m := p + d + t;
    assert m == p + (d + t);
  }

  /** Read back, a prompt with questions left unanswered is the question, then "You have ",
      then digits that read as the number left unanswered, then "unanswered question" with
      the plural exactly for more than one. */
  lemma ConfirmMessageReadsBack(unanswered: int)
    requires unanswered > 0
    ensures var msg, head, tail := ConfirmMessage(unanswered), ConfirmQuestion + CountIntro, CountTail(unanswered);
            && |msg| > |head| + |tail|
            && msg[..|head|] == head
            && msg[|msg| - |tail|..] == tail
            && AllDigits(msg[|head|..|msg| - |tail|])
            && ParseNat(msg[|head|..|msg| - |tail|]) == unanswered
    ensures CountTail(unanswered) == if unanswered > 1 then " unanswered questions." else " unanswered question."
  {
    var head, digits, tail := ConfirmQuestion + CountIntro, NatToString(unanswered), CountTail(unanswered);
    ParseNatToString(unanswered);
    SplitAround(head, digits, tail);
    assert ConfirmMessage(unanswered) == head + digits + tail;
  }

  // ---------------------------------------------------------------------------------------
  // The transitions

  /** The poll sees a started quiz: an ok reply with a non-empty question list. */
  predicate Started(response: PollResponse) {
    response.PollReply? && response.ok && response.questions.Some?
    && |response.questions.value| > 0
  }

  /** `submit` up to the issue of its request: the countdown is cleared, the anti-cheat
      handlers are removed, and the request carries the answers as they are. */
  function SubmitStep(st: State): State {
    st.(phase := Submitting, timerOn := false, antiCheatOn := false)
  }

  /** `warn`: one more violation; reaching the limit submits. */
  function WarnStep(st: State): State {
    var w := st.(warnings := st.warnings + 1);
    if w.warnings >= WarningLimit then SubmitStep(w) else w
  }

  /** The option at `k` is drawn as selected for the shown question. */
  predicate IsActiveOption(st: State, k: nat) {
    JsArray.Get(st.answers, st.index) == Some(k)
  }

  function Step(st: State, e: Event): State {
    match e
    case PollTick(response) =>
      if Started(response) then
        st.(phase := Quiz, questions := response.questions.value, endTime := response.endTime,
            polling := false, timerOn := true, antiCheatOn := true)
      else st
    case TimerTick(now) =>
      var diff := st.endTime - now;
      if diff <= 0 then SubmitStep(st) else st.(timerLeft := diff)
    case Blur => WarnStep(st)
    case VisibilityChange(hidden) => if hidden then WarnStep(st) else st
    case ClickOption(option) => st.(answers := JsArray.Assign(st.answers, st.index, option))
    case ClickNext => st.(index := NextIndex(st.index, |st.questions|))
    case ClickPrev => st.(index := PrevIndex(st.index))
    case ClickSubmit(confirmed) => if confirmed then SubmitStep(st) else st
    case SubmitReply(resolved) =>
      if resolved then st.(phase := Thanks, joinerStored := false) else st.(phase := Quiz)
  }

  /** The page can deliver `e` in `st`: its interval or listener is installed, or the element
      clicked is on screen. */
  predicate Enabled(st: State, e: Event) {
    match e
    case PollTick(_) => st.polling
    case TimerTick(_) => st.timerOn
    case Blur => st.antiCheatOn
    case VisibilityChange(_) => st.antiCheatOn
    case ClickOption(option) =>
      st.phase == Quiz && st.index < |st.questions| && option < |st.questions[st.index].options|
    case ClickNext => st.phase == Quiz && Primary(st.index, |st.questions|) == NextButton
    case ClickPrev => st.phase == Quiz && !PrevDisabled(st.index)
    case ClickSubmit(_) => st.phase == Quiz && Primary(st.index, |st.questions|) == SubmitButton
    case SubmitReply(_) => st.phase == Submitting
  }

  /** Every event the page can deliver keeps the state valid. */
  lemma StepPreservesValid(st: State, e: Event)
    requires ValidState(st) && Enabled(st, e)
    ensures ValidState(Step(st, e))
  {
    if e.ClickOption? {
      var st' := Step(st, e);
      forall k | 0 <= k < |st'.answers| && st'.answers[k].Some?
        ensures k < |st'.questions| && st'.answers[k].value < |st'.questions[k].options|
      {
        assert JsArray.Get(st'.answers, k) == st'.answers[k];
        if k != st.index {
          assert JsArray.Get(st.answers, k) == st'.answers[k];
        }
      }
    }
  }

  function Run(st: State, events: seq<Event>): State
    decreases |events|
  {
    if events == [] then st else Run(Step(st, events[0]), events[1..])
  }

  /** Every event of `events` is deliverable when its turn comes. */
  predicate Admissible(st: State, events: seq<Event>)
    decreases |events|
  {
    events == [] || (Enabled(st, events[0]) && Admissible(Step(st, events[0]), events[1..]))
  }

  /** Any sequence of deliverable events keeps the state valid; in particular, once the
      questions are loaded the cursor is always on a question and the anti-cheat watcher has
      never counted past the limit. */
  lemma {:induction false} RunPreservesValid(st: State, events: seq<Event>)
    requires ValidState(st) && Admissible(st, events)
    ensures ValidState(Run(st, events))
    decreases |events|
  {
    if events != [] {
      StepPreservesValid(st, events[0]);
      RunPreservesValid(Step(st, events[0]), events[1..]);
    }
  }

  /** While waiting, a poll changes the state exactly when it sees a started quiz; a failed,
      non-ok, question-less or empty reply leaves everything as it was. A started quiz loads
      its questions and end time, stops polling and installs the countdown and anti-cheat. */
  lemma PollStartsOnlyOnQuestions(st: State, response: PollResponse)
    requires ValidState(st) && st.phase == Waiting
    ensures Step(st, PollTick(response)) != st <==> Started(response)
    ensures Started(response) ==>
              var st' := Step(st, PollTick(response));
              && st'.phase == Quiz && st'.questions == response.questions.value
              && st'.endTime == response.endTime && !st'.polling && st'.timerOn && st'.antiCheatOn
              && st'.answers == [] && st'.index == 0 && st'.warnings == 0
  {
  }

  /** Clicking an option records it in the slot of the shown question only; it becomes the one
      option drawn as selected, and the unanswered count drops by one exactly when that slot
      was empty. */
  lemma ClickOptionSetsOneSlot(st: State, option: nat)
    requires ValidState(st) && Enabled(st, ClickOption(option))
    ensures var st' := Step(st, ClickOption(option));
            && (forall k :: JsArray.Get(st'.answers, k) ==
                              if k == st.index then Some(option) else JsArray.Get(st.answers, k))
            && (forall k :: IsActiveOption(st', k) <==> k == option)
            && Unanswered(|st'.questions|, st'.answers) ==
                 Unanswered(|st.questions|, st.answers) - (if JsArray.Get(st.answers, st.index).None? then 1 else 0)
            && st'.index == st.index && st'.phase == st.phase
  {
    JsArray.CountDefinedAssign(st.answers, st.index, option);
  }

  /** A run of next/previous clicks changes nothing but the cursor, which stays on a question:
      answers given are kept when navigating away and back. */
  lemma {:induction false} NavigationKeepsAnswers(st: State, events: seq<Event>)
    requires ValidState(st) && st.phase == Quiz && Admissible(st, events)
    requires forall j :: 0 <= j < |events| ==> events[j] == ClickNext || events[j] == ClickPrev
    ensures Run(st, events) == st.(index := Run(st, events).index)
    ensures Run(st, events).index < |st.questions|
    decreases |events|
  {
    if events == [] {
      assert Run(st, events) == st;
    } else {
      assert events[0] == ClickNext || events[0] == ClickPrev;
      StepPreservesValid(st, events[0]);
      var st' := Step(st, events[0]);
      assert st' == st.(index := st'.index);
      assert forall j :: 0 <= j < |events[1..]| ==> events[1..][j] == events[j + 1];
      NavigationKeepsAnswers(st', events[1..]);
      assert Run(st, events) == Run(st', events[1..]);
    }
  }

  /** A tick with no time left submits: the countdown and the watcher are detached and the
      answers go out as they are. */
  lemma TickSubmitsWhenTimeIsUp(st: State, now: int)
    requires ValidState(st) && Enabled(st, TimerTick(now)) && st.endTime - now <= 0
    ensures Step(st, TimerTick(now)) == SubmitStep(st) && ValidState(SubmitStep(st))
    ensures Step(st, TimerTick(now)).phase == Submitting
    ensures !Enabled(Step(st, TimerTick(now)), TimerTick(now))
  {
  }

  /** A tick with time left only redraws the countdown, with the minutes and seconds left. */
  lemma TickRedraws(st: State, now: int)
    requires ValidState(st) && Enabled(st, TimerTick(now)) && st.endTime - now > 0
    ensures Step(st, TimerTick(now)) == st.(timerLeft := st.endTime - now)
    ensures CountdownText(Step(st, TimerTick(now))) != ""
    ensures ValidState(Step(st, TimerTick(now)))
    ensures Enabled(Step(st, TimerTick(now)), TimerTick(now + 1000))
  {
  }

  /** Each violation counts one; the first and second only warn and keep the watcher armed,
      the one that reaches the limit submits. The visibility handler counts only when the
      document is hidden. */
  lemma WarnEscalates(st: State, e: Event)
    requires ValidState(st) && Enabled(st, e) && (e.Blur? || e.VisibilityChange?)
    ensures var st' := Step(st, e);
            && (e.VisibilityChange? && !e.hidden ==> st' == st)
            && (e.Blur? || e.hidden ==>
                  && st'.warnings == st.warnings + 1
                  && (st'.warnings < WarningLimit ==> st' == st.(warnings := st.warnings + 1))
                  && (st'.warnings == WarningLimit ==> st' == SubmitStep(st.(warnings := WarningLimit))))
  {
  }

  /** Once submit has issued its request, neither the countdown nor a violation nor the poll
      can fire again, so none of them can re-enter `submit`. */
  lemma SubmitDetachesEverything(st: State, e: Event)
    requires ValidState(st) && st.phase == Quiz
    requires e.TimerTick? || e.Blur? || e.VisibilityChange? || e.PollTick?
    ensures !Enabled(SubmitStep(st), e)
    ensures SubmitStep(st).answers == st.answers
  {
  }

  /** A resolved request, whatever its status, shows the thank-you screen and drops the joiner
      record; a rejected one goes back to the quiz screen with the answers kept and neither the
      countdown nor the watcher reinstalled, from where "Submit" can be clicked again. */
  lemma SubmitReplyOutcome(st: State, resolved: bool)
    requires ValidState(st) && Enabled(st, SubmitReply(resolved))
    ensures var st' := Step(st, SubmitReply(resolved));
            && (resolved ==> st'.phase == Thanks && !st'.joinerStored)
            && (!resolved ==>
                  st'.phase == Quiz && st'.answers == st.answers
                  && !st'.timerOn && !st'.antiCheatOn && st'.joinerStored)
  {
  }

  /** The thank-you screen is final: no event can be delivered there. */
  lemma ThanksIsFinal(st: State, e: Event)
    requires ValidState(st) && st.phase == Thanks
    ensures !Enabled(st, e)
  {
  }

  /** The worked example: one question "2+2?" with options 3, 4, 5, 6; the participant picks
      the second option and confirms submission; the request carries answer 1 for question 0. */
  lemma ExampleSubmission()
    ensures var q := Question("2+2?", ["3", "4", "5", "6"]);
            var events := [PollTick(PollReply(true, Some([q]), 600000)), ClickOption(1), ClickSubmit(true)];
            && Admissible(Initial, events)
            && Run(Initial, events).phase == Submitting
            && Run(Initial, events).answers == [Some(1)]
  {
    var q := Question("2+2?", ["3", "4", "5", "6"]);
    var events := [PollTick(PollReply(true, Some([q]), 600000)), ClickOption(1), ClickSubmit(true)];
    var s1 := Step(Initial, events[0]);
    assert s1.questions == [q] && s1.index == 0 && s1.phase == Quiz;
    var s2 := Step(s1, events[1]);
    assert s2.answers == [Some(1)];
    var s3 := Step(s2, events[2]);
    assert s3.phase == Submitting && s3.answers == [Some(1)];
    assert events[1..][1..] == [events[2]] && events[1..][1..][1..] == [];
    assert Run(s3, []) == s3;
    assert Run(Initial, events) == Run(s1, events[1..]) == Run(s2, events[1..][1..]) == Run(s3, []);
    assert Admissible(s3, []);
    assert Admissible(Initial, events);
  }

  // ---------------------------------------------------------------------------------------
  // The page's state, updated in place

  class Session {
    var phase: Phase
    var questions: seq<Question>
    var answers: seq<Option<nat>>
    var index: nat
    var endTime: int
    var warnings: nat
    var polling: bool
    var timerOn: bool
    var antiCheatOn: bool
    var joinerStored: bool
    var timerLeft: int

    function Snapshot(): State
      reads this
    {
      State(phase, questions, answers, index, endTime, warnings, polling, timerOn, antiCheatOn,
            joinerStored, timerLeft)
    }

    ghost predicate Valid()
      reads this
    {
      ValidState(Snapshot())
    }

    /** The page as loaded: waiting screen up, poll interval installed. */
    constructor ()
      ensures Valid() && Snapshot() == Initial
    {
      phase, questions, answers, index, endTime, warnings := Waiting, [], [], 0, 0, 0;
      polling, timerOn, antiCheatOn, joinerStored, timerLeft := true, false, false, true, 0;
    }

    /** `setupAntiCheat`: blur, visibility, context-menu and copy handlers installed. */
    method SetupAntiCheat()
      modifies this
      ensures Snapshot() == old(Snapshot()).(antiCheatOn := true)
    {
      antiCheatOn := true;
    }

    /** `removeAntiCheat`: all four handlers detached. */
    method RemoveAntiCheat()
      modifies this
      ensures Snapshot() == old(Snapshot()).(antiCheatOn := false)
    {
      antiCheatOn := false;
    }

    /** `startTimer`: the countdown interval installed. */
    method StartTimer()
      modifies this
      ensures Snapshot() == old(Snapshot()).(timerOn := true)
    {
      timerOn := true;
    }

    /** One run of the poll callback, with the outcome of its request. */
    method Poll(response: PollResponse)
      requires Valid() && polling
      modifies this
      ensures Valid() && Snapshot() == Step(old(Snapshot()), PollTick(response))
    {
      StepPreservesValid(Snapshot(), PollTick(response));
      if response.PollFailed? || !response.ok {
        return;
      }
      if response.questions.Some? && |response.questions.value| > 0 {
        polling := false;
        questions := response.questions.value;
        endTime := response.endTime;
        phase := Quiz;
        SetupAntiCheat();
        StartTimer();
      }
    }

    /** One run of the countdown callback at time `now`; `submitted` when it called `submit`. */
    method Tick(now: int) returns (submitted: bool)
      requires Valid() && timerOn
      modifies this
      ensures Valid() && Snapshot() == Step(old(Snapshot()), TimerTick(now))
      ensures submitted <==> old(endTime) - now <= 0
    {
      ghost var st := Snapshot();
      var diff := endTime - now;
      if diff <= 0 {
        TickSubmitsWhenTimeIsUp(st, now);
        var _ := Submit();
        return true;
      }
      TickRedraws(st, now);
      timerLeft := diff;
      return false;
    }

    /** The option click handler: `answers[index] = option`. */
    method SelectOption(option: nat)
      requires Valid() && phase == Quiz && option < |questions[index].options|
      modifies this
      ensures Valid() && Snapshot() == Step(old(Snapshot()), ClickOption(option))
    {
      StepPreservesValid(Snapshot(), ClickOption(option));
      answers := JsArray.Assign(answers, index, option);
    }

    method NextQuestion()
      requires Valid() && phase == Quiz
      modifies this
      ensures Valid() && Snapshot() == Step(old(Snapshot()), ClickNext)
    {
      if index < |questions| - 1 {
        index := index + 1;
      }
    }

    method PrevQuestion()
      requires Valid() && phase == Quiz
      modifies this
      ensures Valid() && Snapshot() == Step(old(Snapshot()), ClickPrev)
    {
      if index > 0 {
        index := index - 1;
      }
    }

    /** `confirmSubmit`, with the participant's answer to the prompt: returns the prompt shown
      and whether `submit` was called. */
    method ConfirmSubmit(confirmed: bool) returns (message: string, submitted: bool)
      requires Valid() && phase == Quiz
      modifies this
      ensures Valid() && Snapshot() == Step(old(Snapshot()), ClickSubmit(confirmed))
      ensures message == ConfirmMessage(Unanswered(|old(questions)|, old(answers)))
      ensures submitted == confirmed
    {
      message := ConfirmMessage(Unanswered(|questions|, answers));
      submitted := confirmed;
      if confirmed {
        var _ := Submit();
      }
    }

    /** `submit` up to the issue of its request; returns the answers the request carries. */
    method Submit() returns (sent: seq<Option<nat>>)
      modifies this
      ensures Snapshot() == SubmitStep(old(Snapshot()))
      ensures sent == old(answers)
    {
      timerOn := false;
      RemoveAntiCheat();
      phase := Submitting;
      sent := answers;
    }

    /** The settling of the submit request: resolved (whatever its status) or rejected. */
    method SubmitSettled(resolved: bool)
      requires Valid() && phase == Submitting
      modifies this
      ensures Valid() && Snapshot() == Step(old(Snapshot()), SubmitReply(resolved))
    {
      if resolved {
        phase := Thanks;
        joinerStored := false;
      } else {
        phase := Quiz;
      }
    }

    /** `warn`, installed as `window.onblur`; `forced` when it called `submit`. */
    method Warn() returns (forced: bool)
      requires Valid() && antiCheatOn
      modifies this
      ensures Valid() && Snapshot() == Step(old(Snapshot()), Blur)
      ensures forced <==> warnings == WarningLimit
    {
      StepPreservesValid(Snapshot(), Blur);
      warnings := warnings + 1;
      forced := warnings >= WarningLimit;
      if forced {
        var _ := Submit();
      }
    }

    /** `handleVisibilityChange`, with `document.hidden`. */
    method HandleVisibilityChange(hidden: bool)
      requires Valid() && antiCheatOn
      modifies this
      ensures Valid() && Snapshot() == Step(old(Snapshot()), VisibilityChange(hidden))
    {
      if hidden {
        var _ := Warn();
      }
    }

    /** The context-menu and copy handlers: the default action is prevented exactly while the
        anti-cheat handlers are installed, which is only during the live quiz. */
    method PreventsCopy() returns (prevented: bool)
      requires Valid()
      ensures prevented == antiCheatOn
      ensures prevented ==> phase == Quiz && warnings < WarningLimit
    {
      prevented := antiCheatOn;
    }
  }
}
