/** The quiz-authoring page: a question editor over an in-place list, and the validation and
    payload of the quiz-creation request.

    The page keeps three module-level variables, held here as the fields of `Editor`: the list
    of questions (a JavaScript array that index assignment can grow with holes, see `JsArray`),
    the index of the question being edited (`null` when adding) and the flag that blocks a second
    creation request while one is running. The form's inputs are the parameters of the methods. */
module Create {
  import opened Wrappers
  import opened Text
  import opened HtmlEscape
  import JsArray

  /** A question as the author saves it: text, four options, the index of the correct one. */
  datatype Question = Question(text: string, options: seq<string>, correctIndex: nat)

  /** Number of option inputs on the form. */
  const OptionCount: nat := 4

  /** What `saveQuestion` complains about, in the order it checks. */
  datatype SaveError = EmptyText | EmptyOption | NoCorrect

  /** A question the form can produce: non-empty cleaned text and options, four options, and
      one of the four radio buttons as the correct option. */
  predicate WellFormed(q: Question) {
    && q.text != []
    && |q.options| == OptionCount
    && (forall i :: 0 <= i < |q.options| ==> q.options[i] != [])
    && q.correctIndex < OptionCount
  }

  /** The four option fields, each trimmed and sanitised. */
  function CleanedAll(options: seq<string>): (r: seq<string>)
    ensures |r| == |options|
    ensures forall i :: 0 <= i < |r| ==> r[i] == Cleaned(options[i])
  {
    if options == [] then [] else [Cleaned(options[0])] + CleanedAll(options[1..])
  }

  /** The checks of `saveQuestion` on the question text, the four option fields and the value
      of the checked radio button, if any. */
  function ValidateQuestion(text: string, options: seq<string>, correct: Option<nat>): (r: Result<Question, SaveError>)
    requires |options| == OptionCount
  {
    var t := Cleaned(text);
    var opts := CleanedAll(options);
    if t == [] then Err(EmptyText)
    else if exists i :: 0 <= i < |opts| && opts[i] == [] then Err(EmptyOption)
    else if correct.None? then Err(NoCorrect)
    else Ok(Question(t, opts, correct.value))
  }

  /** `saveQuestion` rejects an all-whitespace text first, then an all-whitespace option, then a
      missing choice of the correct option; what it accepts is the cleaned form. Accepted text
      and options are never empty and cannot open or close a tag. */
  lemma ValidateQuestionOrder(text: string, options: seq<string>, correct: Option<nat>)
    requires |options| == OptionCount
    ensures var r := ValidateQuestion(text, options, correct);
            && (r == Err(EmptyText) <==> Blank(text))
            && (r == Err(EmptyOption) <==>
                  !Blank(text) && exists i :: 0 <= i < |options| && Blank(options[i]))
            && (r == Err(NoCorrect) <==>
                  !Blank(text) && (forall i :: 0 <= i < |options| ==> !Blank(options[i]))
                  && correct.None?)
            && (r.Ok? ==>
                  && r.value.text == Cleaned(text)
                  && r.value.options == CleanedAll(options)
                  && Some(r.value.correctIndex) == correct
                  && r.value.text != []
                  && (forall i :: 0 <= i < OptionCount ==> r.value.options[i] != [])
                  && (forall i :: 0 <= i < |r.value.text| ==> r.value.text[i] != '<' && r.value.text[i] != '>'))
  {
    CleanedEmptyIffBlank(text);
    forall i | 0 <= i < |options| ensures CleanedAll(options)[i] == [] <==> Blank(options[i]) {
      CleanedEmptyIffBlank(options[i]);
    }
  }

  /** A well-formed question accepted from a radio value below four is well formed. */
  lemma ValidateQuestionWellFormed(text: string, options: seq<string>, correct: Option<nat>)
    requires |options| == OptionCount
    requires correct.Some? ==> correct.value < OptionCount
    ensures ValidateQuestion(text, options, correct).Ok? ==> WellFormed(ValidateQuestion(text, options, correct).value)
  {
  }

  /** `String.fromCharCode(65 + correctIndex)`: the letter shown as the correct option. */
  function CorrectLabel(k: nat): (c: char)
    requires k < 26
    ensures 'A' <= c <= 'Z' && c as int - 'A' as int == k
  {
    (65 + k) as char
  }

  /** The four radio buttons are labelled A to D, each with its own letter. */
  lemma CorrectLabelsOfOptions(q: Question)
    requires WellFormed(q)
    ensures CorrectLabel(q.correctIndex) == "ABCD"[q.correctIndex]
  {
  }

  lemma CorrectLabelInjective(j: nat, k: nat)
    requires j < 26 && k < 26
    ensures CorrectLabel(j) == CorrectLabel(k) ==> j == k
  {
  }

  // ---------------------------------------------------------------------------------------
  // Quiz creation

  /** What `createTest` stops at, in the order it checks; `Busy` is the silent return while a
      creation request is running. */
  datatype CreateError = Busy | NoTitle | NoDescription | BadDuration | NoQuestions

  /** The request body: cleaned title and description, the duration in seconds, the list. */
  datatype Payload = Payload(title: string, description: string, duration: int, questions: seq<Option<Question>>)

  /** `durationMin * 60 + 20`: the minutes in seconds plus a 20-second buffer. */
  function DurationSeconds(minutes: int): (seconds: int)
    requires minutes > 0
    ensures seconds > 60 * minutes
    ensures seconds / 60 == minutes && seconds % 60 == 20
  {
    minutes * 60 + 20
  }

  /** A duration in seconds determines the minutes it came from. */
  lemma DurationSecondsInjective(m: int, n: int)
    requires m > 0 && n > 0
    ensures DurationSeconds(m) == DurationSeconds(n) ==> m == n
  {
  }

  /** The checks of `createTest` after its busy guard; `minutes` is `Number` of the duration
      field, `None` when that is not a number. */
  function CheckTest(title: string, description: string, minutes: Option<int>,
                     questions: seq<Option<Question>>): (r: Result<Payload, CreateError>)
  {
    var t, d := Cleaned(title), Cleaned(description);
    if t == [] then Err(NoTitle)
    else if d == [] then Err(NoDescription)
    else if minutes.None? || minutes.value <= 0 then Err(BadDuration)
    else if |questions| == 0 then Err(NoQuestions)
    else Ok(Payload(t, d, DurationSeconds(minutes.value), questions))
  }

  /** `createTest` checks the title, then the description, then that the duration is a
      positive number, then that the list is not empty; an accepted request carries the
      duration in seconds, from which the minutes can be read back, and the list as it is. */
  lemma CheckTestOrder(title: string, description: string, minutes: Option<int>,
                       questions: seq<Option<Question>>)
    ensures var r := CheckTest(title, description, minutes, questions);
            && (r == Err(NoTitle) <==> Blank(title))
            && (r == Err(NoDescription) <==> !Blank(title) && Blank(description))
            && (r == Err(BadDuration) <==>
                  !Blank(title) && !Blank(description) && !(minutes.Some? && minutes.value > 0))
            && (r == Err(NoQuestions) <==>
                  !Blank(title) && !Blank(description) && minutes.Some? && minutes.value > 0
                  && |questions| == 0)
            && r != Err(Busy)
            && (r.Ok? ==>
                  && r.value.title == Cleaned(title) && r.value.description == Cleaned(description)
                  && minutes.Some? && r.value.duration / 60 == minutes.value
                  && r.value.duration % 60 == 20
                  && r.value.questions == questions && |questions| > 0)
  {
    CleanedEmptyIffBlank(title);
    CleanedEmptyIffBlank(description);
  }

  /** How the creation request settled: an ok reply, a reply that is not ok, or a failure. */
  datatype CreateOutcome = Created | Rejected | Failed

  // ---------------------------------------------------------------------------------------
  // The page's state, updated in place

  class Editor {
    var questions: seq<Option<Question>>
    var editIndex: Option<nat>
    var isSubmitting: bool

    /** Every question in the list is one the form produced. */
    ghost predicate Valid()
      reads this
    {
      forall k :: 0 <= k < |questions| && questions[k].Some? ==> WellFormed(questions[k].value)
    }

    /** The page as loaded: no questions, adding mode, no request running. */
    constructor ()
      ensures Valid() && questions == [] && editIndex == None && !isSubmitting
    {
      questions, editIndex, isSubmitting := [], None, false;
    }

    /** `saveQuestion` with the form's text, options and checked radio value (the radio values
        are 0 to 3). A rejected form changes nothing; an accepted one is appended in adding
        mode, or written at the edited index, and the form is cleared. */
    method SaveQuestion(text: string, options: seq<string>, correct: Option<nat>)
        returns (r: Result<Question, SaveError>)
      requires Valid() && |options| == OptionCount
      requires correct.Some? ==> correct.value < OptionCount
      modifies this
      ensures Valid()
      ensures r == ValidateQuestion(text, options, correct)
      ensures r.Err? ==> questions == old(questions) && editIndex == old(editIndex)
      ensures r.Ok? && old(editIndex).None? ==> questions == old(questions) + [Some(r.value)]
      ensures r.Ok? && old(editIndex).Some? ==>
                questions == JsArray.Assign(old(questions), old(editIndex).value, r.value)
      ensures r.Ok? ==> editIndex == None
      ensures isSubmitting == old(isSubmitting)
    {
      ValidateQuestionWellFormed(text, options, correct);
      r := ValidateQuestion(text, options, correct);
      if r.Err? {
        return;
      }
      var q := r.value;
      if editIndex.Some? {
        AssignKeepsWellFormed(questions, editIndex.value, q);
        questions := JsArray.Assign(questions, editIndex.value, q);
        editIndex := None;
      } else {
        questions := questions + [Some(q)];
      }
      ClearForm();
    }

    /** The confirmed branch of `deleteQuestion(i)`: the entry at `i` is spliced out and the form
        is cleared only when it was the one being edited; a higher edited index is not moved
        down. An unconfirmed dialog changes nothing. */
    method DeleteQuestion(i: nat, confirmed: bool)
      requires Valid()
      modifies this
      ensures Valid()
      ensures !confirmed ==> questions == old(questions) && editIndex == old(editIndex)
      ensures confirmed ==> questions == JsArray.Splice(old(questions), i)
      ensures confirmed ==> editIndex == if old(editIndex) == Some(i) then None else old(editIndex)
      ensures isSubmitting == old(isSubmitting)
    {
      if !confirmed {
        return;
      }
      SpliceKeepsWellFormed(questions, i);
      questions := JsArray.Splice(questions, i);
      if editIndex == Some(i) {
        ClearForm();
      }
    }

    /** `editQuestion(i)`: the form is loaded with entry `i` and the editor switches to editing
        it. Reading a hole or past the end throws before the cursor is set. */
    method EditQuestion(i: nat) returns (loaded: bool)
      requires Valid()
      modifies this
      ensures Valid()
      ensures loaded <==> JsArray.Get(old(questions), i).Some?
      ensures editIndex == if loaded then Some(i) else old(editIndex)
      ensures questions == old(questions) && isSubmitting == old(isSubmitting)
    {
      loaded := i < |questions| && questions[i].Some?;
      if loaded {
        editIndex := Some(i);
      }
    }

    /** `clearForm`: back to adding mode. */
    method ClearForm()
      requires Valid()
      modifies this
      ensures Valid()
      ensures editIndex == None
      ensures questions == old(questions) && isSubmitting == old(isSubmitting)
    {
      editIndex := None;
    }

    /** The Escape key: clears the form when a question is being edited. */
    method EscapeKey()
      requires Valid()
      modifies this
      ensures Valid()
      ensures editIndex == None
      ensures questions == old(questions) && isSubmitting == old(isSubmitting)
    {
      if editIndex.Some? {
        ClearForm();
      }
    }

    /** `createTest` up to the issue of its request. While a request is running it returns at
        once; otherwise the request goes out exactly when every check passes, and only then is
        the busy flag raised. */
    method CreateTest(title: string, description: string, minutes: Option<int>)
        returns (r: Result<Payload, CreateError>)
      requires Valid()
      modifies this
      ensures Valid()
      ensures old(isSubmitting) ==> r == Err(Busy) && isSubmitting
      ensures !old(isSubmitting) ==> r == CheckTest(title, description, minutes, questions)
      ensures isSubmitting <==> old(isSubmitting) || r.Ok?
      ensures questions == old(questions) && editIndex == old(editIndex)
    {
      if isSubmitting {
        return Err(Busy);
      }
      r := CheckTest(title, description, minutes, questions);
      if r.Ok? {
        isSubmitting := true;
      }
    }

    /** The settling of the creation request: the flag stays raised on success (the page then
        leaves for the dashboard) and is lowered on a reply that is not ok or on a failure. */
    method CreateSettled(outcome: CreateOutcome)
      requires Valid() && isSubmitting
      modifies this
      ensures Valid()
      ensures isSubmitting <==> outcome == Created
      ensures questions == old(questions) && editIndex == old(editIndex)
    {
      if outcome != Created {
        isSubmitting := false;
      }
    }
  }

  /** Writing a well-formed question into a list of well-formed ones, at any index, keeps every
      entry well formed: the slots it grows are holes. */
  lemma AssignKeepsWellFormed(qs: seq<Option<Question>>, k: nat, q: Question)
    requires forall j :: 0 <= j < |qs| && qs[j].Some? ==> WellFormed(qs[j].value)
    requires WellFormed(q)
    ensures var r := JsArray.Assign(qs, k, q);
            forall j :: 0 <= j < |r| && r[j].Some? ==> WellFormed(r[j].value)
  {
    var r := JsArray.Assign(qs, k, q);
    forall j | 0 <= j < |r| && r[j].Some? ensures WellFormed(r[j].value) {
      assert JsArray.Get(r, j) == r[j];
      if j != k {
        assert JsArray.Get(qs, j) == r[j];
      }
    }
  }

  /** Saving in adding mode puts the question last and keeps every earlier entry and its
      position; saving while editing entry `k` changes only entry `k`, and the length only when
      `k` was past the end. */
  lemma SaveShapes(qs: seq<Option<Question>>, k: nat, q: Question)
    ensures var r := qs + [Some(q)];
            |r| == |qs| + 1 && r[..|qs|] == qs && r[|qs|] == Some(q)
    ensures var r := JsArray.Assign(qs, k, q);
            && (k < |qs| ==>
                  && |r| == |qs| && r[k] == Some(q)
                  && forall j :: 0 <= j < |qs| && j != k ==> r[j] == qs[j])
            && (k >= |qs| ==> |r| == k + 1 && r[..|qs|] == qs && r[k] == Some(q))
  {
    var r := JsArray.Assign(qs, k, q);
    if k < |qs| {
      forall j | 0 <= j < |qs| && j != k ensures r[j] == qs[j] {
        assert JsArray.Get(r, j) == JsArray.Get(qs, j);
      }
    } else {
      assert JsArray.Get(r, k) == Some(q);
      forall j | 0 <= j < |qs| ensures r[j] == qs[j] {
        assert JsArray.Get(r, j) == JsArray.Get(qs, j);
      }
    }
  }

  /** A confirmed delete removes exactly entry `i`: the entries before it keep their places,
      the ones after it follow in order, and nothing else is lost or gained. */
  lemma DeleteRemovesOne<T>(qs: seq<T>, i: nat)
    requires i < |qs|
    ensures JsArray.Splice(qs, i) == qs[..i] + qs[i + 1..]
    ensures multiset(JsArray.Splice(qs, i)) + multiset{qs[i]} == multiset(qs)
  {
    var r := JsArray.Splice(qs, i);
    assert r == qs[..i] + qs[i + 1..];
    assert qs == qs[..i] + [qs[i]] + qs[i + 1..];
  }

  /** Removing an entry from a list of well-formed questions leaves it one. */
  lemma SpliceKeepsWellFormed(qs: seq<Option<Question>>, i: nat)
    requires forall j :: 0 <= j < |qs| && qs[j].Some? ==> WellFormed(qs[j].value)
    ensures var r := JsArray.Splice(qs, i);
            forall j :: 0 <= j < |r| && r[j].Some? ==> WellFormed(r[j].value)
  {
  }
}
