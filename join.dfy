/** The join page: step one verifies a quiz code with the quiz service, step two collects the
    participant's name, roll number and branch, joins, and leaves the joiner record for the
    attempt page.

    The page's one module-level variable, the verified code, is the field `verifiedCode` of
    `JoinFlow`; the joiner record written to local storage is the field `joiner`. Replies of
    the quiz service are parameters. */
module Join {
  import opened Wrappers
  import opened Text
  import opened HtmlEscape

  // ---------------------------------------------------------------------------------------
  // Validators

  /** The character class `[A-Z0-9]`. */
  predicate IsCodeChar(c: char) {
    'A' <= c <= 'Z' || '0' <= c <= '9'
  }

  /** The shape of a quiz code: 3 to 10 upper-case letters and digits. */
  predicate CodeShape(s: string) {
    3 <= |s| <= 10 && forall i :: 0 <= i < |s| ==> IsCodeChar(s[i])
  }

  /** A matcher for `[A-Z0-9]{lo,hi}` anchored at both ends: at least `lo` and at most `hi`
      characters of the class, then the end of the input. */
  function MatchCodeChars(s: string, lo: nat, hi: nat): bool
    decreases |s|
  {
    if s == [] then lo == 0
    else hi > 0 && IsCodeChar(s[0]) && MatchCodeChars(s[1..], if lo > 0 then lo - 1 else 0, hi - 1)
  }

  lemma {:induction false} MatchCodeCharsIff(s: string, lo: nat, hi: nat)
    ensures MatchCodeChars(s, lo, hi) <==> lo <= |s| <= hi && forall i :: 0 <= i < |s| ==> IsCodeChar(s[i])
    decreases |s|
  {
    if s != [] && hi > 0 {
      MatchCodeCharsIff(s[1..], if lo > 0 then lo - 1 else 0, hi - 1);
      if forall i :: 0 <= i < |s| ==> IsCodeChar(s[i]) {
        assert forall i :: 0 <= i < |s[1..]| ==> IsCodeChar(s[1..][i]) by {
          forall i | 0 <= i < |s[1..]| ensures IsCodeChar(s[1..][i]) {
            assert s[1..][i] == s[i + 1];
          }
        }
      }
      if IsCodeChar(s[0]) && forall i :: 0 <= i < |s[1..]| ==> IsCodeChar(s[1..][i]) {
        forall i | 0 <= i < |s| ensures IsCodeChar(s[i]) {
          if i > 0 {
            assert s[i] == s[1..][i - 1];
          }
        }
      }
    }
  }

  /** `isValidCode`: the regular expression `^[A-Z0-9]{3,10}$` on the trimmed, upper-cased code. */
  function IsValidCode(code: string): bool {
    MatchCodeChars(ToUpper(Trim(code)), 3, 10)
  }

  /** A code is valid exactly when, trimmed and upper-cased (in either order), it has the shape
      of a quiz code. */
  lemma IsValidCodeIff(code: string)
    ensures IsValidCode(code) <==> CodeShape(ToUpper(Trim(code)))
    ensures IsValidCode(code) <==> CodeShape(Trim(ToUpper(code)))
  {
    MatchCodeCharsIff(ToUpper(Trim(code)), 3, 10);
    TrimToUpper(code);
  }

  /** Neither case nor surrounding whitespace changes whether a code is valid. */
  lemma IsValidCodeIgnoresCaseAndSpace(code: string)
    ensures IsValidCode(ToUpper(code)) == IsValidCode(code)
    ensures IsValidCode(Trim(code)) == IsValidCode(code)
  {
    var t := Trim(code);
    TrimIdempotent(code);
    assert ToUpper(Trim(t)) == ToUpper(t);
    TrimToUpper(code);
    ToUpperIdempotent(t);
    assert ToUpper(Trim(ToUpper(code))) == ToUpper(ToUpper(t)) == ToUpper(t);
  }

  /** `isValidName`: 1 to 50 characters once trimmed. */
  function IsValidName(name: string): bool {
    0 < |Trim(name)| <= 50
  }

  /** `isValidRoll`: 1 to 20 characters once trimmed. */
  function IsValidRoll(roll: string): bool {
    0 < |Trim(roll)| <= 20
  }

  /** `isValidBranch`: 1 to 50 characters once trimmed. */
  function IsValidBranch(branch: string): bool {
    0 < |Trim(branch)| <= 50
  }

  /** A cleaned field has no whitespace at either end, so trimming it again changes nothing. */
  lemma TrimCleaned(raw: string)
    ensures Trim(Cleaned(raw)) == Cleaned(raw)
  {
    SanitizeTrimmed(Trim(raw));
    TrimOfTrimmed(Cleaned(raw));
  }

  /** The length checks run on the cleaned value, so they limit the sanitised length, in which
      each `&`, no-break space, `<` and `>` counts as its entity; a field without those
      characters is limited by its trimmed length. */
  lemma LimitOnCleaned(raw: string, max: nat)
    ensures (0 < |Trim(Cleaned(raw))| <= max) <==> !Blank(raw) && |Cleaned(raw)| <= max
    ensures (forall i :: 0 <= i < |Trim(raw)| ==> !IsTextSpecial(Trim(raw)[i])) ==>
              |Cleaned(raw)| == |Trim(raw)|
  {
    TrimCleaned(raw);
    CleanedEmptyIffBlank(raw);
    if forall i :: 0 <= i < |Trim(raw)| ==> !IsTextSpecial(Trim(raw)[i]) {
      SanitizePlain(Trim(raw));
    }
  }

  // ---------------------------------------------------------------------------------------
  // Step one: the code

  /** Why `verifyCode` stops before its request. */
  datatype CodeError = EmptyCode | BadFormat

  /** `sanitizeInput(value.trim().toUpperCase())`, the code as `verifyCode` reads it. */
  function ReadCode(raw: string): string {
    Sanitize(ToUpper(Trim(raw)))
  }

  /** The checks of `verifyCode`: an empty code, then the format; the accepted code is the one
      the request is for. */
  function CheckCode(raw: string): (r: Result<string, CodeError>) {
    var code := ReadCode(raw);
    if code == [] then Err(EmptyCode)
    else if !IsValidCode(code) then Err(BadFormat)
    else Ok(code)
  }

  /** The code field reads as empty exactly when it holds nothing but whitespace. */
  lemma ReadCodeEmptyIff(raw: string)
    ensures ReadCode(raw) == [] <==> Blank(raw)
  {
    TrimEmptyIffAllSpace(raw);
  }

  /** A code of the right shape is read as it is and passes the format check. */
  lemma ShapedCodeIsValid(t: string)
    requires CodeShape(t)
    ensures Sanitize(t) == t && IsValidCode(t)
    ensures ReadCode(t) == t
  {
    SanitizePlain(t);
    assert Trim(t) == t by {
      assert IsCodeChar(t[0]) && IsCodeChar(t[|t| - 1]);
      TrimOfTrimmed(t);
    }
    UpperOfShaped(t);
    IsValidCodeIff(t);
  }

  /** Upper-casing leaves letters and digits alone. */
  lemma UpperOfShaped(t: string)
    requires CodeShape(t)
    ensures ToUpper(t) == t
  {
    assert forall i :: 0 <= i < |t| ==> ToUpper(t)[i] == UpperChar(t[i]) == t[i];
  }

  /** A string whose upper-cased form is letters and digits holds no `&`. */
  lemma NoAmpIfUpperShaped(code: string, u: string)
    requires u == ToUpper(code) && CodeShape(u)
    ensures forall i :: 0 <= i < |code| ==> code[i] != '&'
  {
    forall i | 0 <= i < |code| ensures code[i] != '&' {
      assert u[i] == UpperChar(code[i]);
      UpperCodeChar(code[i]);
    }
  }

  /** Upper-casing gives a code character only from a code character or a lower-case letter. */
  lemma UpperCodeChar(c: char)
    ensures IsCodeChar(UpperChar(c)) <==> IsCodeChar(c) || 'a' <= c <= 'z'
  {
  }

  /** A code the format check accepts is the upper-cased, trimmed field itself, of the right
      shape: an entity would have left an `&`, which the check rejects. */
  lemma ValidReadCodeHasShape(raw: string)
    requires IsValidCode(ReadCode(raw))
    ensures ReadCode(raw) == ToUpper(Trim(raw)) && CodeShape(ReadCode(raw))
  {
    var t := ToUpper(Trim(raw));
    var code := Sanitize(t);
    assert Trim(code) == code by {
      ToUpperTrimmed(Trim(raw));
      SanitizeTrimmed(t);
      TrimOfTrimmed(code);
    }
    assert CodeShape(ToUpper(code)) by {
      IsValidCodeIff(code);
    }
    NoAmpIfUpperShaped(code, ToUpper(code));
    SanitizeWithoutAmp(t);
    assert code == t;
    ToUpperIdempotent(Trim(raw));
  }

  /** `verifyCode` reports an empty code exactly for an all-whitespace field and before looking
      at the format, and the codes it sends to the service are exactly the fields that,
      trimmed and upper-cased, are 3 to 10 letters and digits. */
  lemma CheckCodeSound(raw: string)
    ensures CheckCode(raw) == Err(EmptyCode) <==> Blank(raw)
    ensures CheckCode(raw).Ok? <==> CodeShape(ToUpper(Trim(raw)))
    ensures CheckCode(raw).Ok? ==>
              CheckCode(raw).value == ToUpper(Trim(raw)) && CodeShape(CheckCode(raw).value)
  {
    ReadCodeEmptyIff(raw);
    var t := ToUpper(Trim(raw));
    if CodeShape(t) {
      ShapedCodeIsValid(t);
    }
    if IsValidCode(ReadCode(raw)) {
      ValidReadCodeHasShape(raw);
    }
  }

  /** A code `verifyCode` accepts has the shape of a quiz code. */
  lemma CheckedCodeHasShape(raw: string)
    ensures CheckCode(raw).Ok? ==> CodeShape(CheckCode(raw).value)
  {
    CheckCodeSound(raw);
  }

  /** The `code` parameter of the page's address pre-fills the field, upper-cased, when it is
      present, non-empty and valid. */
  function PrefillCode(param: Option<string>): Option<string> {
    if param.Some? && param.value != [] && IsValidCode(param.value) then Some(ToUpper(param.value))
    else None
  }

  /** A pre-filled code passes the checks of `verifyCode`. */
  lemma PrefillPassesCheck(param: Option<string>)
    ensures PrefillCode(param).Some? ==> CheckCode(PrefillCode(param).value).Ok?
  {
    if PrefillCode(param).Some? {
      var c := param.value;
      var v := ToUpper(c);
      IsValidCodeIff(c);
      ToUpperIdempotent(Trim(c));
      TrimToUpper(c);
      assert ToUpper(Trim(v)) == Trim(ToUpper(c));
      CheckCodeSound(v);
    }
  }

  // ---------------------------------------------------------------------------------------
  // The service's reply

  /** The settled join request: the request or its JSON parsing threw, or a reply with its
      `ok` flag and the quiz status it reports. */
  datatype Reply = Unreachable | Reply(ok: bool, status: string)

  /** What the pages do with a reply, shared by both steps. */
  datatype Decision = ConnectionError | NotOk | Ended | Proceed | Unexpected

  function Decide(reply: Reply): (d: Decision) {
    if reply.Unreachable? then ConnectionError
    else if !reply.ok then NotOk
    else if reply.status == "ended" then Ended
    else if reply.status == "created" || reply.status == "allowed" then Proceed
    else Unexpected
  }

  /** Only an ok reply for a quiz that is created (not started yet) or allowed (running) lets
      the participant go on; an ended quiz is refused even with an ok reply. */
  lemma DecideProceedIff(reply: Reply)
    ensures Decide(reply) == Proceed <==>
              reply.Reply? && reply.ok && reply.status in {"created", "allowed"}
    ensures reply.Reply? && reply.ok && reply.status == "ended" ==> Decide(reply) == Ended
    ensures reply.Reply? && !reply.ok ==> Decide(reply) == NotOk
    ensures reply.Reply? && reply.ok && reply.status !in {"ended", "created", "allowed"} ==>
              Decide(reply) == Unexpected
    ensures reply.Unreachable? ==> Decide(reply) == ConnectionError
  {
  }

  // ---------------------------------------------------------------------------------------
  // Step two: the participant

  /** Why `joinQuiz` stops before its request, in the order it checks. */
  datatype JoinError = NotVerified | EmptyField | BadName | BadRoll | BadBranch

  /** The cleaned fields as `joinQuiz` checks them; only `rollNo` goes into the request, and all
      three go into the stored record. */
  datatype Participant = Participant(name: string, rollNo: string, branch: string)

  /** The checks of `joinQuiz` after its verified-code gate. */
  function CheckParticipant(name: string, roll: string, branch: string): (r: Result<Participant, JoinError>) {
    var n, rn, b := Cleaned(name), Cleaned(roll), Cleaned(branch);
    if n == [] || rn == [] || b == [] then Err(EmptyField)
    else if !IsValidName(n) then Err(BadName)
    else if !IsValidRoll(rn) then Err(BadRoll)
    else if !IsValidBranch(b) then Err(BadBranch)
    else Ok(Participant(n, rn, b))
  }

  /** `joinQuiz` reports an empty field when any of the three is all whitespace, then checks
      the name, the roll number and the branch limits in that order, on the sanitised values. */
  lemma CheckParticipantOrder(name: string, roll: string, branch: string)
    ensures var r := CheckParticipant(name, roll, branch);
            && (r == Err(EmptyField) <==> Blank(name) || Blank(roll) || Blank(branch))
            && (r == Err(BadName) <==>
                  !Blank(name) && !Blank(roll) && !Blank(branch) && |Cleaned(name)| > 50)
            && (r == Err(BadRoll) <==>
                  !Blank(name) && !Blank(roll) && !Blank(branch) && |Cleaned(name)| <= 50
                  && |Cleaned(roll)| > 20)
            && (r == Err(BadBranch) <==>
                  !Blank(name) && !Blank(roll) && !Blank(branch) && |Cleaned(name)| <= 50
                  && |Cleaned(roll)| <= 20 && |Cleaned(branch)| > 50)
            && (r.Ok? ==>
                  && r.value == Participant(Cleaned(name), Cleaned(roll), Cleaned(branch))
                  && 0 < |r.value.name| <= 50 && 0 < |r.value.rollNo| <= 20
                  && 0 < |r.value.branch| <= 50)
            && r != Err(NotVerified)
  {
    CleanedEmptyIffBlank(name);
    CleanedEmptyIffBlank(roll);
    CleanedEmptyIffBlank(branch);
    TrimCleaned(name);
    TrimCleaned(roll);
    TrimCleaned(branch);
  }

  /** The record left in local storage for the attempt page; each field goes through
      `sanitizeInput` once more when it is built. */
  datatype Joiner = Joiner(code: string, name: string, rollNo: string, branch: string)

  function JoinerRecord(code: string, p: Participant): (j: Joiner) {
    Joiner(Sanitize(code), Sanitize(p.name), Sanitize(p.rollNo), Sanitize(p.branch))
  }

  /** The stored code is the verified code itself, while each checked field is stored as it
      is only when it holds none of the characters sanitising rewrites: a name holding `&` is
      stored escaped twice (`&` becomes `&amp;amp;`). */
  lemma JoinerRecordFields(code: string, p: Participant)
    requires CodeShape(code)
    ensures JoinerRecord(code, p).code == code
    ensures JoinerRecord(code, p).name == p.name <==> forall i :: 0 <= i < |p.name| ==> !IsTextSpecial(p.name[i])
    ensures JoinerRecord(code, p).rollNo == p.rollNo <==> forall i :: 0 <= i < |p.rollNo| ==> !IsTextSpecial(p.rollNo[i])
    ensures JoinerRecord(code, p).branch == p.branch <==> forall i :: 0 <= i < |p.branch| ==> !IsTextSpecial(p.branch[i])
  {
    SanitizePlain(code);
    SanitizeFixedIff(p.name);
    SanitizeFixedIff(p.rollNo);
    SanitizeFixedIff(p.branch);
  }

  /** Sanitising leaves a string unchanged exactly when it holds none of the four characters
      the serialisation rewrites. */
  lemma {:induction false} SanitizeFixedIff(s: string)
    ensures Sanitize(s) == s <==> forall i :: 0 <= i < |s| ==> !IsTextSpecial(s[i])
    decreases |s|
  {
    if s != [] {
      SanitizeFixedIff(s[1..]);
      if IsTextSpecial(s[0]) {
        assert |Sanitize(s)| > |s| by {
          assert |TextChar(s[0])| > 1;
        }
      } else {
        assert Sanitize(s) == [s[0]] + Sanitize(s[1..]);
        if Sanitize(s) == s {
          assert Sanitize(s[1..]) == s[1..];
        }
        if forall i :: 0 <= i < |s| ==> !IsTextSpecial(s[i]) {
          assert forall i :: 0 <= i < |s[1..]| ==> !IsTextSpecial(s[1..][i]) by {
            forall i | 0 <= i < |s[1..]| ensures !IsTextSpecial(s[1..][i]) {
              assert s[1..][i] == s[i + 1];
            }
          }
        }
      }
    }
  }

  // ---------------------------------------------------------------------------------------
  // The page's state, updated in place

  class JoinFlow {
    var verifiedCode: Option<string>
    var joiner: Option<Joiner>

    /** A verified code always has the shape of a quiz code. */
    ghost predicate Valid()
      reads this
    {
      verifiedCode.Some? ==> CodeShape(verifiedCode.value)
    }

    /** The page as loaded: step one, nothing verified, no record written. */
    constructor ()
      ensures Valid() && verifiedCode == None && joiner == None
    {
      verifiedCode, joiner := None, None;
    }

    /** `backToStep1`: the verified code is forgotten. */
    method BackToStep1()
      modifies this
      ensures Valid() && verifiedCode == None && joiner == old(joiner)
    {
      verifiedCode := None;
    }

    /** `verifyCode` with the field's value and the reply its request gets: the code is
        verified exactly when it passes the checks and the reply lets the participant go on;
        otherwise the verified code is left as it was. */
    method VerifyCode(raw: string, reply: Reply) returns (r: Result<Decision, CodeError>)
      requires Valid()
      modifies this
      ensures Valid() && joiner == old(joiner)
      ensures CheckCode(raw).Err? ==> r == Err(CheckCode(raw).error) && verifiedCode == old(verifiedCode)
      ensures CheckCode(raw).Ok? ==> r == Ok(Decide(reply))
      ensures verifiedCode ==
                if CheckCode(raw).Ok? && Decide(reply) == Proceed then Some(CheckCode(raw).value)
                else old(verifiedCode)
    {
      CheckedCodeHasShape(raw);
      var checked := CheckCode(raw);
      if checked.Err? {
        return Err(checked.error);
      }
      var d := Decide(reply);
      if d == Proceed {
        verifiedCode := Some(checked.value);
      }
      r := Ok(d);
    }

    /** `joinQuiz` with the three fields and the reply its request gets. Without a verified
        code it refuses and goes back to step one; the record is written exactly when every
        check passes and the reply lets the participant go on. */
    method JoinQuiz(name: string, roll: string, branch: string, reply: Reply)
        returns (r: Result<Decision, JoinError>)
      requires Valid()
      modifies this
      ensures Valid()
      ensures old(verifiedCode).None? ==> r == Err(NotVerified) && verifiedCode == None && joiner == old(joiner)
      ensures old(verifiedCode).Some? ==> verifiedCode == old(verifiedCode)
      ensures old(verifiedCode).Some? && CheckParticipant(name, roll, branch).Err? ==>
                r == Err(CheckParticipant(name, roll, branch).error) && joiner == old(joiner)
      ensures old(verifiedCode).Some? && CheckParticipant(name, roll, branch).Ok? ==>
                && r == Ok(Decide(reply))
                && joiner == if Decide(reply) == Proceed
                             then Some(JoinerRecord(old(verifiedCode).value, CheckParticipant(name, roll, branch).value))
                             else old(joiner)
    {
      if verifiedCode.None? {
        BackToStep1();
        return Err(NotVerified);
      }
      var code := verifiedCode.value;
      var checked := CheckParticipant(name, roll, branch);
      if checked.Err? {
        return Err(checked.error);
      }
      var d := Decide(reply);
      if d == Proceed {
        joiner := Some(JoinerRecord(code, checked.value));
      }
      r := Ok(d);
    }
  }
}
