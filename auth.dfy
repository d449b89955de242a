/** The sign-in page: the login and registration checks that run before any request, the
    e-mail pattern they share, the switch between the two forms, and the redirect of a visitor
    who already holds a token. */
module Auth {
  import opened Wrappers
  import opened Text

  // ---------------------------------------------------------------------------------------
  // The e-mail pattern `^[^\s@]+@[^\s@]+\.[^\s@]+$`

  /** The class `[^\s@]`. */
  predicate Plain(c: char) {
    !IsSpace(c) && c != '@'
  }

  /** What the pattern demands, position by position: an `@` at `at` with a non-empty local
      part before it, a `.` at `dot` with a non-empty run on each side of it after the `@`, and
      every other character neither whitespace nor `@`. The pattern matches exactly when some
      such split exists. */
  predicate EmailSplit(s: string, at: int, dot: int) {
    && 0 < at && at + 1 < dot < |s| - 1
    && s[at] == '@' && s[dot] == '.'
    && forall k :: 0 <= k < |s| && k != at ==> Plain(s[k])
  }

  ghost predicate EmailMatches(s: string) {
    exists at, dot :: EmailSplit(s, at, dot)
  }

  /** Every character of `s` is in `[^\s@]`. */
  function AllPlain(s: string): (b: bool)
    ensures b <==> forall k :: 0 <= k < |s| ==> Plain(s[k])
  {
    if s == [] then true else Plain(s[0]) && AllPlain(s[1..])
  }

  /** The index of the first `c` in `s`. */
  function IndexOf(s: string, c: char): (r: Option<nat>)
    ensures r.Some? ==> r.value < |s| && s[r.value] == c && forall k :: 0 <= k < r.value ==> s[k] != c
    ensures r.None? ==> forall k :: 0 <= k < |s| ==> s[k] != c
  {
    if s == [] then None
    else if s[0] == c then Some(0)
    else match IndexOf(s[1..], c)
      case None => None
      case Some(k) => Some(k + 1)
  }

  /** The test the pages run: up to the first `@`, one or more characters of the class; after
      it, only characters of the class, with a `.` somewhere strictly inside. */
  function IsValidEmail(s: string): bool {
    match IndexOf(s, '@')
    case None => false
    case Some(at) =>
      var domain := s[at + 1..];
      && at > 0 && AllPlain(s[..at]) && AllPlain(domain)
      && |domain| >= 3 && IndexOf(domain[1..|domain| - 1], '.').Some?
  }

  /** The scan accepts exactly the strings the pattern matches: a non-empty local part, one
      `@`, no whitespace, and a `.` in the domain with text on both sides. */
  lemma IsValidEmailIff(s: string)
    ensures IsValidEmail(s) <==> EmailMatches(s)
  {
    if IsValidEmail(s) {
      var at := IndexOf(s, '@').value;
      var domain := s[at + 1..];
      var inner := domain[1..|domain| - 1];
      var p := IndexOf(inner, '.').value;
      var dot := at + 2 + p;
      assert s[dot] == inner[p];
      forall k | 0 <= k < |s| && k != at ensures Plain(s[k]) {
        if k < at {
          assert s[k] == s[..at][k];
        } else {
          assert s[k] == domain[k - at - 1];
        }
      }
      assert EmailSplit(s, at, dot);
    }
    if EmailMatches(s) {
      var at, dot :| EmailSplit(s, at, dot);
      var r := IndexOf(s, '@');
      assert s[at] == '@';
      assert r.Some?;
      assert !Plain(s[r.value]);
      assert r.value == at;
      var domain := s[at + 1..];
      var inner := domain[1..|domain| - 1];
      assert inner[dot - at - 2] == '.';
      assert AllPlain(s[..at]) by {
        forall k | 0 <= k < at ensures Plain(s[..at][k]) {
          assert s[..at][k] == s[k];
        }
      }
      assert AllPlain(domain) by {
        forall k | 0 <= k < |domain| ensures Plain(domain[k]) {
          assert domain[k] == s[at + 1 + k];
        }
      }
    }
  }

  /** A concrete address the pattern accepts. */
  lemma EmailAccepted()
    ensures IsValidEmail("a@b.c") && EmailMatches("a@b.c")
  {
    var s := "a@b.c";
    assert IndexOf(s, '@') == Some(1) by {
      assert s[0] == 'a' && s[1] == '@' && s[1..][0] == '@';
    }
    assert s[..1] == "a" && s[2..] == "b.c";
    assert "b.c"[1..2] == ".";
    assert EmailSplit(s, 1, 3);
  }

  /** Two near misses: a domain without a dot, and a second `@`. */
  lemma EmailRejected()
    ensures !IsValidEmail("ada@host")
    ensures !IsValidEmail("a@@b.c")
  {
    IsValidEmailIff("ada@host");
    IsValidEmailIff("a@@b.c");
    assert "a@@b.c"[1] == '@' && "a@@b.c"[2] == '@';
  }

  // ---------------------------------------------------------------------------------------
  // The form checks

  /** What a form complains about before sending anything, in the order it checks. */
  datatype FormError = MissingFields | BadEmail | ShortPassword

  /** Shortest password `registerUser` sends. */
  const MinPassword: nat := 6

  /** `login`: both fields trimmed; an empty one first, then the e-mail pattern. The accepted
      value is the pair the request carries. */
  function ValidateLogin(email: string, password: string): (r: Result<(string, string), FormError>) {
    var e, p := Trim(email), Trim(password);
    if e == [] || p == [] then Err(MissingFields)
    else if !IsValidEmail(e) then Err(BadEmail)
    else Ok((e, p))
  }

  /** `login` reports missing fields for an all-whitespace field before looking at the e-mail,
      never complains about the password's length, and sends only a matching address. */
  lemma ValidateLoginOrder(email: string, password: string)
    ensures var r := ValidateLogin(email, password);
            && (r == Err(MissingFields) <==> Blank(email) || Blank(password))
            && (r == Err(BadEmail) <==> !Blank(email) && !Blank(password) && !EmailMatches(Trim(email)))
            && r != Err(ShortPassword)
            && (r.Ok? ==> r.value == (Trim(email), Trim(password)) && EmailMatches(r.value.0))
  {
    TrimEmptyIffAllSpace(email);
    TrimEmptyIffAllSpace(password);
    IsValidEmailIff(Trim(email));
  }

  /** `registerUser`: the three fields trimmed; an empty one first, then the e-mail pattern,
      then a password shorter than six characters. */
  function ValidateRegister(name: string, email: string, password: string): (r: Result<(string, string, string), FormError>) {
    var n, e, p := Trim(name), Trim(email), Trim(password);
    if n == [] || e == [] || p == [] then Err(MissingFields)
    else if !IsValidEmail(e) then Err(BadEmail)
    else if |p| < MinPassword then Err(ShortPassword)
    else Ok((n, e, p))
  }

  /** `registerUser` checks in the order empty fields, e-mail, password length, counting the
      password's length after trimming; six characters are enough. */
  lemma ValidateRegisterOrder(name: string, email: string, password: string)
    ensures var r := ValidateRegister(name, email, password);
            && (r == Err(MissingFields) <==> Blank(name) || Blank(email) || Blank(password))
            && (r == Err(BadEmail) <==>
                  !Blank(name) && !Blank(email) && !Blank(password) && !EmailMatches(Trim(email)))
            && (r == Err(ShortPassword) <==>
                  !Blank(name) && !Blank(email) && !Blank(password) && EmailMatches(Trim(email))
                  && |Trim(password)| < MinPassword)
            && (r.Ok? ==>
                  && r.value == (Trim(name), Trim(email), Trim(password))
                  && EmailMatches(r.value.1) && |r.value.2| >= MinPassword)
  {
    TrimEmptyIffAllSpace(name);
    TrimEmptyIffAllSpace(email);
    TrimEmptyIffAllSpace(password);
    IsValidEmailIff(Trim(email));
  }

  /** A password of exactly six non-space characters is accepted, one of five is not. */
  lemma PasswordBoundary(name: string, email: string)
    requires !Blank(name) && Trimmed(email) && EmailMatches(email)
    ensures ValidateRegister(name, email, "secret").Ok?
    ensures ValidateRegister(name, email, "short") == Err(ShortPassword)
  {
    TrimEmptyIffAllSpace(name);
    TrimOfTrimmed(email);
    IsValidEmailIff(email);
    assert Trimmed("secret") && Trimmed("short");
    TrimOfTrimmed("secret");
    TrimOfTrimmed("short");
  }

  // ---------------------------------------------------------------------------------------
  // Form switch and redirect

  /** What `switchAuth` sets: which form is displayed and which tab is marked active. */
  datatype AuthView = AuthView(loginShown: bool, registerShown: bool, loginTab: bool, registerTab: bool)

  /** `switchAuth(t)`; `formsPresent` says whether both forms are in the document (without them
      the call does nothing). */
  function SwitchAuth(t: string, formsPresent: bool): (v: Option<AuthView>) {
    if !formsPresent then None
    else Some(AuthView(t == "login", t == "register", t == "login", t == "register"))
  }

  /** The login form is shown exactly for "login" and the registration form exactly for
      "register", never both; the active tab follows the form shown; any other name hides
      both forms. */
  lemma SwitchAuthShows(t: string)
    ensures var v := SwitchAuth(t, true).value;
            && (v.loginShown <==> t == "login") && (v.registerShown <==> t == "register")
            && !(v.loginShown && v.registerShown)
            && v.loginTab == v.loginShown && v.registerTab == v.registerShown
            && (t != "login" && t != "register" ==> !v.loginShown && !v.registerShown)
    ensures SwitchAuth(t, false).None?
  {
  }

  /** The immediately-invoked `init`: a stored token that is a non-empty string, on a path
      containing "auth.html", sends the visitor to the dashboard. */
  function ShouldRedirect(token: Option<string>, path: string): bool {
    token.Some? && token.value != [] && Includes(path, "auth.html")
  }

  /** The redirect happens exactly when a non-empty token is stored and "auth.html" occurs
      somewhere in the path. */
  lemma ShouldRedirectIff(token: Option<string>, path: string)
    ensures ShouldRedirect(token, path) <==>
              token.Some? && token.value != [] && exists i :: OccursAt(path, "auth.html", i)
  {
    IncludesIffOccurs(path, "auth.html");
  }

  /** A concrete pair: the page itself redirects with a token, the dashboard does not. */
  lemma RedirectExamples()
    ensures ShouldRedirect(Some("t0k"), "/auth.html")
    ensures !ShouldRedirect(None, "/auth.html")
    ensures !ShouldRedirect(Some(""), "/auth.html")
  {
    assert OccursAt("/auth.html", "auth.html", 1);
    ShouldRedirectIff(Some("t0k"), "/auth.html");
  }
}
