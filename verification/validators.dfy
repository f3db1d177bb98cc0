/** The request checks of the account views: the email-shape pattern, the
    password-complexity pattern, the sign-up validation chain and the PATCH
    field whitelist. Both patterns are written as explicit predicates over
    characters rather than run through a regular-expression engine. */
module Validators {
  import opened Options
  import opened Strings

  // ---------------------------------------------------------------------
  // Email shape: `re.match(r"[^@]+@[^@]+\.[^@]+", email)`
  // ---------------------------------------------------------------------

  /** `s[..e]` splits as `L '@' D '.' R` with `L`, `D`, `R` non-empty and free
      of '@': one way for the pattern to match a prefix of `s`. `re.match`
      anchors at the start only, so the text after position `e` is ignored. */
  ghost predicate EmailParse(s: string, a: int, d: int, e: int) {
    && 0 < a && a + 1 < d && d + 1 < e <= |s|
    && s[a] == '@' && s[d] == '.'
    && '@' !in s[..a]
    && '@' !in s[a + 1..d]
    && '@' !in s[d + 1..e]
  }

  /** The pattern matches at the start of `s` (reference definition). */
  ghost predicate EmailPatternMatches(s: string) {
    exists a, d, e :: EmailParse(s, a, d, e)
  }

  /** The segment after the first '@', up to the next '@' or the end. */
  function DomainSegment(s: string): (seg: string)
    requires '@' in s
    ensures '@' !in seg
  {
    var rest := s[IndexOf(s, '@') + 1..];
    rest[..IndexOf(rest, '@')]
  }

  /** The email-shape check as the views apply it: the text before the first
      '@' is non-empty, and the segment after it contains a '.' that is
      neither its first nor its last character. */
  predicate IsEmailShaped(s: string) {
    && '@' in s
    && IndexOf(s, '@') > 0
    && var seg := DomainSegment(s);
       |seg| >= 3 && '.' in seg[1..|seg| - 1]
  }

  /** Every string the check accepts is matched by the pattern. */
  lemma EmailShapeMatchesPattern(s: string)
    requires IsEmailShaped(s)
    ensures EmailPatternMatches(s)
  {
    var a := IndexOf(s, '@');
    var rest := s[a + 1..];
    var seg := rest[..IndexOf(rest, '@')];
    assert seg == DomainSegment(s);
    var j :| 0 <= j < |seg| - 2 && seg[1..|seg| - 1][j] == '.';
    var d := a + 2 + j;
    var e := d + 2;
    assert s[d] == seg[j + 1];
    assert s[a + 1..d] == seg[..j + 1];
    assert seg == seg[..j + 1] + seg[j + 1..];
    assert s[d + 1..e] == [seg[j + 2]];
    assert EmailParse(s, a, d, e);
  }

  /** Every string the pattern matches is accepted by the check. */
  lemma PatternMatchIsEmailShaped(s: string, a: int, d: int, e: int)
    requires EmailParse(s, a, d, e)
    ensures IsEmailShaped(s)
  {
    IndexOfUnique(s, '@', a);
    var rest := s[a + 1..];
    assert rest[..e - a - 1] == s[a + 1..d] + [s[d]] + s[d + 1..e];
    IndexOfAtLeast(rest, '@', e - a - 1);
    var seg := rest[..IndexOf(rest, '@')];
    assert seg == DomainSegment(s);
    assert seg[d - a - 1] == '.';
    assert seg[1..|seg| - 1][d - a - 2] == '.';
  }

  /** The check accepts exactly the strings the pattern matches. */
  lemma EmailShapeIffPattern(s: string)
    ensures IsEmailShaped(s) <==> EmailPatternMatches(s)
  {
    if IsEmailShaped(s) {
      EmailShapeMatchesPattern(s);
    }
    if EmailPatternMatches(s) {
      var a, d, e :| EmailParse(s, a, d, e);
      PatternMatchIsEmailShaped(s, a, d, e);
    }
  }

  // ---------------------------------------------------------------------
  // Password complexity:
  // `re.match(r'^(?=.*[A-Z])(?=.*[a-z])(?=.*\d)(?=.*[!@#$%^&*()_+{}\[\]:;<>,.?~\\-]).{8,}$', p)`
  // ---------------------------------------------------------------------

  predicate IsUpper(c: char) { 'A' <= c <= 'Z' }
  predicate IsLower(c: char) { 'a' <= c <= 'z' }
  /** `\d`, restricted to ASCII digits. */
  predicate IsDigit(c: char) { '0' <= c <= '9' }
  /** The symbol class; it includes the backslash and the hyphen. */
  predicate IsSymbol(c: char) { c in "!@#$%^&*()_+{}[]:;<>,.?~\\-" }

  /** `(?=.*X)` at the start: some character of class `X` is preceded by no
      newline (`.` does not match '\n'). */
  ghost predicate LookaheadFinds(p: string, inClass: char -> bool) {
    exists i :: 0 <= i < |p| && inClass(p[i]) && '\n' !in p[..i]
  }

  /** `.{8,}$` at the start: at least eight non-newline characters that reach
      either the end of the string or a final '\n'. */
  ghost predicate LongFirstLineToEnd(p: string) {
    exists k :: 8 <= k <= |p| && '\n' !in p[..k] && (k == |p| || (k == |p| - 1 && p[k] == '\n'))
  }

  /** The complexity pattern matches `p` (reference definition). */
  ghost predicate ComplexityPatternMatches(p: string) {
    && LookaheadFinds(p, IsUpper)
    && LookaheadFinds(p, IsLower)
    && LookaheadFinds(p, IsDigit)
    && LookaheadFinds(p, IsSymbol)
    && LongFirstLineToEnd(p)
  }

  /** `p` without one trailing newline, the text `.{8,}` has to cover. */
  function Body(p: string): (t: string)
    ensures |t| <= |p| <= |t| + 1
    ensures t == p[..|t|]
  {
    if |p| > 0 && p[|p| - 1] == '\n' then p[..|p| - 1] else p
  }

  /** Some character of `t` belongs to `inClass`. */
  predicate Has(t: string, inClass: char -> bool) {
    exists i :: 0 <= i < |t| && inClass(t[i])
  }

  /** The complexity check in its plain form: the body holds no newline, is at
      least eight long, and contains all four classes. */
  predicate IsComplexPassword(p: string) {
    var t := Body(p);
    && '\n' !in t
    && |t| >= 8
    && Has(t, IsUpper) && Has(t, IsLower) && Has(t, IsDigit) && Has(t, IsSymbol)
  }

  /** On a newline-free body, a lookahead finds a class exactly when the body has it. */
  lemma LookaheadOnBody(p: string, inClass: char -> bool)
    requires '\n' !in Body(p)
    requires !inClass('\n')
    ensures LookaheadFinds(p, inClass) <==> Has(Body(p), inClass)
  {
    var t := Body(p);
    if LookaheadFinds(p, inClass) {
      var i :| 0 <= i < |p| && inClass(p[i]) && '\n' !in p[..i];
      if i == |t| {
        assert false;
      }
      assert t[i] == p[i];
    }
    if Has(t, inClass) {
      var i :| 0 <= i < |t| && inClass(t[i]);
      assert p[..i] == t[..i];
      assert LookaheadFinds(p, inClass);
    }
  }

  /** Extending a string by one character. */
  lemma HasSnoc(t: string, c: char, inClass: char -> bool)
    ensures Has(t + [c], inClass) <==> Has(t, inClass) || inClass(c)
  {
    if Has(t + [c], inClass) {
      var i :| 0 <= i < |t| + 1 && inClass((t + [c])[i]);
      if i < |t| {
        assert t[i] == (t + [c])[i];
      }
    }
    if Has(t, inClass) {
      var i :| 0 <= i < |t| && inClass(t[i]);
      assert (t + [c])[i] == t[i];
    }
    if inClass(c) {
      assert (t + [c])[|t|] == c;
    }
  }

  /** The plain form agrees with the pattern on every input, trailing newline
      included. */
  lemma ComplexityIffPattern(p: string)
    ensures IsComplexPassword(p) <==> ComplexityPatternMatches(p)
  {
    var t := Body(p);
    if IsComplexPassword(p) {
      LookaheadOnBody(p, IsUpper);
      LookaheadOnBody(p, IsLower);
      LookaheadOnBody(p, IsDigit);
      LookaheadOnBody(p, IsSymbol);
      assert p[..|t|] == t;
      assert LongFirstLineToEnd(p);
    }
    if ComplexityPatternMatches(p) {
      var k :| 8 <= k <= |p| && '\n' !in p[..k] && (k == |p| || (k == |p| - 1 && p[k] == '\n'));
      assert t == p[..k];
      LookaheadOnBody(p, IsUpper);
      LookaheadOnBody(p, IsLower);
      LookaheadOnBody(p, IsDigit);
      LookaheadOnBody(p, IsSymbol);
    }
  }

  /** For newline-free input the check is: length at least 8 and one
      character of each class. */
  lemma ComplexityWithoutNewlines(p: string)
    requires '\n' !in p
    ensures ComplexityPatternMatches(p) <==>
      |p| >= 8 && Has(p, IsUpper) && Has(p, IsLower) && Has(p, IsDigit) && Has(p, IsSymbol)
  {
    ComplexityIffPattern(p);
  }

  /** The complexity check as one left-to-right pass that tracks the four
      character classes and newlines, the way a regex engine scans the
      password once. The loop invariants tie each flag to the scanned prefix,
      so the result is proved equal to both the pattern and `IsComplexPassword`. */
  method CheckComplexity(p: string) returns (ok: bool)
    ensures ok <==> ComplexityPatternMatches(p)
    ensures ok <==> IsComplexPassword(p)
  {
    var t := Body(p);
    var upper, lower, digit, symbol, newline := false, false, false, false, false;
    var i := 0;
    while i < |t|
      invariant 0 <= i <= |t|
      invariant upper <==> Has(t[..i], IsUpper)
      invariant lower <==> Has(t[..i], IsLower)
      invariant digit <==> Has(t[..i], IsDigit)
      invariant symbol <==> Has(t[..i], IsSymbol)
      invariant newline <==> '\n' in t[..i]
    {
      var c := t[i];
      assert t[..i + 1] == t[..i] + [c];
      HasSnoc(t[..i], c, IsUpper);
      HasSnoc(t[..i], c, IsLower);
      HasSnoc(t[..i], c, IsDigit);
      HasSnoc(t[..i], c, IsSymbol);
      upper := upper || IsUpper(c);
      lower := lower || IsLower(c);
      digit := digit || IsDigit(c);
      symbol := symbol || IsSymbol(c);
      newline := newline || c == '\n';
      i := i + 1;
    }
    assert t[..i] == t;
    ok := !newline && |t| >= 8 && upper && lower && digit && symbol;
    ComplexityIffPattern(p);
  }

  // ---------------------------------------------------------------------
  // Sign-up validation chain (`AuthCreateNewUserView.post`)
  // ---------------------------------------------------------------------

  /** The four sign-up fields as `request.data.get(...)` returns them. */
  datatype SignUpRequest = SignUpRequest(
    email: Option<string>,
    password: Option<string>,
    firstName: Option<string>,
    lastName: Option<string>)

  /** Why a sign-up is answered with 400 before the provider is called. */
  datatype SignUpRejection = MissingFields | InvalidEmail | PasswordTooShort | PasswordTooWeak

  /** The `message` of the 400 response for each rejection. */
  function RejectionMessage(r: SignUpRejection): string {
    match r
    case MissingFields => "All fields are required."
    case InvalidEmail => "Enter a valid email address."
    case PasswordTooShort => "Password must be at least 8 characters long."
    case PasswordTooWeak =>
      "Password must contain at least one uppercase letter, one lowercase letter, one digit, and one special character."
  }

  /** What the view does after validation: answer 400, or go on to create the
      account at the provider with the validated fields. */
  datatype SignUpDecision =
    | Reject(reason: SignUpRejection)
    | CreateAccount(email: string, password: string, firstName: string, lastName: string)

  /** `all([email, password, first_name, last_name])`: `None` and `""` count as missing. */
  predicate AllPresent(req: SignUpRequest) {
    Truthy(req.email) && Truthy(req.password) && Truthy(req.firstName) && Truthy(req.lastName)
  }

  /** The checks of the sign-up view, in source order; the first failure decides. */
  function ValidateSignUp(req: SignUpRequest): (d: SignUpDecision)
    ensures d.CreateAccount? ==>
      && req == SignUpRequest(Some(d.email), Some(d.password), Some(d.firstName), Some(d.lastName))
      && AllPresent(req)
      && EmailPatternMatches(d.email)
      && ComplexityPatternMatches(d.password)
  {
    if !AllPresent(req) then Reject(MissingFields)
    else if !IsEmailShaped(req.email.value) then Reject(InvalidEmail)
    else if |req.password.value| < 8 then Reject(PasswordTooShort)
    else if !IsComplexPassword(req.password.value) then Reject(PasswordTooWeak)
    else
      EmailShapeIffPattern(req.email.value);
      ComplexityIffPattern(req.password.value);
      CreateAccount(req.email.value, req.password.value, req.firstName.value, req.lastName.value)
  }

  /** Each rejection happens exactly when its own check fails and every
      earlier check passed; the account is created exactly when all pass. */
  lemma SignUpFirstFailureWins(req: SignUpRequest)
    ensures ValidateSignUp(req) == Reject(MissingFields) <==> !AllPresent(req)
    ensures ValidateSignUp(req) == Reject(InvalidEmail) <==>
      AllPresent(req) && !EmailPatternMatches(req.email.value)
    ensures ValidateSignUp(req) == Reject(PasswordTooShort) <==>
      AllPresent(req) && EmailPatternMatches(req.email.value) && |req.password.value| < 8
    ensures ValidateSignUp(req) == Reject(PasswordTooWeak) <==>
      && AllPresent(req) && EmailPatternMatches(req.email.value)
      && |req.password.value| >= 8 && !ComplexityPatternMatches(req.password.value)
    ensures ValidateSignUp(req).CreateAccount? <==>
      && AllPresent(req) && EmailPatternMatches(req.email.value)
      && |req.password.value| >= 8 && ComplexityPatternMatches(req.password.value)
  {
    if AllPresent(req) {
      EmailShapeIffPattern(req.email.value);
      ComplexityIffPattern(req.password.value);
    }
  }

  /** The pattern already demands eight characters, so the length check only
      chooses the message: whether the account is created depends on
      presence, email shape and complexity alone. */
  lemma LengthCheckOnlyChoosesMessage(req: SignUpRequest)
    ensures ValidateSignUp(req).CreateAccount? <==>
      AllPresent(req) && EmailPatternMatches(req.email.value) && ComplexityPatternMatches(req.password.value)
  {
    SignUpFirstFailureWins(req);
    if AllPresent(req) && ComplexityPatternMatches(req.password.value) {
      ComplexityIffPattern(req.password.value);
    }
  }

  /** A sample address the email check accepts. */
  lemma SampleEmailShaped()
    ensures IsEmailShaped("a@b.co")
  {
    var s := "a@b.co";
    IndexOfUnique(s, '@', 1);
    var rest := s[2..];
    assert rest == "b.co";
    IndexOfUnique(rest, '@', 4);
    assert DomainSegment(s) == rest;
    assert rest[1..3][0] == '.';
  }

  /** A seven-character password gets the length message. */
  lemma SevenCharPasswordTooShort()
    ensures ValidateSignUp(SignUpRequest(Some("a@b.co"), Some("Abcde1!"), Some("Ada"), Some("Lovelace")))
            == Reject(PasswordTooShort)
  {
    SampleEmailShaped();
  }

  /** An eight-character password with all four classes passes both
      password checks. */
  lemma EightCharComplexPasswordAccepted()
    ensures ValidateSignUp(SignUpRequest(Some("a@b.co"), Some("Abcdef1!"), Some("Ada"), Some("Lovelace")))
            == CreateAccount("a@b.co", "Abcdef1!", "Ada", "Lovelace")
  {
    SampleEmailShaped();
    SamplePasswordComplex();
  }

  /** A sample eight-character password the complexity check accepts. */
  lemma SamplePasswordComplex()
    ensures IsComplexPassword("Abcdef1!")
  {
    var p := "Abcdef1!";
    assert Body(p) == p;
    assert IsUpper(p[0]);
    assert IsLower(p[1]);
    assert IsDigit(p[6]);
    assert p[7] == "!@#$%^&*()_+{}[]:;<>,.?~\\-"[0];
  }

  // ---------------------------------------------------------------------
  // PATCH field whitelist (`RetrieveUpdateDestroyExistingUser.patch`)
  // ---------------------------------------------------------------------

  /** The only fields a PATCH may change. */
  predicate IsUpdatableField(key: string) {
    key == "first_name" || key == "last_name"
  }

  /** `[key for key in data.keys() if key not in ['first_name', 'last_name']]`. */
  function InvalidKeys(keys: seq<string>): (bad: seq<string>)
    ensures forall k :: k in bad <==> k in keys && !IsUpdatableField(k)
    ensures |bad| <= |keys|
  {
    if |keys| == 0 then []
    else
      var rest := InvalidKeys(keys[1..]);
      assert keys == [keys[0]] + keys[1..];
      if IsUpdatableField(keys[0]) then rest else [keys[0]] + rest
  }

  /** The filter keeps request order: it distributes over concatenation. */
  lemma {:induction false} InvalidKeysAppend(a: seq<string>, b: seq<string>)
    ensures InvalidKeys(a + b) == InvalidKeys(a) + InvalidKeys(b)
    decreases |a|
  {
    if |a| == 0 {
      assert a + b == b;
    } else {
      assert (a + b)[0] == a[0];
      assert (a + b)[1..] == a[1..] + b;
      InvalidKeysAppend(a[1..], b);
    }
  }

  /** Keys none of which is updatable are reported all, in the order given. */
  lemma {:induction false} InvalidKeysKeepsOnlyInvalid(keys: seq<string>)
    requires forall i :: 0 <= i < |keys| ==> !IsUpdatableField(keys[i])
    ensures InvalidKeys(keys) == keys
    decreases |keys|
  {
    if |keys| > 0 {
      InvalidKeysKeepsOnlyInvalid(keys[1..]);
    }
  }

  /** The 400 message naming the rejected fields. */
  function WhitelistMessage(bad: seq<string>): string
  {
    "Only 'first_name', 'last_name', can be updated. Invalid field(s): " + Join(bad, ", ")
  }
}
