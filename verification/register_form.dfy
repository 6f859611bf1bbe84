/** The customer registration form (components/RegisterForm.jsx): the e-mail
    format check, the e-mail domain allow-list, the password rule, and the
    order in which `handleSubmit` applies them before it contacts the
    server. The two server calls are parameters: whether `/api/userExists`
    reports a user, and whether `/api/customerregister` answers OK. */
module RegisterForm {
  import opened Common
  import opened JsString

  const ValidEmailDomains: seq<string> := ["gmail.com", "outlook.com", "zinnia.com", "uts.com"]

  // ---------------------------------------------------------------------
  // isValidEmail: /^[a-zA-Z0-9._%+-]+@[a-zA-Z0-9.-]+\.[a-zA-Z]{2,}$/

  /** `[a-zA-Z0-9._%+-]` */
  predicate IsLocalChar(c: char) {
    IsAsciiAlnum(c) || c == '.' || c == '_' || c == '%' || c == '+' || c == '-'
  }

  /** `[a-zA-Z0-9.-]` */
  predicate IsDomainChar(c: char) {
    IsAsciiAlnum(c) || c == '.' || c == '-'
  }

  /** The pattern matches with its '@' at position i and its last '.' at j. */
  ghost predicate EmailMatchAt(e: string, i: int, j: int) {
    && 0 < i && i + 1 < j && j + 3 <= |e|
    && e[i] == '@' && e[j] == '.'
    && AllChars(e[..i], IsLocalChar)
    && AllChars(e[i + 1..j], IsDomainChar)
    && AllChars(e[j + 1..], IsAsciiLetter)
  }

  /** The language of the pattern. */
  ghost predicate EmailPattern(e: string) {
    exists i, j :: EmailMatchAt(e, i, j)
  }

  /** `isValidEmail`: no class before the final `\.` admits '@', so the '@'
      is the first one; the top-level domain admits no '.', so the
      separating '.' is the last one. */
  predicate IsValidEmail(e: string): (b: bool)
    ensures b ==> |e| >= 6 && IsLocalChar(e[0])
    ensures b ==> IsAsciiLetter(e[|e| - 2]) && IsAsciiLetter(e[|e| - 1])
  {
    EmailEnds(e, IndexOf(e, '@'));
    var at := IndexOf(e, '@');
    && at > 0
    && var rest := e[at + 1..];
       var dot := LastIndexOf(rest, '.');
       && dot > 0 && dot + 3 <= |rest|
       && AllChars(e[..at], IsLocalChar)
       && AllChars(rest[..dot], IsDomainChar)
       && AllChars(rest[dot + 1..], IsAsciiLetter)
  }

  /** Where the '@' and the last '.' after it leave room for the parts
      the pattern needs, the first character is from the local part and
      the last two are letters. */
  lemma EmailEnds(e: string, at: int)
    ensures (0 < at < |e| && var rest := e[at + 1..]; var dot := LastIndexOf(rest, '.');
             && dot > 0 && dot + 3 <= |rest|
             && AllChars(e[..at], IsLocalChar) && AllChars(rest[dot + 1..], IsAsciiLetter))
            ==> |e| >= 6 && IsLocalChar(e[0]) && IsAsciiLetter(e[|e| - 2]) && IsAsciiLetter(e[|e| - 1])
  {
    if 0 < at < |e| {
      var rest := e[at + 1..];
      var dot := LastIndexOf(rest, '.');
      if dot > 0 && dot + 3 <= |rest| && AllChars(e[..at], IsLocalChar) && AllChars(rest[dot + 1..], IsAsciiLetter) {
        var t := rest[dot + 1..];
        assert t[|t| - 1] == e[|e| - 1] && t[|t| - 2] == e[|e| - 2];
        assert e[..at][0] == e[0];
      }
    }
  }

  lemma IndexOfIs(s: string, c: char, i: int)
    requires 0 <= i < |s| && s[i] == c && c !in s[..i]
    ensures IndexOf(s, c) == i
  {
    assert forall k :: 0 <= k < i ==> s[..i][k] == s[k];
    var r := IndexOf(s, c);
    assert forall k :: 0 <= k < r ==> s[..r][k] == s[k];
  }

  lemma LastIndexOfIs(s: string, c: char, i: int)
    requires 0 <= i < |s| && s[i] == c && c !in s[i + 1..]
    ensures LastIndexOf(s, c) == i
  {
    assert forall k :: i < k < |s| ==> s[i + 1..][k - i - 1] == s[k];
    var r := LastIndexOf(s, c);
    assert forall k :: r < k < |s| ==> s[r + 1..][k - r - 1] == s[k];
  }

  lemma NotInClass(s: string, c: char, p: char -> bool)
    requires AllChars(s, p) && !p(c)
    ensures c !in s
  {
    assert forall k :: 0 <= k < |s| ==> s[k] != c;
  }

  lemma ValidEmailMatches(e: string)
    requires IsValidEmail(e)
    ensures EmailPattern(e)
  {
    var at := IndexOf(e, '@');
    var rest := e[at + 1..];
    var dot := LastIndexOf(rest, '.');
    assert e[at + 1..at + 1 + dot] == rest[..dot];
    assert e[at + 1 + dot + 1..] == rest[dot + 1..];
    assert EmailMatchAt(e, at, at + 1 + dot);
  }

  lemma PatternIsValidEmail(e: string, i: int, j: int)
    requires EmailMatchAt(e, i, j)
    ensures IsValidEmail(e)
  {
    NotInClass(e[..i], '@', IsLocalChar);
    IndexOfIs(e, '@', i);
    var rest := e[i + 1..];
    var dot := j - i - 1;
    assert rest[dot + 1..] == e[j + 1..];
    NotInClass(e[j + 1..], '.', IsAsciiLetter);
    LastIndexOfIs(rest, '.', dot);
    assert rest[..dot] == e[i + 1..j];
  }

  /** The hand-written matcher accepts exactly the language of the pattern. */
  lemma IsValidEmailMatchesPattern(e: string)
    ensures IsValidEmail(e) <==> EmailPattern(e)
  {
    if IsValidEmail(e) {
      ValidEmailMatches(e);
    }
    if EmailPattern(e) {
      var i, j :| EmailMatchAt(e, i, j);
      PatternIsValidEmail(e, i, j);
    }
  }

  lemma AtNotAfterAt(e: string)
    requires IsValidEmail(e)
    ensures '@' !in e[IndexOf(e, '@') + 1..]
  {
    var at := IndexOf(e, '@');
    var rest := e[at + 1..];
    var dot := LastIndexOf(rest, '.');
    NoAtAroundDot(rest, dot);
  }

  /** A domain part and a top-level part around a '.' hold no '@'. */
  lemma NoAtAroundDot(rest: string, dot: int)
    requires 0 <= dot < |rest| && rest[dot] == '.'
    requires AllChars(rest[..dot], IsDomainChar) && AllChars(rest[dot + 1..], IsAsciiLetter)
    ensures '@' !in rest
  {
    NotInClass(rest[..dot], '@', IsDomainChar);
    NotInClass(rest[dot + 1..], '@', IsAsciiLetter);
    PartsAround(rest, dot);
  }

  lemma CountSingle(a: string, c: char, b: string)
    requires c !in a && c !in b
    ensures Count(a + [c] + b, c) == 1
  {
    CountConcat(a + [c], b, c);
    CountConcat(a, [c], c);
    NoCount(a, c);
    NoCount(b, c);
  }

  /** An address that passes the format check has exactly one '@'. */
  lemma ValidEmailHasOneAt(e: string)
    requires IsValidEmail(e)
    ensures Count(e, '@') == 1
    ensures |Split(e, '@')| == 2
  {
    var at := IndexOf(e, '@');
    AtNotAfterAt(e);
    PartsAround(e, at);
    CountSingle(e[..at], '@', e[at + 1..]);
    SplitCons(e[..at], '@', e[at + 1..]);
    SplitNoSeparator(e[at + 1..], '@');
  }

  // ---------------------------------------------------------------------
  // isValidEmailDomain

  /** `isValidEmailDomain`: exactly two '@'-separated parts, and the second,
      lower-cased, is one of the allowed domains. */
  predicate IsValidEmailDomain(e: string): (b: bool)
    ensures b ==> '@' in e && |e| >= 8
  {
    var parts := Split(e, '@');
    var at := IndexOf(e, '@');
    assert at < 0 ==> |parts| == 1;
    assert at >= 0 ==> parts == [e[..at]] + Split(e[at + 1..], '@');
    assert at >= 0 ==> |Split(e[at + 1..], '@')[0]| <= |e| - at - 1;
    |parts| == 2 && ToLower(parts[1]) in ValidEmailDomains
  }

  /** An address with no '@' or with several of them splits into other
      than two parts, so the domain check refuses it. */
  lemma AtCountNotOne(e: string)
    requires Count(e, '@') != 1
    ensures !IsValidEmailDomain(e)
  {
    SplitCount(e, '@');
  }

  /** On `local@domain` the check is a case-insensitive look-up of `domain`. */
  lemma EmailDomainOf(local: string, domain: string)
    requires '@' !in local && '@' !in domain
    ensures IsValidEmailDomain(local + "@" + domain) <==> ToLower(domain) in ValidEmailDomains
  {
    assert local + "@" + domain == local + ['@'] + domain;
    SplitCons(local, '@', domain);
    SplitNoSeparator(domain, '@');
  }

  /** Changing the letter case of the domain part never changes the verdict. */
  lemma EmailDomainCaseInsensitive(local: string, d1: string, d2: string)
    requires '@' !in local && '@' !in d1 && '@' !in d2
    requires ToLower(d1) == ToLower(d2)
    ensures IsValidEmailDomain(local + "@" + d1) == IsValidEmailDomain(local + "@" + d2)
  {
    EmailDomainOf(local, d1);
    EmailDomainOf(local, d2);
  }

  /** After a passing format check, the two-part condition of the domain
      check always holds, so only the domain itself decides. */
  lemma DomainCheckAfterFormat(e: string)
    requires IsValidEmail(e)
    ensures var at := IndexOf(e, '@');
            IsValidEmailDomain(e) <==> ToLower(e[at + 1..]) in ValidEmailDomains
  {
    var at := IndexOf(e, '@');
    assert e == e[..at] + "@" + e[at + 1..];
    AtNotAfterAt(e);
    EmailDomainOf(e[..at], e[at + 1..]);
  }

  // ---------------------------------------------------------------------
  // isValidPassword: /^(?=.*\d)[A-Za-z\d]{8,}$/

  /** `(?=.*\d)` succeeds on the digit at k: no line terminator before it. */
  predicate DigitAhead(p: string, k: int) {
    0 <= k < |p| && IsDigit(p[k]) && forall j | 0 <= j < k :: !IsLineTerminator(p[j])
  }

  /** Every password the form accepts is ASCII, so its JavaScript
      `length` is its character count, and the vendor endpoint's length
      rule also passes. */
  predicate IsValidPassword(p: string): (b: bool)
    ensures b ==> Utf16Length(p) == |p| >= 8
  {
    Utf16LengthBmp(p);
    && (exists k | 0 <= k < |p| :: DigitAhead(p, k))
    && |p| >= 8
    && AllChars(p, IsAsciiAlnum)
  }

  /** The password rule in plain words: at least eight characters, all ASCII
      letters or digits, at least one of them a digit. */
  lemma PasswordRule(p: string)
    ensures IsValidPassword(p)
        <==> |p| >= 8 && AllChars(p, IsAsciiAlnum) && exists k | 0 <= k < |p| :: IsDigit(p[k])
  {
    if |p| >= 8 && AllChars(p, IsAsciiAlnum) && exists k | 0 <= k < |p| :: IsDigit(p[k]) {
      var k :| 0 <= k < |p| && IsDigit(p[k]);
      assert DigitAhead(p, k);
    }
  }

  // ---------------------------------------------------------------------
  // handleSubmit

  datatype Fields = Fields(firstName: string, lastName: string, email: string, password: string)

  datatype Request =
    | UserExists(email: string, password: string)
    | CustomerRegister(firstName: string, lastName: string, email: string, password: string)

  /** The message shown, the requests issued in order, and the navigation. */
  datatype FormOutcome = FormOutcome(error: Option<string>, requests: seq<Request>, redirect: Option<string>)

  const LoginPath: string := "/onboardingcustomer/login"
  const MsgFieldsMissing: string := "All fields are necessary."
  const MsgBadEmail: string := "Please enter a valid email."
  const MsgBadDomain: string :=
    "Only the following email domains are allowed: @gmail.com, @outlook.com, @zinnia.com, @uts.com."
  const MsgBadPassword: string := "Password must be at least 8 characters long and contain at least 1 number."
  const MsgUserExists: string := "User already exists."
  const MsgRegisterFailed: string := "User registration failed."

  predicate AllFilled(f: Fields) {
    f.firstName != "" && f.lastName != "" && f.email != "" && f.password != ""
  }

  /** The client-side checks, first failure wins. */
  function FirstFailure(f: Fields): (r: Option<string>)
    ensures r.None? <==> AllFilled(f) && IsValidEmail(f.email) && IsValidEmailDomain(f.email) && IsValidPassword(f.password)
    ensures r == Some(MsgFieldsMissing) <==> !AllFilled(f)
    ensures AllFilled(f) && !IsValidEmail(f.email) ==> r == Some(MsgBadEmail)
    ensures AllFilled(f) && IsValidEmail(f.email) && !IsValidEmailDomain(f.email) ==> r == Some(MsgBadDomain)
    ensures AllFilled(f) && IsValidEmail(f.email) && IsValidEmailDomain(f.email) && !IsValidPassword(f.password)
            ==> r == Some(MsgBadPassword)
  {
    if !AllFilled(f) then Some(MsgFieldsMissing)
    else if !IsValidEmail(f.email) then Some(MsgBadEmail)
    else if !IsValidEmailDomain(f.email) then Some(MsgBadDomain)
    else if !IsValidPassword(f.password) then Some(MsgBadPassword)
    else None
  }

  function HandleSubmit(f: Fields, userExists: bool, registerOk: bool): (r: FormOutcome)
    ensures r.requests == [] <==> FirstFailure(f).Some?
    ensures FirstFailure(f).Some? ==> r.error == FirstFailure(f) && r.redirect.None?
    ensures r.requests != [] ==> r.requests[0] == UserExists(f.email, f.password)
    ensures userExists && FirstFailure(f).None?
            ==> r.error == Some(MsgUserExists) && |r.requests| == 1 && r.redirect.None?
    ensures (exists k | 0 <= k < |r.requests| :: r.requests[k].CustomerRegister?)
            <==> FirstFailure(f).None? && !userExists
    ensures r.redirect.Some? <==> FirstFailure(f).None? && !userExists && registerOk
    ensures r.redirect.Some? ==> r.redirect.value == LoginPath && r.error.None?
    ensures FirstFailure(f).None? && !userExists ==>
              r.requests == [UserExists(f.email, f.password),
                             CustomerRegister(f.firstName, f.lastName, f.email, f.password)]
    ensures FirstFailure(f).None? && !userExists && !registerOk ==>
              r.error == Some(MsgRegisterFailed) && r.redirect.None?
  {
    match FirstFailure(f)
    case Some(msg) => FormOutcome(Some(msg), [], None)
    case None =>
      var check := UserExists(f.email, f.password);
      if userExists then FormOutcome(Some(MsgUserExists), [check], None)
      else
        var reqs := [check, CustomerRegister(f.firstName, f.lastName, f.email, f.password)];
        assert reqs[1].CustomerRegister?;
        if registerOk then FormOutcome(None, reqs, Some(LoginPath))
        else FormOutcome(Some(MsgRegisterFailed), reqs, None)
  }

  /** A registration request is only ever sent for an address with exactly
      one '@', an allowed domain and a valid password. */
  lemma RegisterRequestOnlyWhenValid(f: Fields, userExists: bool, registerOk: bool)
    requires |HandleSubmit(f, userExists, registerOk).requests| == 2
    ensures Count(f.email, '@') == 1
    ensures ToLower(f.email[IndexOf(f.email, '@') + 1..]) in ValidEmailDomains
    ensures |f.password| >= 8
  {
    ValidEmailHasOneAt(f.email);
    DomainCheckAfterFormat(f.email);
  }
}
