/** `POST /api/vendorregister` (app/api/vendorregister/route.js): required
    fields, e-mail format, password length and duplicate e-mail are checked
    in that order, the first failure decides the response, and only a
    request that passes all four adds a vendor with a hashed password. */
module VendorRegister {
  import opened Common
  import opened JsString
  import opened Crypto
  import opened VendorStore
  import RegisterForm

  // ---------------------------------------------------------------------
  // /^[^\s@]+@[^\s@]+\.[^\s@]+$/

  /** `[^\s@]` */
  predicate IsPlainChar(c: char) {
    !IsJsWhitespace(c) && c != '@'
  }

  /** The pattern matches with its '@' at i and the '.' it uses at j. */
  ghost predicate ServerEmailMatchAt(e: string, i: int, j: int) {
    && 0 < i && i + 1 < j && j + 1 < |e|
    && e[i] == '@' && e[j] == '.'
    && AllChars(e[..i], IsPlainChar)
    && AllChars(e[i + 1..j], IsPlainChar)
    && AllChars(e[j + 1..], IsPlainChar)
  }

  ghost predicate ServerEmailPattern(e: string) {
    exists i, j :: ServerEmailMatchAt(e, i, j)
  }

  /** The check as a scan: one '@' with text before it, no white space,
      and a '.' strictly inside the part after the '@'. */
  predicate ServerEmailOk(e: string): (b: bool)
    ensures b ==> |e| >= 5 && IsPlainChar(e[0]) && IsPlainChar(e[|e| - 1])
  {
    var at := IndexOf(e, '@');
    && at > 0
    && AllChars(e[..at], IsPlainChar)
    && var rest := e[at + 1..];
       && |rest| >= 3
       && AllChars(rest, IsPlainChar)
       && '.' in rest[1..|rest| - 1]
  }

  lemma AllCharsSlice(s: string, p: char -> bool, a: int, b: int)
    requires AllChars(s, p) && 0 <= a <= b <= |s|
    ensures AllChars(s[a..b], p)
  {
    assert forall k :: 0 <= k < b - a ==> s[a..b][k] == s[a + k];
  }

  lemma ServerEmailOkMatches(e: string)
    requires ServerEmailOk(e)
    ensures ServerEmailPattern(e)
  {
    var at := IndexOf(e, '@');
    var rest := e[at + 1..];
    var k :| 0 <= k < |rest[1..|rest| - 1]| && rest[1..|rest| - 1][k] == '.';
    var j := at + 2 + k;
    assert e[j] == '.';
    assert e[at + 1..j] == rest[..k + 1];
    assert e[j + 1..] == rest[k + 2..];
    AllCharsSlice(rest, IsPlainChar, 0, k + 1);
    AllCharsSlice(rest, IsPlainChar, k + 2, |rest|);
    assert ServerEmailMatchAt(e, at, j);
  }

  lemma ServerPatternOk(e: string, i: int, j: int)
    requires ServerEmailMatchAt(e, i, j)
    ensures ServerEmailOk(e)
  {
    assert forall k :: 0 <= k < i ==> e[..i][k] != '@';
    assert '@' !in e[..i];
    RegisterForm.IndexOfIs(e, '@', i);
    var rest := e[i + 1..];
    assert rest == e[i + 1..j] + ['.'] + e[j + 1..];
    assert forall k :: 0 <= k < |rest| ==> IsPlainChar(rest[k]) by {
      forall k | 0 <= k < |rest| ensures IsPlainChar(rest[k]) {
        if k < j - i - 1 {
          assert rest[k] == e[i + 1..j][k];
        } else if k > j - i - 1 {
          assert rest[k] == e[j + 1..][k - (j - i)];
        }
      }
    }
    assert rest[1..|rest| - 1][j - i - 2] == '.';
  }

  /** The scan accepts exactly the language of the server's pattern. */
  lemma ServerEmailOkIsPattern(e: string)
    ensures ServerEmailOk(e) <==> ServerEmailPattern(e)
  {
    if ServerEmailOk(e) {
      ServerEmailOkMatches(e);
    }
    if ServerEmailPattern(e) {
      var i, j :| ServerEmailMatchAt(e, i, j);
      ServerPatternOk(e, i, j);
    }
  }

  /** An accepted address has exactly one '@' and no white space at all. */
  lemma ServerEmailOneAt(e: string)
    requires ServerEmailOk(e)
    ensures Count(e, '@') == 1
    ensures forall k | 0 <= k < |e| :: !IsJsWhitespace(e[k])
  {
    var at := IndexOf(e, '@');
    var rest := e[at + 1..];
    assert '@' !in rest by {
      assert forall k | 0 <= k < |rest| :: IsPlainChar(rest[k]);
    }
    PartsAround(e, at);
    RegisterForm.CountSingle(e[..at], '@', rest);
    PlainAround(e, at);
  }

  /** Plain text on both sides of a position leaves no white space. */
  lemma PlainAround(e: string, at: nat)
    requires at < |e| && !IsJsWhitespace(e[at])
    requires AllChars(e[..at], IsPlainChar) && AllChars(e[at + 1..], IsPlainChar)
    ensures forall k | 0 <= k < |e| :: !IsJsWhitespace(e[k])
  {
    forall k | 0 <= k < |e| ensures !IsJsWhitespace(e[k]) {
      if k < at {
        assert e[k] == e[..at][k];
      } else if k > at {
        assert e[k] == e[at + 1..][k - at - 1];
      }
    }
  }

  lemma AllCharsWeaken(s: string, p: char -> bool, q: char -> bool)
    requires AllChars(s, p)
    requires forall c :: p(c) ==> q(c)
    ensures AllChars(s, q)
  {
  }

  /** Every address the registration form accepts also passes this
      endpoint's (looser) pattern. */
  lemma FormEmailPassesServer(e: string)
    requires RegisterForm.IsValidEmail(e)
    ensures ServerEmailOk(e)
  {
    RegisterForm.IsValidEmailMatchesPattern(e);
    var i, j :| RegisterForm.EmailMatchAt(e, i, j);
    AllCharsWeaken(e[..i], RegisterForm.IsLocalChar, IsPlainChar);
    AllCharsWeaken(e[i + 1..j], RegisterForm.IsDomainChar, IsPlainChar);
    AllCharsWeaken(e[j + 1..], IsAsciiLetter, IsPlainChar);
    ServerPatternOk(e, i, j);
  }

  // ---------------------------------------------------------------------
  // The handler

  datatype RegisterBody = RegisterBody(
    name: Option<string>, phone: Option<string>, email: Option<string>,
    password: Option<string>, shopName: Option<string>, address: Option<string>)

  const MinPasswordLength: nat := 8

  predicate AnyMissing(b: RegisterBody) {
    Missing(b.name) || Missing(b.phone) || Missing(b.email)
    || Missing(b.password) || Missing(b.shopName) || Missing(b.address)
  }

  /** The record `Vendor.create` stores for a request that passed. */
  function NewVendor(b: RegisterBody, id: Id): Vendor
    requires !AnyMissing(b)
  {
    Vendor(id, b.name.value, b.phone.value, b.email.value, b.shopName.value,
           b.address.value, Hash(b.password.value))
  }

  /** `POST(req)`: `body` is `None` when the request body is not JSON (the
      handler's catch-all 500); `freshId` is the identifier the database
      assigns to a created record. */
  function Register(body: Option<RegisterBody>, store: Store, freshId: Id): (r: (Response, Store))
    ensures r.0.status == 201 <==>
              body.Some? && !AnyMissing(body.value) && ServerEmailOk(body.value.email.value)
              && Utf16Length(body.value.password.value) >= MinPasswordLength
              && !EmailTaken(store, body.value.email.value)
    ensures r.0.status == 201 ==> r.1 == store + [NewVendor(body.value, freshId)]
    ensures r.0.status != 201 ==> r.1 == store
    ensures r.0.status == 409 <==>
              body.Some? && !AnyMissing(body.value) && ServerEmailOk(body.value.email.value)
              && Utf16Length(body.value.password.value) >= MinPasswordLength
              && EmailTaken(store, body.value.email.value)
    ensures r.0.status == 500 <==> body.None?
    ensures body.Some? && AnyMissing(body.value) ==> r.0 == Response(400, Message("All fields are required."))
    ensures body.Some? && !AnyMissing(body.value) && !ServerEmailOk(body.value.email.value) ==>
              r.0 == Response(400, Message("Invalid email format."))
    ensures body.Some? && !AnyMissing(body.value) && ServerEmailOk(body.value.email.value)
            && Utf16Length(body.value.password.value) < MinPasswordLength ==>
              r.0 == Response(400, Message("Password must be at least 8 characters long."))
    ensures r.0.status in {201, 400, 409, 500}
  {
    match body
    case None => (Response(500, Message("An error occurred while registering the vendor.")), store)
    case Some(b) =>
      if AnyMissing(b) then
        (Response(400, Message("All fields are required.")), store)
      else if !ServerEmailOk(b.email.value) then
        (Response(400, Message("Invalid email format.")), store)
      else if Utf16Length(b.password.value) < MinPasswordLength then
        (Response(400, Message("Password must be at least 8 characters long.")), store)
      else if EmailTaken(store, b.email.value) then
        (Response(409, Message("Email is already in use.")), store)
      else
        (Response(201, Message("Vendor registered successfully.")), store + [NewVendor(b, freshId)])
  }

  /** A successful registration adds one vendor with that e-mail, whose
      stored password is the hash and not the plain text. */
  lemma RegisteredVendorStoresHash(b: RegisterBody, store: Store, freshId: Id)
    requires Register(Some(b), store, freshId).0.status == 201
    ensures var s' := Register(Some(b), store, freshId).1;
            && |s'| == |store| + 1
            && s'[|store|].email == b.email.value
            && s'[|store|].password != b.password.value
            && Compare(b.password.value, s'[|store|].password)
            && EmailTaken(s', b.email.value)
  {
    var s' := Register(Some(b), store, freshId).1;
    assert s'[|store|].email == b.email.value;
  }

  /** The password rule of this endpoint is length only: eight characters
      of any kind pass, and no digit is asked for. */
  lemma PasswordLengthOnly(b: RegisterBody, store: Store, freshId: Id)
    requires !AnyMissing(b) && ServerEmailOk(b.email.value) && !EmailTaken(store, b.email.value)
    requires b.password == Some("abcdefgh")
    ensures Register(Some(b), store, freshId).0.status == 201
  {
    Utf16LengthBmp("abcdefgh");
  }

  /** The length is JavaScript's `length`, in UTF-16 code units: six
      letters and one emoji are seven characters but eight units, and
      pass. */
  lemma AstralPasswordPasses(b: RegisterBody, store: Store, freshId: Id)
    requires !AnyMissing(b) && ServerEmailOk(b.email.value) && !EmailTaken(store, b.email.value)
    requires b.password == Some("abcdef\U{1F600}")
    ensures |b.password.value| == 7
    ensures Register(Some(b), store, freshId).0.status == 201
  {
    var p := b.password.value;
    assert IsAstral(p[6]);
    Utf16LengthConcat("abcdef", [p[6]]);
    Utf16LengthBmp("abcdef");
    assert p == "abcdef" + [p[6]];
  }
}
