/** `POST /api/vendorExists` (app/api/vendorExists/route.js): a vendor is
    looked up by e-mail and identifier together, and its identity is
    returned only when the password matches the stored hash. The handler
    never writes to the collection. */
module VendorExists {
  import opened Common
  import opened Crypto
  import opened VendorStore
  import VendorRegister

  datatype ExistsBody = ExistsBody(email: Option<string>, password: Option<string>, verifiedId: Option<Id>)

  predicate AnyMissing(b: ExistsBody) {
    Missing(b.email) || Missing(b.password) || Missing(b.verifiedId)
  }

  /** `POST(req)`: `body` is `None` when the request body is not JSON. The
      collection is not a result, because the handler only reads it. */
  function Verify(body: Option<ExistsBody>, store: Store): (r: Response)
    ensures r.status == 200 <==>
              && body.Some? && !AnyMissing(body.value)
              && var v := FindOne(store, body.value.email.value, body.value.verifiedId.value);
                 v.Some? && Compare(body.value.password.value, v.value.password)
    ensures r.status == 200 ==>
              exists v | v in store ::
                && r.body == VendorInfo(v.id, v.email, v.name)
                && v.email == body.value.email.value && v.id == body.value.verifiedId.value
                && Compare(body.value.password.value, v.password)
    ensures r.status == 404 <==>
              body.Some? && !AnyMissing(body.value)
              && !exists k | 0 <= k < |store| ::
                   store[k].email == body.value.email.value && store[k].id == body.value.verifiedId.value
    ensures r.status == 401 <==>
              && body.Some? && !AnyMissing(body.value)
              && var v := FindOne(store, body.value.email.value, body.value.verifiedId.value);
                 v.Some? && !Compare(body.value.password.value, v.value.password)
    ensures r.status == 401 ==> r.body == Message("Invalid email or password.")
    ensures r.status == 500 <==> body.None?
    ensures body.Some? && AnyMissing(body.value) ==>
              r == Response(400, Message("Email, password, and verifiedId are required."))
    ensures r.status in {200, 400, 401, 404, 500}
  {
    match body
    case None => Response(500, Message("An error occurred while retrieving the vendor."))
    case Some(b) =>
      if AnyMissing(b) then
        Response(400, Message("Email, password, and verifiedId are required."))
      else
        match FindOne(store, b.email.value, b.verifiedId.value)
        case None => Response(404, Message("Vendor not found."))
        case Some(v) =>
          if !Compare(b.password.value, v.password) then
            Response(401, Message("Invalid email or password."))
          else
            Response(200, VendorInfo(v.id, v.email, v.name))
  }

  /** A verification request for the e-mail just registered, with a
      password and the identifier the database gave the record. */
  function VerifyRequest(b: VendorRegister.RegisterBody, id: Id, password: string): ExistsBody {
    ExistsBody(b.email, Some(password), Some(id))
  }

  /** Registering and then verifying with the same password returns the new
      vendor's identity, provided the database's identifier is new. */
  lemma RegisterThenVerify(b: VendorRegister.RegisterBody, store: Store, freshId: Id)
    requires freshId != "" && !IdTaken(store, freshId)
    requires VendorRegister.Register(Some(b), store, freshId).0.status == 201
    ensures var store' := VendorRegister.Register(Some(b), store, freshId).1;
            Verify(Some(VerifyRequest(b, freshId, b.password.value)), store')
              == Response(200, VendorInfo(freshId, b.email.value, b.name.value))
  {
    var v := VendorRegister.NewVendor(b, freshId);
    FindOneAppend(store, v, b.email.value, freshId);
    CompareHash(b.password.value, b.password.value);
  }

  /** After the same registration, a password is refused with 401 exactly
      when its bcrypt key differs from the registered password's key. */
  lemma RegisterThenWrongPassword(b: VendorRegister.RegisterBody, store: Store, freshId: Id, password: string)
    requires freshId != "" && !IdTaken(store, freshId)
    requires VendorRegister.Register(Some(b), store, freshId).0.status == 201
    requires password != ""
    ensures var store' := VendorRegister.Register(Some(b), store, freshId).1;
            var r := Verify(Some(VerifyRequest(b, freshId, password)), store');
            && (r.status == 401 <==> Key(password) != Key(b.password.value))
            && (r.status == 200 <==> Key(password) == Key(b.password.value))
  {
    var v := VendorRegister.NewVendor(b, freshId);
    FindOneAppend(store, v, b.email.value, freshId);
    CompareHash(b.password.value, password);
  }

  /** For passwords of at most 71 bytes without a NUL character, every
      other password is refused. */
  lemma RegisterThenShortWrongPassword(b: VendorRegister.RegisterBody, store: Store, freshId: Id, password: string)
    requires freshId != "" && !IdTaken(store, freshId)
    requires VendorRegister.Register(Some(b), store, freshId).0.status == 201
    requires password != "" && password != b.password.value
    requires '\0' !in password && '\0' !in b.password.value
    requires |Utf8Bytes(password)| < KeyLength && |Utf8Bytes(b.password.value)| < KeyLength
    ensures var store' := VendorRegister.Register(Some(b), store, freshId).1;
            Verify(Some(VerifyRequest(b, freshId, password)), store').status == 401
  {
    ShortKeyDetermines(password, b.password.value);
    RegisterThenWrongPassword(b, store, freshId, password);
  }

  /** After the same registration, any password with the registered
      password's key is accepted with the vendor's identity. */
  lemma RegisterThenSameKey(b: VendorRegister.RegisterBody, store: Store, freshId: Id, password: string)
    requires freshId != "" && !IdTaken(store, freshId)
    requires VendorRegister.Register(Some(b), store, freshId).0.status == 201
    requires password != "" && Key(password) == Key(b.password.value)
    ensures var store' := VendorRegister.Register(Some(b), store, freshId).1;
            Verify(Some(VerifyRequest(b, freshId, password)), store')
              == Response(200, VendorInfo(freshId, b.email.value, b.name.value))
  {
    var v := VendorRegister.NewVendor(b, freshId);
    FindOneAppend(store, v, b.email.value, freshId);
    CompareHash(b.password.value, password);
  }

  /** A registered password longer than 72 bytes is also matched by a
      different password sharing its first 72 bytes: seventy-two 'a's
      followed by "1" is registered, and the same followed by "2" is
      accepted with the vendor's identity. */
  lemma RegisterThenLongVariantAccepted(b: VendorRegister.RegisterBody, store: Store, freshId: Id)
    requires freshId != "" && !IdTaken(store, freshId)
    requires b.password == Some(seq(72, _ => 'a') + "1")
    requires VendorRegister.Register(Some(b), store, freshId).0.status == 201
    ensures var store' := VendorRegister.Register(Some(b), store, freshId).1;
            var other := seq(72, _ => 'a') + "2";
            && other != b.password.value
            && Verify(Some(VerifyRequest(b, freshId, other)), store')
                 == Response(200, VendorInfo(freshId, b.email.value, b.name.value))
  {
    var a := seq(72, _ => 'a');
    LongPasswordsCollide();
    CompareHash(a + "1", a + "2");
    RegisterThenSameKey(b, store, freshId, a + "2");
  }
}
