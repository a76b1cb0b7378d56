/** The validation part of `api_register` (app.py:169-189): the fields are
    normalised, then checked in a fixed order, and the first failing check
    decides the response. */
module Registration {
  import opened Wrappers
  import opened Validation

  /** The JSON body of a registration request; an absent key has already
      been replaced by its default (`''`, and `'customer'` for the role). */
  datatype RegisterRequest = RegisterRequest(
    username: string, fullName: string, email: string,
    phone: string, role: string, password: string)

  /** The normalised fields the handler goes on to insert (before the
      password is hashed). */
  datatype NewUser = NewUser(
    username: string, fullName: string, email: string,
    phone: string, role: string, password: string)

  /** The 400 responses of the cascade, one per check. */
  datatype RegisterError =
    | FieldsRequired
    | InvalidUsername
    | InvalidName
    | InvalidEmail
    | InvalidPhone
    | PasswordTooShort

  /** The text of each 400 response. The four validator failures all read
      "Invalid ..."; the other two do not. See MessagesDistinct. */
  function Message(e: RegisterError): (m: string)
    ensures |m| > 0
    ensures (|m| >= 8 && m[..8] == "Invalid ") <==> (e != FieldsRequired && e != PasswordTooShort)
  {
    match e
    case FieldsRequired =>
      var m := "All fields are required";
      assert m[..8][0] == 'A';
      m
    case InvalidUsername => "Invalid " + "username"
    case InvalidName => "Invalid " + "name"
    case InvalidEmail => "Invalid " + "email"
    case InvalidPhone => "Invalid " + "phone"
    case PasswordTooShort =>
      var m := "Password too short";
      assert m[..8][0] == 'P';
      m
  }

  /** Different checks answer with different texts, so a client can tell
      from the message alone which check refused the request. */
  lemma MessagesDistinct(a: RegisterError, b: RegisterError)
    ensures Message(a) == Message(b) ==> a == b
  {
  }

  /** Lines 171-176: username, name, email and phone are stripped, the
      email is then lower-cased; role and password are taken as they are. */
  function Normalize(req: RegisterRequest): (u: NewUser)
    ensures u.role == req.role && u.password == req.password
    ensures Strip(u.username) == u.username && Strip(u.fullName) == u.fullName
    ensures Strip(u.email) == u.email && Strip(u.phone) == u.phone
    ensures forall k :: 0 <= k < |u.email| ==> !IsAsciiUpper(u.email[k])
  {
    StripIdempotent(req.username);
    StripIdempotent(req.fullName);
    StripIdempotent(req.phone);
    StrippedLowerIsStripped(req.email);
    NewUser(Strip(req.username), Strip(req.fullName), Lower(Strip(req.email)),
            Strip(req.phone), req.role, req.password)
  }

  /** The position of each check in the cascade. */
  function Rank(e: RegisterError): nat {
    match e
    case FieldsRequired => 0
    case InvalidUsername => 1
    case InvalidName => 2
    case InvalidEmail => 3
    case InvalidPhone => 4
    case PasswordTooShort => 5
  }

  /** Whether the fields pass the check that reports `e`, taken on its own. */
  predicate Passes(u: NewUser, e: RegisterError) {
    match e
    case FieldsRequired =>
      u.username != [] && u.fullName != [] && u.email != [] && u.phone != [] && u.password != []
    case InvalidUsername => IsValidUsername(u.username)
    case InvalidName => IsValidName(u.fullName)
    case InvalidEmail => IsValidEmail(u.email)
    case InvalidPhone => IsValidPhone(u.phone)
    case PasswordTooShort => |u.password| >= 6
  }

  /** The cascade of lines 178-189. A request is accepted exactly when it
      passes every check, and then yields its normalised fields; otherwise
      the error is that of a failing check all of whose predecessors pass. */
  function Validate(req: RegisterRequest): (r: Result<NewUser, RegisterError>)
    ensures r.Ok? <==> forall e :: Passes(Normalize(req), e)
    ensures r.Ok? ==> r.value == Normalize(req)
    ensures r.Err? ==> !Passes(Normalize(req), r.error)
    ensures r.Err? ==> forall e :: Rank(e) < Rank(r.error) ==> Passes(Normalize(req), e)
  {
    var u := Normalize(req);
    var r := FirstFailure(u);
    r
  }

  /** The cascade itself, on normalised fields. */
  function FirstFailure(u: NewUser): (r: Result<NewUser, RegisterError>)
    ensures r.Ok? <==> forall e :: Passes(u, e)
    ensures r.Ok? ==> r.value == u
    ensures r.Err? ==> !Passes(u, r.error)
    ensures r.Err? ==> forall e :: Rank(e) < Rank(r.error) ==> Passes(u, e)
  {
    if !Passes(u, FieldsRequired) then Err(FieldsRequired)
    else if !Passes(u, InvalidUsername) then Err(InvalidUsername)
    else if !Passes(u, InvalidName) then Err(InvalidName)
    else if !Passes(u, InvalidEmail) then Err(InvalidEmail)
    else if !Passes(u, InvalidPhone) then Err(InvalidPhone)
    else if !Passes(u, PasswordTooShort) then Err(PasswordTooShort)
    else Ok(u)
  }

  /** What an accepted registration guarantees about the stored fields. */
  lemma AcceptedFields(req: RegisterRequest)
    requires Validate(req).Ok?
    ensures var u := Validate(req).value;
      && |u.username| >= 3 && (forall k :: 0 <= k < |u.username| ==> InClass(u.username[k], WordChar))
      && u.fullName != [] && (forall k :: 0 <= k < |u.fullName| ==> InClass(u.fullName[k], NameChar))
      && |u.phone| == 10 && (forall k :: 0 <= k < |u.phone| ==> IsAsciiDigit(u.phone[k]))
      && |u.password| >= 6
      && EmailShape(u.email)
      && (forall k :: 0 <= k < |u.email| ==> !IsAsciiUpper(u.email[k]))
      && Strip(u.username) == u.username && Strip(u.fullName) == u.fullName
      && Strip(u.email) == u.email && Strip(u.phone) == u.phone
  {
    AcceptedUser(Validate(req).value);
  }

  lemma AcceptedUser(u: NewUser)
    requires forall e :: Passes(u, e)
    ensures |u.username| >= 3 && (forall k :: 0 <= k < |u.username| ==> InClass(u.username[k], WordChar))
    ensures u.fullName != [] && (forall k :: 0 <= k < |u.fullName| ==> InClass(u.fullName[k], NameChar))
    ensures |u.phone| == 10 && (forall k :: 0 <= k < |u.phone| ==> IsAsciiDigit(u.phone[k]))
    ensures |u.password| >= 6
    ensures EmailShape(u.email)
  {
    assert Passes(u, InvalidUsername) && Passes(u, InvalidName) && Passes(u, InvalidEmail) && Passes(u, InvalidPhone);
    assert Passes(u, FieldsRequired) && Passes(u, PasswordTooShort);
    EmailMatchesPattern(u.email);
  }

  lemma StrippedLowerIsStripped(s: string)
    ensures Strip(Lower(Strip(s))) == Lower(Strip(s))
  {
    LowerStripCommute(Strip(s));
    StripIdempotent(s);
  }

  /** The name check accepts the empty string; an empty (or all-blank) name
      is refused only by the earlier required-fields check. */
  lemma EmptyNameRefusedAsMissing(req: RegisterRequest)
    requires forall k :: 0 <= k < |req.fullName| ==> IsSpace(req.fullName[k])
    ensures IsValidName(Normalize(req).fullName)
    ensures Validate(req) == Err(FieldsRequired)
  {
  }

  /** Requests whose emails differ only in the case of their letters get
      the same answer. */
  lemma EmailCaseIgnored(a: RegisterRequest, b: RegisterRequest)
    requires Lower(a.email) == Lower(b.email)
    requires a.(email := b.email) == b
    ensures Validate(a) == Validate(b)
  {
    LowerStripCommute(a.email);
    LowerStripCommute(b.email);
    assert Normalize(a) == Normalize(b);
  }
}
