/** The request-body validators of the HTTP layer (Joi schemas, plus the two time checks of
    `validateCreateEvent`) as pure predicates over the decoded body. */
module Validation {
  import opened Common

  datatype Rejection = SchemaViolation | EndNotAfterStart | StartInPast

  datatype Verdict = Accepted | Rejected(reason: Rejection)

  /** Joi's `string()` with `min`/`max`: the empty string is refused unless `.allow('')` is
      given (then it is accepted whatever `min` says); any other string must have a length
      within the bounds. */
  predicate JoiString(s: string, min: nat, max: Option<nat>, allowEmpty: bool) {
    if s == "" then allowEmpty else min <= |s| && (max.None? || |s| <= max.value)
  }

  /** Joi's `number().integer()`. */
  predicate IsInteger(x: real) {
    x.Floor as real == x
  }

  const TitleMax: nat := 80
  const DescriptionMax: nat := 4000
  const CapacityMax: nat := 500
  const PasswordMin: nat := 6
  const DisplayNameMin: nat := 2
  const DisplayNameMax: nat := 50
  const BioMax: nat := 500

  /** The body of a create-event request; `startTime` and `endTime` are the parsed ISO dates
      in milliseconds. */
  datatype CreateEventBody = CreateEventBody(
    title: string,
    description: string,
    category: string,
    address: string,
    capacity: real,
    startTime: int,
    endTime: int)

  predicate CreateEventSchema(b: CreateEventBody) {
    && JoiString(b.title, 1, Some(TitleMax), false)
    && JoiString(b.description, 0, Some(DescriptionMax), false)
    && JoiString(b.category, 0, None, false)
    && JoiString(b.address, 0, None, false)
    && IsInteger(b.capacity) && 0.0 <= b.capacity <= CapacityMax as real
  }

  /** `validateCreateEvent` at time `now`: the schema, then end after start, then not in the past. */
  function ValidateCreateEvent(b: CreateEventBody, now: int): (v: Verdict)
    ensures v.Accepted? <==> CreateEventSchema(b) && now < b.startTime < b.endTime
    ensures v == Rejected(EndNotAfterStart) <==> CreateEventSchema(b) && b.endTime <= b.startTime
    ensures v == Rejected(StartInPast) <==> CreateEventSchema(b) && b.startTime < b.endTime && b.startTime <= now
  {
    if !CreateEventSchema(b) then Rejected(SchemaViolation)
    else if b.endTime <= b.startTime then Rejected(EndNotAfterStart)
    else if b.startTime <= now then Rejected(StartInPast)
    else Accepted
  }

  /** What an accepted create-event body guarantees: text lengths, an integral capacity in
      0..500, and `now < startTime < endTime`. */
  lemma AcceptedEventBody(b: CreateEventBody, now: int)
    requires ValidateCreateEvent(b, now).Accepted?
    ensures 1 <= |b.title| <= 80
    ensures 1 <= |b.description| <= 4000
    ensures b.category != "" && b.address != ""
    ensures b.capacity == b.capacity.Floor as real && 0 <= b.capacity.Floor <= 500
    ensures now < b.startTime < b.endTime
  {
  }

  /** Conversely, a body meeting those bounds is accepted. */
  lemma CreateEventBodyAccepted(b: CreateEventBody, now: int)
    requires 1 <= |b.title| <= 80 && 1 <= |b.description| <= 4000
    requires b.category != "" && b.address != ""
    requires b.capacity == b.capacity.Floor as real && 0 <= b.capacity.Floor <= 500
    requires now < b.startTime < b.endTime
    ensures ValidateCreateEvent(b, now) == Accepted
  {
  }

  /** A fractional capacity or one above 500 is refused by the schema. */
  lemma CapacityOutOfRangeRejected(b: CreateEventBody, now: int)
    requires b.capacity == 2.5 || b.capacity == 501.0
    ensures ValidateCreateEvent(b, now) == Rejected(SchemaViolation)
  {
  }

  // ---------------------------------------------------------------------------------------
  // Accounts

  /** A sign-up body; whether `email` is a well-formed address is decided outside the model
      and passed in as `emailOk`. */
  datatype SignUpBody = SignUpBody(email: string, password: string, displayName: string)

  /** `validateSignUp`. */
  predicate ValidateSignUp(b: SignUpBody, emailOk: bool) {
    && emailOk
    && JoiString(b.password, PasswordMin, None, false)
    && JoiString(b.displayName, DisplayNameMin, Some(DisplayNameMax), false)
  }

  /** Sign-up accepts exactly a password of at least 6 characters and a display name of 2..50. */
  lemma SignUpLengths(b: SignUpBody)
    ensures ValidateSignUp(b, true) <==> |b.password| >= 6 && 2 <= |b.displayName| <= 50
  {
  }

  /** `validateSignIn`: a well-formed email and any non-empty password. */
  predicate ValidateSignIn(email: string, password: string, emailOk: bool) {
    emailOk && JoiString(password, 0, None, false)
  }

  /** Sign-in accepts any non-empty password. */
  lemma SignInNeedsPassword(email: string, password: string)
    ensures ValidateSignIn(email, password, true) <==> |password| >= 1
  {
  }

  /** The body of a profile update: both fields optional. */
  datatype ProfileBody = ProfileBody(displayName: Option<string>, bio: Option<string>)

  /** `validateUpdateProfile`. */
  predicate ValidateUpdateProfile(b: ProfileBody) {
    && (b.displayName.None? || JoiString(b.displayName.value, DisplayNameMin, Some(DisplayNameMax), false))
    && (b.bio.None? || JoiString(b.bio.value, 0, Some(BioMax), true))
  }

  /** A profile update accepts an absent field, a display name of 2..50 characters, and a bio of
      at most 500 characters, the empty bio included. */
  lemma UpdateProfileLengths(b: ProfileBody)
    ensures ValidateUpdateProfile(b) <==>
      && (b.displayName.Some? ==> 2 <= |b.displayName.value| <= 50)
      && (b.bio.Some? ==> |b.bio.value| <= 500)
  {
  }

  /** Every display name accepted at sign-up is accepted by a later profile update. */
  lemma SignUpNameFitsProfile(b: SignUpBody, emailOk: bool)
    requires ValidateSignUp(b, emailOk)
    ensures ValidateUpdateProfile(ProfileBody(Some(b.displayName), None))
  {
  }
}
