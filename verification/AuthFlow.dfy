/**
 * The authentication dialogue (`src/impls/auth`): every session keeps a stack
 * of steps; the client answers the top one and may go back. The string-typed
 * steps of the source are proved to follow a small finite graph of stages.
 */
module AuthFlow {
  import opened Wrappers
  import opened Bytes

  // ---- steps and replies ----

  datatype FormField = FormField(name: string, kind: string)

  datatype Dialog =
    | Choice(title: string, options: seq<string>)
    | Form(title: string, fields: seq<FormField>)
    | Session // the session's token and user are not part of this model

  datatype AuthStep = AuthStep(canGoBack: bool, dialog: Dialog)

  datatype Field = Bytes(raw: bytes) | Text(text: string) | Number(number: int)

  datatype Reply = ChoiceReply(choice: string) | FormReply(fields: seq<Option<Field>>)

  datatype Config = Config(
    email: bool,                   // an email section is configured
    mailer: bool,                  // a mail transport is running
    disableRegistration: bool,
    disableEmailValidation: bool)

  datatype Error =
    | InvalidAuthId
    | WrongStep
    | NoSuchChoice
    | NoSuchField
    | NoFieldSpecified
    | WrongTypeForField
    | Refused           // the store said no: wrong password, unknown token, ...
    | InvalidChoice     // the source's own bugs, were they ever to happen
    | InvalidForm
    | InvalidFieldType

  function InitialStep(): AuthStep {
    AuthStep(false, Choice("initial", ["login", "register", "other-options"]))
  }

  function BackToInitialStep(): AuthStep {
    AuthStep(false, Choice("success", ["back-to-initial"]))
  }

  function SessionStep(): AuthStep {
    AuthStep(false, Session)
  }

  // ---- choices ----

  /** `handle_choice`. */
  function HandleChoice(config: Config, choice: string): Result<AuthStep, Error> {
    if choice == "back-to-initial" then Ok(InitialStep())
    else if choice == "other-options" then
      Ok(AuthStep(true, Choice("other-options", if config.email then ["delete-user", "reset-password"] else [])))
    else if choice == "reset-password" then
      Ok(AuthStep(true, Form("reset-password-send-token", [FormField("email", "email")])))
    else if choice == "delete-user" then
      Ok(AuthStep(true, Form("delete-user-send-token", [FormField("email", "email")])))
    else if choice == "login" then
      Ok(AuthStep(true, Form("login", [FormField("email", "email"), FormField("password", "password")])))
    else if choice == "register" then
      Ok(AuthStep(true, Form("register", RegisterFields(config))))
    else Err(InvalidChoice)
  }

  function RegisterFields(config: Config): seq<FormField> {
    [FormField("email", "email"), FormField("username", "text"), FormField("password", "password")]
    + (if config.disableRegistration then [FormField("token", "password")] else [])
  }

  // ---- form fields ----

  function CheckField(kind: string, field: Field): Option<Error> {
    if kind == "password" || kind == "new-password" then (if field.Bytes? then None else Some(WrongTypeForField))
    else if kind == "text" then (if field.Text? then None else Some(WrongTypeForField))
    else if kind == "number" then (if field.Number? then None else Some(WrongTypeForField))
    else if kind == "email" then (if field.Text? then None else Some(WrongTypeForField))
    else Some(InvalidFieldType)
  }

  /** `handle_fields`: the replies in order, checked against the form; the first problem wins. */
  function HandleFields(replies: seq<Option<Field>>, fields: seq<FormField>): Result<seq<Field>, Error> {
    if |replies| == 0 then Ok([])
    else
      var index := |replies| - 1;
      match HandleFields(replies[..index], fields)
      case Err(e) => Err(e)
      case Ok(values) =>
        if index >= |fields| then Err(NoSuchField)
        else if replies[index].None? then Err(NoFieldSpecified)
        else
          match CheckField(fields[index].kind, replies[index].value)
          case Some(e) => Err(e)
          case None => Ok(values + [replies[index].value])
  }

  method HandleFieldsLoop(replies: seq<Option<Field>>, fields: seq<FormField>) returns (r: Result<seq<Field>, Error>)
    ensures r == HandleFields(replies, fields)
  {
    var values := [];
    for index := 0 to |replies|
      invariant HandleFields(replies[..index], fields) == Ok(values)
    {
      assert replies[..index + 1][..index] == replies[..index];
      if index >= |fields| {
        ErrorSticks(replies, fields, index + 1);
        return Err(NoSuchField);
      }
      if replies[index].None? {
        ErrorSticks(replies, fields, index + 1);
        return Err(NoFieldSpecified);
      }
      var problem := CheckField(fields[index].kind, replies[index].value);
      if problem.Some? {
        ErrorSticks(replies, fields, index + 1);
        return Err(problem.value);
      }
      values := values + [replies[index].value];
    }
    assert replies[..|replies|] == replies;
    r := Ok(values);
  }

  lemma {:induction false} ErrorSticks(replies: seq<Option<Field>>, fields: seq<FormField>, n: nat)
    requires n <= |replies| && HandleFields(replies[..n], fields).Err?
    ensures HandleFields(replies, fields) == HandleFields(replies[..n], fields)
  {
    if n < |replies| {
      assert replies[..|replies| - 1][..n] == replies[..n];
      ErrorSticks(replies[..|replies| - 1], fields, n);
    } else {
      assert replies[..n] == replies;
    }
  }

  /** Accepted values are exactly the replies, no more of them than the form has fields, each of the right type. */
  lemma {:induction false} FieldsAccepted(replies: seq<Option<Field>>, fields: seq<FormField>)
    requires HandleFields(replies, fields).Ok?
    ensures var values := HandleFields(replies, fields).value;
            && |values| == |replies| <= |fields|
            && forall i | 0 <= i < |values| :: replies[i] == Some(values[i]) && CheckField(fields[i].kind, values[i]).None?
  {
    if |replies| > 0 {
      FieldsAccepted(replies[..|replies| - 1], fields);
    }
  }

  /** The kinds of form field that take a reply of this type. */
  predicate Suits(kind: string, field: Field) {
    match field
    case Bytes(_) => kind == "password" || kind == "new-password"
    case Text(_) => kind == "text" || kind == "email"
    case Number(_) => kind == "number"
  }

  predicate KnownKind(kind: string) {
    kind in {"password", "new-password", "text", "email", "number"}
  }

  /** The reply at `i` answers the form's field at `i`. */
  predicate SuitsAt(replies: seq<Option<Field>>, fields: seq<FormField>, i: nat)
    requires i < |replies|
  {
    i < |fields| && replies[i].Some? && Suits(fields[i].kind, replies[i].value)
  }

  /** Everything is collected when every reply answers its field, else the first one that does not decides the error. */
  lemma {:induction false} FieldsHandledIff(replies: seq<Option<Field>>, fields: seq<FormField>)
    ensures HandleFields(replies, fields).Ok? <==> forall i | 0 <= i < |replies| :: SuitsAt(replies, fields, i)
    ensures forall n | 0 <= n < |replies| && !SuitsAt(replies, fields, n)
                       && (forall i | 0 <= i < n :: SuitsAt(replies, fields, i)) ::
              HandleFields(replies, fields)
              == Err(if n >= |fields| then NoSuchField
                     else if replies[n].None? then NoFieldSpecified
                     else if KnownKind(fields[n].kind) then WrongTypeForField
                     else InvalidFieldType)
  {
    if |replies| > 0 {
      var before := replies[..|replies| - 1];
      FieldsHandledIff(before, fields);
      assert forall i | 0 <= i < |before| :: SuitsAt(before, fields, i) <==> SuitsAt(replies, fields, i);
      assert SuitsAt(replies, fields, |before|) <==>
          |before| < |fields| && replies[|before|].Some?
          && CheckField(fields[|before|].kind, replies[|before|].value).None?;
    }
  }

  // ---- form handlers ----

  /** The values a handler pops, by the name it uses them under; `None` where a pop finds the wrong thing. */
  type Extraction = map<string, Field>

  function PopBytes(values: seq<Field>): Option<Field> {
    if |values| > 0 && values[|values| - 1].Bytes? then Some(values[|values| - 1]) else None
  }

  function PopText(values: seq<Field>): Option<Field> {
    if |values| > 0 && values[|values| - 1].Text? then Some(values[|values| - 1]) else None
  }

  function Popped(values: seq<Field>): seq<Field> {
    if |values| > 0 then values[..|values| - 1] else []
  }

  /** `login.rs`: password first, then email. */
  function ExtractLogin(values: seq<Field>): Option<Extraction> {
    if PopBytes(values).None? then None
    else if PopText(Popped(values)).None? then None
    else Some(map["password" := PopBytes(values).value, "email" := PopText(Popped(values)).value])
  }

  /** `registration.rs`: the token if registration is by invitation, then password, username, email. */
  function ExtractRegister(config: Config, values: seq<Field>): Option<Extraction> {
    if config.disableRegistration then
      if PopBytes(values).None? then None
      else
        match ExtractAccount(Popped(values))
        case None => None
        case Some(account) => Some(account["token" := PopBytes(values).value])
    else ExtractAccount(values)
  }

  function ExtractAccount(values: seq<Field>): Option<Extraction> {
    if PopBytes(values).None? then None
    else if PopText(Popped(values)).None? then None
    else if PopText(Popped(Popped(values))).None? then None
    else Some(map["password" := PopBytes(values).value,
                  "username" := PopText(Popped(values)).value,
                  "email" := PopText(Popped(Popped(values))).value])
  }

  function ExtractToken(values: seq<Field>): Option<Extraction> {
    if PopBytes(values).None? then None else Some(map["token" := PopBytes(values).value])
  }

  function ExtractEmail(values: seq<Field>): Option<Extraction> {
    if PopText(values).None? then None else Some(map["email" := PopText(values).value])
  }

  /** `reset_password.rs`: the new password first, then the token. */
  function ExtractReset(values: seq<Field>): Option<Extraction> {
    if PopBytes(values).None? then None
    else if PopBytes(Popped(values)).None? then None
    else Some(map["new-password" := PopBytes(values).value, "token" := PopBytes(Popped(values)).value])
  }

  datatype FormOutcome = UnknownForm | Known(extracted: Option<Extraction>, next: AuthStep)

  /** Per form title: what is popped, and the step that follows if the store agrees. */
  function FormHandler(config: Config, title: string, values: seq<Field>): FormOutcome {
    if title == "login" then Known(ExtractLogin(values), SessionStep())
    else if title == "register" then
      Known(ExtractRegister(config, values),
            if config.mailer && config.email && !config.disableEmailValidation
            then AuthStep(false, Form("register-input-token", [FormField("token", "password")]))
            else SessionStep())
    else if title == "register-input-token" then Known(ExtractToken(values), SessionStep())
    else if title == "delete-user-input-token" then Known(ExtractToken(values), BackToInitialStep())
    else if title == "delete-user-send-token" then
      Known(ExtractEmail(values), AuthStep(false, Form("delete-user-input-token", [FormField("token", "password")])))
    else if title == "reset-password-input-token" then Known(ExtractReset(values), BackToInitialStep())
    else if title == "reset-password-send-token" then
      Known(ExtractEmail(values),
            AuthStep(false, Form("reset-password-input-token",
                                 [FormField("token", "password"), FormField("new-password", "password")])))
    else UnknownForm
  }

  /**
   * The handler gets as far as validating a single-use token. Registration by
   * invitation does so before it takes the other values off the form.
   */
  predicate TokenReady(config: Config, title: string, values: seq<Field>) {
    if title == "register" then config.disableRegistration && PopBytes(values).Some?
    else if title == "register-input-token" || title == "delete-user-input-token" then ExtractToken(values).Some?
    else title == "reset-password-input-token" && ExtractReset(values).Some?
  }

  /** What the store says: to the token, which is used up by a yes, and to everything else. */
  datatype Verdict = Verdict(token: bool, rest: bool)

  /** The step that answers `reply` on `current`. */
  function Answer(config: Config, current: AuthStep, reply: Reply, verdict: Verdict): Result<AuthStep, Error> {
    match reply
    case ChoiceReply(choice) =>
      if !current.dialog.Choice? then Err(WrongStep)
      else if choice in current.dialog.options then HandleChoice(config, choice)
      else Err(NoSuchChoice)
    case FormReply(replies) =>
      if !current.dialog.Form? then Err(WrongStep)
      else
        match HandleFields(replies, current.dialog.fields)
        case Err(e) => Err(e)
        case Ok(values) =>
          match FormHandler(config, current.dialog.title, values)
          case UnknownForm => Err(InvalidForm)
          case Known(extracted, next) =>
            if TokenReady(config, current.dialog.title, values) && !verdict.token then Err(Refused)
            else if extracted.None? then Err(WrongTypeForField)
            else if !verdict.rest then Err(Refused)
            else Ok(next)
  }

  // ---- the graph of stages ----

  datatype Stage =
    | Initial | OtherOptions | Login | Register | RegisterToken
    | DeleteEmail | DeleteToken | ResetEmail | ResetToken | Success | Done

  function StepOf(config: Config, stage: Stage): AuthStep {
    match stage
    case Initial => InitialStep()
    case OtherOptions =>
      AuthStep(true, Choice("other-options", if config.email then ["delete-user", "reset-password"] else []))
    case Login => AuthStep(true, Form("login", [FormField("email", "email"), FormField("password", "password")]))
    case Register => AuthStep(true, Form("register", RegisterFields(config)))
    case RegisterToken => AuthStep(false, Form("register-input-token", [FormField("token", "password")]))
    case DeleteEmail => AuthStep(true, Form("delete-user-send-token", [FormField("email", "email")]))
    case DeleteToken => AuthStep(false, Form("delete-user-input-token", [FormField("token", "password")]))
    case ResetEmail => AuthStep(true, Form("reset-password-send-token", [FormField("email", "email")]))
    case ResetToken =>
      AuthStep(false, Form("reset-password-input-token",
                           [FormField("token", "password"), FormField("new-password", "password")]))
    case Success => BackToInitialStep()
    case Done => SessionStep()
  }

  /** The legal transitions. */
  predicate Edge(config: Config, s: Stage, t: Stage) {
    match s
    case Initial => t == Login || t == Register || t == OtherOptions
    case OtherOptions => config.email && (t == DeleteEmail || t == ResetEmail)
    case Login => t == Done
    case Register =>
      t == if config.mailer && config.email && !config.disableEmailValidation then RegisterToken else Done
    case RegisterToken => t == Done
    case DeleteEmail => t == DeleteToken
    case DeleteToken => t == Success
    case ResetEmail => t == ResetToken
    case ResetToken => t == Success
    case Success => t == Initial
    case Done => false
  }

  /** Stages with a way back are never the first. */
  lemma OnlyEntryStepsGoBack(config: Config, stage: Stage)
    ensures StepOf(config, stage).canGoBack <==> stage in {OtherOptions, Login, Register, DeleteEmail, ResetEmail}
  {
  }

  predicate OwnBug(error: Error) {
    error == InvalidChoice || error == InvalidForm || error == InvalidFieldType
  }

  /** The choice that leads to a stage, for the stages a choice can lead to. */
  function ChoiceFor(t: Stage): Option<string> {
    match t
    case Initial => Some("back-to-initial")
    case OtherOptions => Some("other-options")
    case Login => Some("login")
    case Register => Some("register")
    case DeleteEmail => Some("delete-user")
    case ResetEmail => Some("reset-password")
    case _ => None
  }

  /** Every offered choice leads along an edge to the stage it is named after. */
  lemma ChoiceFollowsGraph(config: Config, stage: Stage, choice: string) returns (t: Stage)
    requires StepOf(config, stage).dialog.Choice? && choice in StepOf(config, stage).dialog.options
    ensures ChoiceFor(t) == Some(choice)
    ensures Edge(config, stage, t) && HandleChoice(config, choice) == Ok(StepOf(config, t))
  {
    t := if choice == "login" then Login
         else if choice == "register" then Register
         else if choice == "other-options" then OtherOptions
         else if choice == "delete-user" then DeleteEmail
         else if choice == "reset-password" then ResetEmail
         else Initial;
  }

  ghost predicate Offers(config: Config, stage: Stage, t: Stage)
    requires StepOf(config, stage).dialog.Choice?
  {
    ChoiceFor(t).Some? && ChoiceFor(t).value in StepOf(config, stage).dialog.options
  }

  lemma InitialOffers(config: Config, t: Stage)
    ensures Offers(config, Initial, t) <==> t == Login || t == Register || t == OtherOptions
  {
    var options := InitialStep().dialog.options;
    assert options[0] == "login" && options[1] == "register" && options[2] == "other-options";
  }

  lemma OtherOptionsOffers(config: Config, t: Stage)
    ensures Offers(config, OtherOptions, t) <==> config.email && (t == DeleteEmail || t == ResetEmail)
  {
    var options := StepOf(config, OtherOptions).dialog.options;
    assert config.email ==> options[0] == "delete-user" && options[1] == "reset-password";
  }

  lemma SuccessOffers(config: Config, t: Stage)
    ensures Offers(config, Success, t) <==> t == Initial
  {
    assert BackToInitialStep().dialog.options[0] == "back-to-initial";
  }

  lemma ChoiceLeadsTo(config: Config, t: Stage)
    requires ChoiceFor(t).Some?
    ensures HandleChoice(config, ChoiceFor(t).value) == Ok(StepOf(config, t))
  {
    hide RegisterFields;
  }

  /** And every edge from a stage of choices is offered, under the name of the stage it leads to. */
  lemma EdgesAreOffered(config: Config, stage: Stage, t: Stage)
    requires StepOf(config, stage).dialog.Choice?
    ensures Edge(config, stage, t) <==> Offers(config, stage, t)
    ensures Edge(config, stage, t) ==>
              ChoiceFor(t).Some? && HandleChoice(config, ChoiceFor(t).value) == Ok(StepOf(config, t))
  {
    hide HandleChoice, RegisterFields;
    if ChoiceFor(t).Some? {
      ChoiceLeadsTo(config, t);
    }
    match stage
    case Initial => InitialOffers(config, t);
    case OtherOptions => OtherOptionsOffers(config, t);
    case Success => SuccessOffers(config, t);
  }

  lemma FieldKindsKnown(config: Config, stage: Stage)
    requires StepOf(config, stage).dialog.Form?
    ensures forall f, field | f in StepOf(config, stage).dialog.fields :: CheckField(f.kind, field) != Some(InvalidFieldType)
  {
  }

  lemma {:induction false} FieldErrorsAreTheClients(replies: seq<Option<Field>>, fields: seq<FormField>)
    requires forall f, field | f in fields :: CheckField(f.kind, field) != Some(InvalidFieldType)
    ensures HandleFields(replies, fields).Err? ==> !OwnBug(HandleFields(replies, fields).error)
  {
    if |replies| > 0 {
      FieldErrorsAreTheClients(replies[..|replies| - 1], fields);
      var index := |replies| - 1;
      if index < |fields| {
        assert fields[index] in fields;
      }
    }
  }

  lemma FormFollowsGraph(config: Config, stage: Stage, values: seq<Field>) returns (t: Stage)
    requires StepOf(config, stage).dialog.Form?
    ensures Edge(config, stage, t)
    ensures var outcome := FormHandler(config, StepOf(config, stage).dialog.title, values);
            outcome.Known? && outcome.next == StepOf(config, t)
  {
    match stage
    case Login => t := Done;
    case Register => t := if config.mailer && config.email && !config.disableEmailValidation then RegisterToken else Done;
    case RegisterToken => t := Done;
    case DeleteEmail => t := DeleteToken;
    case DeleteToken => t := Success;
    case ResetEmail => t := ResetToken;
    case ResetToken => t := Success;
  }

  /**
   * Whatever the client replies, the answer is a step one edge further, or an
   * error that is the client's or the store's: every offered choice, every
   * reachable form and every field type has a handler.
   */
  lemma AnswerFollowsGraph(config: Config, stage: Stage, reply: Reply, verdict: Verdict) returns (t: Stage)
    ensures var answer := Answer(config, StepOf(config, stage), reply, verdict);
            && (answer.Ok? ==> Edge(config, stage, t) && answer.value == StepOf(config, t))
            && (answer.Err? ==> !OwnBug(answer.error))
  {
    t := Initial;
    var current := StepOf(config, stage);
    match reply
    case ChoiceReply(choice) =>
      if current.dialog.Choice? && choice in current.dialog.options {
        t := ChoiceFollowsGraph(config, stage, choice);
      }
    case FormReply(replies) =>
      if current.dialog.Form? {
        FieldKindsKnown(config, stage);
        FieldErrorsAreTheClients(replies, current.dialog.fields);
        var handled := HandleFields(replies, current.dialog.fields);
        if handled.Ok? {
          t := FormFollowsGraph(config, stage, handled.value);
        }
      }
  }

  // ---- every form reads what it asked for ----

  /** Each extracted value is the reply to the field of that name, and nothing is left over. */
  ghost predicate ReadsAll(extracted: Extraction, replies: seq<Option<Field>>, fields: seq<FormField>) {
    && |replies| == |fields|
    && extracted.Keys == (set f | f in fields :: f.name)
    && forall i | 0 <= i < |fields| :: fields[i].name in extracted && replies[i] == Some(extracted[fields[i].name])
  }

  /** What `handle_fields` has established about the values it collected. */
  ghost predicate Fits(values: seq<Field>, replies: seq<Option<Field>>, fields: seq<FormField>) {
    && |values| == |replies| <= |fields|
    && forall i | 0 <= i < |values| :: replies[i] == Some(values[i]) && CheckField(fields[i].kind, values[i]).None?
  }

  ghost predicate Complete(extracted: Option<Extraction>, replies: seq<Option<Field>>, fields: seq<FormField>) {
    && (extracted.Some? <==> |replies| == |fields|)
    && (extracted.Some? ==> ReadsAll(extracted.value, replies, fields))
  }

  lemma LoginReadsAll(values: seq<Field>, replies: seq<Option<Field>>)
    requires Fits(values, replies, [FormField("email", "email"), FormField("password", "password")])
    ensures Complete(ExtractLogin(values), replies, [FormField("email", "email"), FormField("password", "password")])
  {
    assert |values| > 0 ==> values[0].Text?;
    assert |values| > 1 ==> values[1].Bytes?;
  }

  lemma ResetReadsAll(values: seq<Field>, replies: seq<Option<Field>>)
    requires Fits(values, replies, [FormField("token", "password"), FormField("new-password", "password")])
    ensures Complete(ExtractReset(values), replies, [FormField("token", "password"), FormField("new-password", "password")])
  {
    assert |values| > 0 ==> values[0].Bytes?;
    assert |values| > 1 ==> values[1].Bytes?;
  }

  lemma TokenReadsAll(values: seq<Field>, replies: seq<Option<Field>>)
    requires Fits(values, replies, [FormField("token", "password")])
    ensures Complete(ExtractToken(values), replies, [FormField("token", "password")])
  {
    assert |values| > 0 ==> values[0].Bytes?;
  }

  lemma EmailReadsAll(values: seq<Field>, replies: seq<Option<Field>>)
    requires Fits(values, replies, [FormField("email", "email")])
    ensures Complete(ExtractEmail(values), replies, [FormField("email", "email")])
  {
    assert |values| > 0 ==> values[0].Text?;
  }

  lemma RegisterFits(config: Config, values: seq<Field>, replies: seq<Option<Field>>)
    requires Fits(values, replies, RegisterFields(config))
    ensures |values| > 0 ==> values[0].Text?
    ensures |values| > 1 ==> values[1].Text?
    ensures |values| > 2 ==> values[2].Bytes?
    ensures |values| > 3 ==> values[3].Bytes?
  {
    var fields := RegisterFields(config);
    assert fields[0].kind == "email" && fields[1].kind == "text" && fields[2].kind == "password";
    assert config.disableRegistration ==> fields[3].kind == "password";
  }

  lemma RegisterExtracts(config: Config, values: seq<Field>, replies: seq<Option<Field>>)
    requires Fits(values, replies, RegisterFields(config))
    ensures ExtractRegister(config, values).Some? <==> |values| == |RegisterFields(config)|
    ensures ExtractRegister(config, values).Some? ==>
              var account := map["password" := values[2], "username" := values[1], "email" := values[0]];
              ExtractRegister(config, values).value
              == if config.disableRegistration then account["token" := values[3]] else account
  {
    RegisterFits(config, values, replies);
  }

  lemma RegisterNames(config: Config)
    ensures (set f | f in RegisterFields(config) :: f.name)
         == {"email", "username", "password"} + (if config.disableRegistration then {"token"} else {})
  {
    var fields := RegisterFields(config);
    assert fields[0].name == "email" && fields[1].name == "username" && fields[2].name == "password";
    if config.disableRegistration {
      assert fields[3].name == "token";
    }
  }

  lemma RegisterReadsAll(config: Config, values: seq<Field>, replies: seq<Option<Field>>)
    requires Fits(values, replies, RegisterFields(config))
    ensures Complete(ExtractRegister(config, values), replies, RegisterFields(config))
  {
    var fields := RegisterFields(config);
    RegisterExtracts(config, values, replies);
    RegisterNames(config);
    if |values| == |fields| {
      var extracted := ExtractRegister(config, values).value;
      assert fields[0].name == "email" && extracted["email"] == values[0];
      assert fields[1].name == "username" && extracted["username"] == values[1];
      assert fields[2].name == "password" && extracted["password"] == values[2];
      if config.disableRegistration {
        assert fields[3].name == "token" && extracted["token"] == values[3];
      }
    }
  }

  lemma FittingIsComplete(config: Config, stage: Stage, values: seq<Field>, replies: seq<Option<Field>>)
    requires StepOf(config, stage).dialog.Form?
    requires Fits(values, replies, StepOf(config, stage).dialog.fields)
    ensures var Form(title, fields) := StepOf(config, stage).dialog;
            Complete(FormHandler(config, title, values).extracted, replies, fields)
  {
    match stage
    case Login => LoginReadsAll(values, replies);
    case Register => RegisterReadsAll(config, values, replies);
    case RegisterToken => TokenReadsAll(values, replies);
    case DeleteEmail => EmailReadsAll(values, replies);
    case DeleteToken => TokenReadsAll(values, replies);
    case ResetEmail => EmailReadsAll(values, replies);
    case ResetToken => ResetReadsAll(values, replies);
  }

  /** A handler gets all its values exactly when every field was supplied, and then each is the right one. */
  lemma ExtractionIsComplete(config: Config, stage: Stage, replies: seq<Option<Field>>)
    requires StepOf(config, stage).dialog.Form?
    requires HandleFields(replies, StepOf(config, stage).dialog.fields).Ok?
    ensures var Form(title, fields) := StepOf(config, stage).dialog;
            Complete(FormHandler(config, title, HandleFields(replies, fields).value).extracted, replies, fields)
  {
    var fields := StepOf(config, stage).dialog.fields;
    FieldsAccepted(replies, fields);
    FittingIsComplete(config, stage, HandleFields(replies, fields).value, replies);
  }

  // ---- when a form is accepted ----

  lemma ShortFit(config: Config, stage: Stage, values: seq<Field>, replies: seq<Option<Field>>)
    requires StepOf(config, stage).dialog.Form?
    requires Fits(values, replies, StepOf(config, stage).dialog.fields)
    requires |replies| < |StepOf(config, stage).dialog.fields|
    ensures TokenReady(config, StepOf(config, stage).dialog.title, values)
       <==> stage == Register && config.disableRegistration && |replies| == 3
  {
    match stage
    case Register => RegisterFits(config, values, replies);
    case _ =>
  }

  /** The stages whose form carries a single-use token. */
  predicate TokenStage(config: Config, stage: Stage) {
    stage in {RegisterToken, DeleteToken, ResetToken} || (stage == Register && config.disableRegistration)
  }

  /** Every field of the form has a reply of its type. */
  predicate Filled(replies: seq<Option<Field>>, fields: seq<FormField>) {
    |replies| == |fields| && forall i | 0 <= i < |replies| :: SuitsAt(replies, fields, i)
  }

  lemma FullFit(config: Config, stage: Stage, values: seq<Field>, replies: seq<Option<Field>>)
    requires StepOf(config, stage).dialog.Form?
    requires Fits(values, replies, StepOf(config, stage).dialog.fields)
    requires |replies| == |StepOf(config, stage).dialog.fields|
    ensures TokenReady(config, StepOf(config, stage).dialog.title, values) <==> TokenStage(config, stage)
  {
    match stage
    case Register => RegisterFits(config, values, replies);
    case RegisterToken => TokenReadsAll(values, replies);
    case DeleteToken => TokenReadsAll(values, replies);
    case ResetToken => ResetReadsAll(values, replies);
    case _ =>
  }

  /** The handler tries a token: every form that carries one, if it is complete, and one that is not. */
  predicate TriesToken(config: Config, stage: Stage, replies: nat)
    requires StepOf(config, stage).dialog.Form?
  {
    TokenStage(config, stage) && (replies == |StepOf(config, stage).dialog.fields| || (stage == Register && replies == 3))
  }

  /** What becomes of a form whose replies are all of the right type, in terms of their number and the store's word. */
  lemma FormAnswers(config: Config, stage: Stage, replies: seq<Option<Field>>, verdict: Verdict)
    requires StepOf(config, stage).dialog.Form?
    requires HandleFields(replies, StepOf(config, stage).dialog.fields).Ok?
    ensures var answer := Answer(config, StepOf(config, stage), FormReply(replies), verdict);
            var full := |replies| == |StepOf(config, stage).dialog.fields|;
            var tokenRefused := TriesToken(config, stage, |replies|) && !verdict.token;
            && (answer.Ok? <==> full && !tokenRefused && verdict.rest)
            && (answer == Err(Refused) <==> tokenRefused || (full && !verdict.rest))
            && (answer == Err(WrongTypeForField) <==> !full && !tokenRefused)
  {
    hide HandleFields, TokenReady, FormHandler, StepOf, Edge, ReadsAll;
    var fields := StepOf(config, stage).dialog.fields;
    var values := HandleFields(replies, fields).value;
    FieldsAccepted(replies, fields);
    var t := FormFollowsGraph(config, stage, values);
    ExtractionIsComplete(config, stage, replies);
    if |replies| == |fields| {
      FullFit(config, stage, values, replies);
    } else {
      ShortFit(config, stage, values, replies);
    }
  }

  /**
   * A form leads on exactly when every field has a reply of its type, the store
   * agrees, and so it does to the token where the form carries one.
   */
  lemma FormAcceptedIff(config: Config, stage: Stage, replies: seq<Option<Field>>, verdict: Verdict)
    requires StepOf(config, stage).dialog.Form?
    ensures Answer(config, StepOf(config, stage), FormReply(replies), verdict).Ok? <==>
              && Filled(replies, StepOf(config, stage).dialog.fields)
              && verdict.rest
              && (TokenStage(config, stage) ==> verdict.token)
  {
    hide HandleFields, TokenReady;
    FieldsHandledIff(replies, StepOf(config, stage).dialog.fields);
    if HandleFields(replies, StepOf(config, stage).dialog.fields).Ok? {
      FormAnswers(config, stage, replies, verdict);
    }
  }

  /** A choice leads on exactly when it is one of those offered; a reply of the other sort is turned down on every stage. */
  lemma ChoiceAcceptedIff(config: Config, stage: Stage, reply: Reply, verdict: Verdict)
    ensures var (current, answer) := (StepOf(config, stage), Answer(config, StepOf(config, stage), reply, verdict));
            && (answer == Err(WrongStep) <==> if reply.ChoiceReply? then !current.dialog.Choice? else !current.dialog.Form?)
            && (reply.ChoiceReply? && current.dialog.Choice? ==>
                  if reply.choice in current.dialog.options then answer.Ok? else answer == Err(NoSuchChoice))
  {
    var current := StepOf(config, stage);
    match reply
    case ChoiceReply(choice) =>
      if current.dialog.Choice? && choice in current.dialog.options {
        var t := ChoiceFollowsGraph(config, stage, choice);
      }
    case FormReply(replies) =>
      if current.dialog.Form? {
        FieldsHandledIff(replies, current.dialog.fields);
        FieldErrorsAreNotWrongStep(replies, current.dialog.fields);
        if HandleFields(replies, current.dialog.fields).Ok? {
          var t := FormFollowsGraph(config, stage, HandleFields(replies, current.dialog.fields).value);
        }
      }
  }

  lemma {:induction false} FieldErrorsAreNotWrongStep(replies: seq<Option<Field>>, fields: seq<FormField>)
    ensures HandleFields(replies, fields) != Err(WrongStep)
  {
    if |replies| > 0 {
      FieldErrorsAreNotWrongStep(replies[..|replies| - 1], fields);
    }
  }

  // ---- tokens used up in vain ----

  /** Answering takes a valid token out of the store. */
  predicate TokenSpent(config: Config, current: AuthStep, reply: Reply, verdict: Verdict) {
    && reply.FormReply?
    && current.dialog.Form?
    && HandleFields(reply.fields, current.dialog.fields).Ok?
    && TokenReady(config, current.dialog.title, HandleFields(reply.fields, current.dialog.fields).value)
    && verdict.token
  }

  /** A valid token is lost without an answer exactly when a field is missing or the store refuses the rest. */
  lemma TokenLostIff(config: Config, stage: Stage, replies: seq<Option<Field>>, verdict: Verdict)
    requires TokenSpent(config, StepOf(config, stage), FormReply(replies), verdict)
    ensures Answer(config, StepOf(config, stage), FormReply(replies), verdict).Err?
       <==> |replies| != |StepOf(config, stage).dialog.fields| || !verdict.rest
  {
    var t := FormFollowsGraph(config, stage, HandleFields(replies, StepOf(config, stage).dialog.fields).value);
    ExtractionIsComplete(config, stage, replies);
  }

  /**
   * A form with missing fields gets a token validated in one case only:
   * registration by invitation with the last field missing. What is tried as the
   * token then is the password.
   */
  lemma ShortFormTriesPasswordIff(config: Config, stage: Stage, replies: seq<Option<Field>>)
    requires StepOf(config, stage).dialog.Form?
    requires HandleFields(replies, StepOf(config, stage).dialog.fields).Ok?
    requires |replies| < |StepOf(config, stage).dialog.fields|
    ensures var Form(title, fields) := StepOf(config, stage).dialog;
            var values := HandleFields(replies, fields).value;
            && (TokenReady(config, title, values) <==> stage == Register && config.disableRegistration && |replies| == 3)
            && (TokenReady(config, title, values) ==> PopBytes(values) == replies[2] && fields[2].name == "password")
  {
    hide TokenReady, HandleFields;
    var fields := StepOf(config, stage).dialog.fields;
    FieldsAccepted(replies, fields);
    var values := HandleFields(replies, fields).value;
    ShortFit(config, stage, values, replies);
    if stage == Register {
      RegisterFits(config, values, replies);
      assert RegisterFields(config)[2].name == "password";
    }
  }
}
