/**
 * The `/chat` request as the handler sees it, the replies it can give, and the
 * validation that runs before any cache or session is consulted.
 */
module Requests {
  import opened Wrappers
  import Text

  /** The JSON values the two fields of interest can hold. */
  datatype JValue = JNull | JStr(s: string)

  /**
   * The parsed body: text that is not JSON, a JSON value other than an object
   * (with Python's truthiness), or an object.
   */
  datatype Body = Malformed | Scalar(truthy: bool) | Object(fields: map<string, JValue>)

  /** A request: whether its content type is exactly `application/json`, and its body. */
  datatype Request = Request(jsonContentType: bool, body: Body)

  /** The success payload: the response text and the time it was produced. */
  datatype Payload = Payload(response: string, timestamp: nat)

  /** An error status with its message, or a payload answered with status 200. */
  datatype Reply = Rejected(status: nat, message: string) | Answered(payload: Payload)

  const ContentTypeMessage: string := "Tipe konten harus application/json"
  const InvalidJsonMessage: string := "Data JSON tidak valid"
  const EmptyInputMessage: string := "Input tidak boleh kosong"
  const ServerErrorMessage: string := "Terjadi kesalahan pada server"
  const BadRequestMessage: string := "Bad Request"

  const UserInputKey: string := "user_input"
  const SessionIdKey: string := "session_id"

  /** What validation hands on: the stripped input, the session label if truthy, the raw fields. */
  datatype Admitted = Admitted(input: string, session: Option<string>, fields: map<string, JValue>)

  /** `data.get("session_id", None)`, kept only when it is truthy (a non-empty string). */
  function SessionOf(fields: map<string, JValue>): Option<string>
  {
    if SessionIdKey in fields && fields[SessionIdKey].JStr? && fields[SessionIdKey].s != ""
    then Some(fields[SessionIdKey].s)
    else None
  }

  /**
   * The checks at the top of `chat`: content type (415), a body that parses to a
   * truthy JSON value (400; a truthy non-object fails on `.get` with 500), and a
   * `user_input` that is not blank once stripped (400; a null one fails on
   * `.strip()` with 500).
   */
  function Admit(req: Request): Result<Admitted, Reply>
  {
    if !req.jsonContentType then Err(Rejected(415, ContentTypeMessage))
    else match req.body
      case Malformed => Err(Rejected(400, BadRequestMessage))
      case Scalar(truthy) =>
        if truthy then Err(Rejected(500, ServerErrorMessage)) else Err(Rejected(400, InvalidJsonMessage))
      case Object(fields) =>
        if fields == map[] then Err(Rejected(400, InvalidJsonMessage))
        else if UserInputKey !in fields then Err(Rejected(400, EmptyInputMessage))
        else match fields[UserInputKey]
          case JNull => Err(Rejected(500, ServerErrorMessage))
          case JStr(raw) =>
            var input := Text.Strip(raw);
            if input == "" then Err(Rejected(400, EmptyInputMessage))
            else Ok(Admitted(input, SessionOf(fields), fields))
  }

  /**
   * A request gets through exactly when its content type is JSON, its body is an
   * object and `user_input` is a string with a non-whitespace character.
   */
  lemma AdmitSpec(req: Request)
    ensures Admit(req).Ok? <==>
      && req.jsonContentType && req.body.Object?
      && UserInputKey in req.body.fields && req.body.fields[UserInputKey].JStr?
      && !Text.Blank(req.body.fields[UserInputKey].s)
  {
    if req.jsonContentType && req.body.Object? {
      var fields := req.body.fields;
      if UserInputKey in fields && fields[UserInputKey].JStr? {
        var raw := fields[UserInputKey].s;
        assert fields != map[];
        assert Admit(req) == if Text.Strip(raw) == "" then Err(Rejected(400, EmptyInputMessage))
                             else Ok(Admitted(Text.Strip(raw), SessionOf(fields), fields));
        Text.StripBlank(raw);
      } else {
        assert Admit(req).Err?;
      }
    } else {
      assert Admit(req).Err?;
    }
  }

  /**
   * What gets through is `user_input` stripped, non-empty and without surrounding
   * whitespace, with the truthy session label and the raw fields.
   */
  lemma AdmitValue(req: Request)
    requires Admit(req).Ok?
    ensures req.body.Object? && UserInputKey in req.body.fields && req.body.fields[UserInputKey].JStr?
    ensures Admit(req).value.input == Text.Strip(req.body.fields[UserInputKey].s)
    ensures Admit(req).value.input != "" && Text.Stripped(Admit(req).value.input)
    ensures Admit(req).value.session == SessionOf(req.body.fields)
    ensures Admit(req).value.fields == req.body.fields
  {
    Text.StripSpec(req.body.fields[UserInputKey].s);
  }

  /**
   * Every rejection is a 4xx or 500 reply, and each check gives its own: 415 for
   * the content type, 400 for a malformed body, 400 for a falsy one (`null`, `0`,
   * `[]`, `{}`), 500 for a truthy non-object or a null `user_input`, and 400 with
   * the empty-input message for blank or missing input in a non-empty object.
   */
  lemma AdmitRejections(req: Request)
    ensures Admit(req).Err? ==> Admit(req).error.Rejected? && Admit(req).error.status in {400, 415, 500}
    ensures (&& req.jsonContentType && req.body.Object? && req.body.fields != map[]
             && (UserInputKey !in req.body.fields
                 || (req.body.fields[UserInputKey].JStr? && Text.Strip(req.body.fields[UserInputKey].s) == "")))
            ==> Admit(req) == Err(Rejected(400, EmptyInputMessage))
    ensures !req.jsonContentType ==> Admit(req) == Err(Rejected(415, ContentTypeMessage))
    ensures req.jsonContentType && req.body.Malformed? ==> Admit(req) == Err(Rejected(400, BadRequestMessage))
    ensures (&& req.jsonContentType
             && ((req.body.Scalar? && !req.body.truthy) || (req.body.Object? && req.body.fields == map[])))
            ==> Admit(req) == Err(Rejected(400, InvalidJsonMessage))
    ensures (&& req.jsonContentType
             && ((req.body.Scalar? && req.body.truthy)
                 || (req.body.Object? && UserInputKey in req.body.fields && req.body.fields[UserInputKey].JNull?)))
            ==> Admit(req) == Err(Rejected(500, ServerErrorMessage))
  {
  }
}
