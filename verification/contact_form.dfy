/** The contact form of the front end: three controlled fields, and the
    submit handler that posts them to the contact view and turns what comes
    back into the status line. The network is an input: the fetch either
    rejects, or yields a response with its `ok` flag and the outcome of
    `response.json()`. */
module ContactForm {
  import opened Wrappers
  import opened PyStr
  import ContactViews

  datatype FormData = FormData(name: string, email: string, message: string)

  const EmptyForm := FormData("", "", "")

  const SentText := "Messaggio inviato con successo!"
  const FallbackText := "Errore durante l'invio."
  const ConnectionText := "Errore di connessione al server."

  /** A JavaScript value as produced by `JSON.parse` (plus `undefined`,
      which a missing property reads as). */
  datatype JsValue =
    | Undefined
    | Null
    | Boolean(b: bool)
    | Number(n: real)
    | Str(s: string)
    | Array(items: seq<JsValue>)
    | Object(props: map<string, JsValue>)

  /** JavaScript truthiness (a decoded JSON number is never NaN). */
  predicate Truthy(v: JsValue) {
    match v
    case Undefined => false
    case Null => false
    case Boolean(b) => b
    case Number(n) => n != 0.0
    case Str(s) => s != ""
    case Array(_) => true
    case Object(_) => true
  }

  /** `v.error`: reading a property of null or undefined throws (None); any
      other value without an own `error` property gives undefined. */
  function ErrorProperty(v: JsValue): (r: Option<JsValue>)
    ensures r.None? <==> v.Null? || v.Undefined?
    ensures v.Object? && "error" in v.props ==> r == Some(v.props["error"])
    ensures r.Some? && !(v.Object? && "error" in v.props) ==> r == Some(Undefined)
  {
    match v
    case Undefined => None
    case Null => None
    case Object(props) => Some(if "error" in props then props["error"] else Undefined)
    case _ => Some(Undefined)
  }

  /** What the `fetch` call and `response.json()` deliver. `body` is None
      when `response.json()` rejects (the body is not JSON). */
  datatype FetchOutcome =
    | NetworkError
    | Reply(ok: bool, body: Option<JsValue>)

  /** The form fields and the status after one submission. */
  datatype Settled = Settled(form: FormData, status: JsValue)

  /** `handleSubmit` from the moment the request is sent: a rejected fetch, a
      body that is not JSON or a property read that throws all land in the
      `catch`; an ok reply clears the fields; any other reply shows the
      server's error when it is truthy and the generic text otherwise. */
  function Settle(form: FormData, reply: FetchOutcome): (r: Settled)
    ensures reply.Reply? && reply.ok && reply.body.Some? ==> r == Settled(EmptyForm, Str(SentText))
    ensures reply.Reply? && !reply.ok && reply.body.Some? && ErrorProperty(reply.body.value).Some? ==>
              var e := ErrorProperty(reply.body.value).value;
              r.form == form && r.status == (if Truthy(e) then e else Str(FallbackText))
    ensures (|| reply.NetworkError?
             || (reply.Reply? && reply.body.None?)
             || (reply.Reply? && !reply.ok && reply.body.Some? && ErrorProperty(reply.body.value).None?))
            ==> r == Settled(form, Str(ConnectionText))
    ensures r.form == form || r.form == EmptyForm
    ensures Truthy(r.status)
  {
    match reply
    case NetworkError => Settled(form, Str(ConnectionText))
    case Reply(ok, body) =>
      match body
      case None => Settled(form, Str(ConnectionText))
      case Some(result) =>
        if ok then Settled(EmptyForm, Str(SentText))
        else
          match ErrorProperty(result)
          case None => Settled(form, Str(ConnectionText))
          case Some(e) => Settled(form, if Truthy(e) then e else Str(FallbackText))
  }

  /** The fields are cleared exactly by an ok reply whose body is JSON
      (or left as they were, when they were already empty). */
  lemma FieldsKeptUnlessSent(form: FormData, reply: FetchOutcome)
    requires form != EmptyForm
    ensures Settle(form, reply).form == EmptyForm <==> reply.Reply? && reply.ok && reply.body.Some?
    ensures Settle(form, reply).form != EmptyForm ==> Settle(form, reply).form == form
  {
  }

  /** A null JSON body on a failed reply throws at `result.error`: the
      connectivity text replaces the server's answer. */
  lemma NullErrorBodyLooksLikeNetworkFailure(form: FormData)
    ensures Settle(form, Reply(false, Some(Null))).status == Str(ConnectionText)
  {
  }

  /** The request body `JSON.stringify(formData)`, as the view decodes it. */
  function RequestJson(form: FormData): ContactViews.Json {
    ContactViews.JObject(map[
      "name" := ContactViews.JString(form.name),
      "email" := ContactViews.JString(form.email),
      "message" := ContactViews.JString(form.message)])
  }

  /** The view reads back exactly the three fields the form sent, stripped,
      and never fails on reading them. */
  lemma SentFieldsReachTheView(form: FormData)
    ensures ContactViews.Submitted(ContactViews.Parsed(RequestJson(form)))
            == Some(ContactViews.ContactMessage(Strip(form.name), Strip(form.email), Strip(form.message)))
  {
    var f := RequestJson(form).fields;
    assert f["name"] == ContactViews.JString(form.name) by {
      assert "name" != "email" && "name" != "message";
    }
    assert f["email"] == ContactViews.JString(form.email) by {
      assert "email" != "message";
    }
    assert ContactViews.StrippedField(f, "name") == Some(Strip(form.name));
    assert ContactViews.StrippedField(f, "email") == Some(Strip(form.email));
    assert ContactViews.StrippedField(f, "message") == Some(Strip(form.message));
  }

  /** The response the view produces, as the browser sees it: `ok` for a
      2xx status, and a JSON object body carrying `error` or `success`. */
  function ServerReply(resp: ContactViews.Response): FetchOutcome {
    var ok := 200 <= resp.status <= 299;
    match resp
    case ErrorResponse(_, error) => Reply(ok, Some(Object(map["error" := Str(error)])))
    case SuccessResponse(_, success) => Reply(ok, Some(Object(map["success" := Str(success)])))
  }

  /** End to end: every answer of the contact view ends up in the status
      line — the success text with the fields cleared for 201, the view's own
      error message with the fields kept otherwise. */
  lemma {:induction false} ViewAnswerShown(form: FormData, resp: ContactViews.Response)
    requires ContactViews.WellFormedAnswer(resp)
    ensures resp == ContactViews.Created ==> Settle(form, ServerReply(resp)) == Settled(EmptyForm, Str(SentText))
    ensures resp != ContactViews.Created ==> Settle(form, ServerReply(resp)) == Settled(form, Str(resp.error))
  {
    if resp != ContactViews.Created {
      var body := Object(map["error" := Str(resp.error)]);
      assert ServerReply(resp) == Reply(false, Some(body));
      assert ErrorProperty(body) == Some(Str(resp.error));
    }
  }

  /** The form's state. */
  class ContactFormState {
    var formData: FormData
    var status: JsValue

    constructor ()
      ensures formData == EmptyForm && status == Null
    {
      formData := EmptyForm;
      status := Null;
    }

    /** The `onChange` of the name input: only that field changes. */
    method EditName(value: string)
      modifies this
      ensures formData == old(formData).(name := value) && status == old(status)
    {
      formData := formData.(name := value);
    }

    /** The `onChange` of the email input. */
    method EditEmail(value: string)
      modifies this
      ensures formData == old(formData).(email := value) && status == old(status)
    {
      formData := formData.(email := value);
    }

    /** The `onChange` of the message textarea. */
    method EditMessage(value: string)
      modifies this
      ensures formData == old(formData).(message := value) && status == old(status)
    {
      formData := formData.(message := value);
    }

    /** `handleSubmit`, with the network's answer as input. Afterwards the
        status paragraph is always displayed. */
    method HandleSubmit(reply: FetchOutcome)
      modifies this
      ensures Settled(formData, status) == Settle(old(formData), reply)
      ensures Truthy(status)
    {
      match reply {
        case NetworkError =>
          status := Str(ConnectionText);
        case Reply(ok, body) =>
          if body.None? {
            status := Str(ConnectionText);
          } else if ok {
            status := Str(SentText);
            formData := EmptyForm;
          } else {
            var error := ErrorProperty(body.value);
            if error.None? {
              status := Str(ConnectionText);
            } else if Truthy(error.value) {
              status := error.value;
            } else {
              status := Str(FallbackText);
            }
          }
      }
    }
  }
}
