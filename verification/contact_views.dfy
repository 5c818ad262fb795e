/** The contact-form endpoint of the backend: client-address extraction, the
    per-address rate limiter kept in the shared cache, and the ordered chain
    of checks that turns a request body into a stored message or an error
    response.

    The Django cache is a map from keys to (count, expiry) entries and time
    is a parameter in whole seconds; `json.loads` is replaced by its outcome
    (BodyParse); the database insert is a list of stored messages plus a
    flag saying whether the insert raised. */
module ContactViews {
  import opened Wrappers
  import opened PyStr
  import EmailPattern

  const MaxNameLength: nat := 100
  const MaxEmailLength: nat := 254
  const MaxMessageLength: nat := 5000

  /** Defaults of `_is_rate_limited`, the values the view uses. */
  const MaxRequests: int := 5
  const WindowSeconds: int := 3600

  const ForwardedForHeader := "HTTP_X_FORWARDED_FOR"
  const RemoteAddrHeader := "REMOTE_ADDR"

  /** `request.META`, restricted to its string-valued headers. */
  type Meta = map<string, string>

  // ---------------------------------------------------------------------
  // Client address

  /** `_get_client_ip`: a non-empty X-Forwarded-For header gives its text
      before the first comma, stripped; otherwise REMOTE_ADDR, which may be
      absent (None). */
  function ClientIp(meta: Meta): (ip: Option<string>)
    ensures ForwardedForHeader in meta && meta[ForwardedForHeader] != "" ==>
              var header := meta[ForwardedForHeader];
              ip == Some(Strip(header[..IndexOf(header, ',')])) && ',' !in ip.value && Trimmed(ip.value)
    ensures (ForwardedForHeader !in meta || meta[ForwardedForHeader] == "") ==>
              (ip.Some? <==> RemoteAddrHeader in meta) && (ip.Some? ==> ip.value == meta[RemoteAddrHeader])
  {
    var header := if ForwardedForHeader in meta then meta[ForwardedForHeader] else "";
    if header != "" then
      SplitHead(header, ',');
      Some(Strip(Split(header, ',')[0]))
    else if RemoteAddrHeader in meta then Some(meta[RemoteAddrHeader])
    else None
  }

  /** `f'contact_rate_{ip}'`: a missing address formats as "None". */
  function CacheKey(ip: Option<string>): (k: string)
    ensures |k| >= 13 && k[..13] == "contact_rate_"
    ensures ip.Some? ==> k[13..] == ip.value
    ensures ip.None? ==> k[13..] == "None"
  {
    "contact_rate_" + (match ip case Some(a) => a case None => "None")
  }

  /** Two different address strings never share a counter ... */
  lemma CacheKeysDistinct(a: string, b: string)
    requires a != b
    ensures CacheKey(Some(a)) != CacheKey(Some(b))
  {
    var p := "contact_rate_";
    assert CacheKey(Some(a))[|p|..] == a;
    assert CacheKey(Some(b))[|p|..] == b;
  }

  /** ... but a request without any address shares its counter with one
      whose forwarded address is the text "None". */
  lemma MissingAddressSharesKey()
    ensures CacheKey(None) == CacheKey(Some("None"))
  {
  }

  // ---------------------------------------------------------------------
  // Rate limiting

  /** A cache entry: the stored value and the time at which it expires. */
  datatype Entry = Entry(count: int, expiry: int)
  type Cache = map<string, Entry>

  /** The entry for `key` is present and not yet expired at `now`. */
  predicate Live(cache: Cache, key: string, now: int) {
    key in cache && now < cache[key].expiry
  }

  /** `cache.get(key, 0)`: an expired or missing entry reads as 0. */
  function Stored(cache: Cache, key: string, now: int): int {
    if Live(cache, key, now) then cache[key].count else 0
  }

  datatype Decision = Decision(limited: bool, cache: Cache)

  /** One call of `_is_rate_limited` as a function of the cache before it. */
  function RateCheck(cache: Cache, key: string, now: int, maxRequests: int, windowSeconds: int): (d: Decision)
    ensures d.limited <==> Stored(cache, key, now) >= maxRequests
    ensures d.limited ==> d.cache == cache
    ensures !d.limited ==> (d.cache.Keys == cache.Keys + {key}
                            && d.cache[key] == Entry(Stored(cache, key, now) + 1, now + windowSeconds))
    ensures forall k :: k in cache && k != key ==> k in d.cache && d.cache[k] == cache[k]
  {
    var made := Stored(cache, key, now);
    if made >= maxRequests then Decision(true, cache)
    else Decision(false, cache[key := Entry(made + 1, now + windowSeconds)])
  }

  datatype RunResult = RunResult(passed: nat, cache: Cache)

  /** A series of requests from one address at the given times: how many
      were let through, and the cache afterwards. */
  function Run(cache: Cache, key: string, times: seq<int>, maxRequests: int, windowSeconds: int): RunResult
    decreases |times|
  {
    if times == [] then RunResult(0, cache)
    else
      var d := RateCheck(cache, key, times[0], maxRequests, windowSeconds);
      var rest := Run(d.cache, key, times[1..], maxRequests, windowSeconds);
      RunResult(rest.passed + (if d.limited then 0 else 1), rest.cache)
  }

  /** The counter for `key` is at most `bound`. */
  predicate CountAtMost(cache: Cache, key: string, bound: int) {
    key in cache ==> cache[key].count <= bound
  }

  /** Starting from a counter within the limit (for instance an absent key),
      the stored count never exceeds the limit, however many requests come. */
  lemma {:induction false} RunKeepsCountBounded(cache: Cache, key: string, times: seq<int>, maxRequests: int, windowSeconds: int)
    requires CountAtMost(cache, key, maxRequests)
    ensures CountAtMost(Run(cache, key, times, maxRequests, windowSeconds).cache, key, maxRequests)
    decreases |times|
  {
    if times != [] {
      var d := RateCheck(cache, key, times[0], maxRequests, windowSeconds);
      RunKeepsCountBounded(d.cache, key, times[1..], maxRequests, windowSeconds);
    }
  }

  /** While the entry stays live (every request comes before a deadline that
      the entry's expiry reaches), the passes plus the starting count stay
      within the limit. */
  lemma {:induction false} RunWithinLiveEntry(cache: Cache, key: string, times: seq<int>, maxRequests: int, windowSeconds: int, deadline: int)
    requires key in cache && 0 <= cache[key].count <= maxRequests
    requires cache[key].expiry >= deadline
    requires forall i :: 0 <= i < |times| ==> deadline - windowSeconds <= times[i] < deadline
    ensures Run(cache, key, times, maxRequests, windowSeconds).passed + cache[key].count <= maxRequests
    decreases |times|
  {
    if times != [] {
      var d := RateCheck(cache, key, times[0], maxRequests, windowSeconds);
      assert Live(cache, key, times[0]);
      RunWithinLiveEntry(d.cache, key, times[1..], maxRequests, windowSeconds, deadline);
    }
  }

  /** At most `maxRequests` requests from one address pass within any window
      of `windowSeconds` that starts when its counter is absent or expired. */
  lemma AtMostMaxPerWindow(cache: Cache, key: string, times: seq<int>, maxRequests: int, windowSeconds: int)
    requires times != [] && !Live(cache, key, times[0])
    requires maxRequests > 0
    requires forall i :: 0 <= i < |times| ==> times[0] <= times[i] < times[0] + windowSeconds
    ensures Run(cache, key, times, maxRequests, windowSeconds).passed <= maxRequests
  {
    var d := RateCheck(cache, key, times[0], maxRequests, windowSeconds);
    RunWithinLiveEntry(d.cache, key, times[1..], maxRequests, windowSeconds, times[0] + windowSeconds);
  }

  /** A blocked address is released once its entry expires: the first
      request at or after the expiry passes and starts a new count of 1. */
  lemma ReleasedAtExpiry(cache: Cache, key: string, now: int, maxRequests: int, windowSeconds: int)
    requires key in cache && now >= cache[key].expiry && maxRequests > 0
    ensures var d := RateCheck(cache, key, now, maxRequests, windowSeconds);
            !d.limited && d.cache[key] == Entry(1, now + windowSeconds)
  {
  }

  // ---------------------------------------------------------------------
  // Request body and responses

  /** A decoded JSON value, as far as the view looks into it. */
  datatype Json = JString(str: string) | JObject(fields: map<string, Json>) | JOther

  /** What `json.loads(request.body)` does: raise JSONDecodeError (Malformed),
      raise anything else, e.g. a UnicodeDecodeError for bytes that are not
      valid text (Crashed), or return a value. */
  datatype BodyParse = Malformed | Crashed | Parsed(value: Json)

  /** A ContactMessage row. */
  datatype ContactMessage = ContactMessage(name: string, email: string, message: string)

  datatype Response =
    | ErrorResponse(status: int, error: string)
    | SuccessResponse(status: int, success: string)

  const TooManyRequests := ErrorResponse(429, "Troppe richieste. Riprova tra un'ora.")
  const InvalidData := ErrorResponse(400, "Dati non validi.")
  const MissingFields := ErrorResponse(400, "Tutti i campi sono obbligatori.")
  const NameTooLong := ErrorResponse(400, "Il nome non deve superare " + Decimal(MaxNameLength) + " caratteri.")
  const EmailTooLong := ErrorResponse(400, "L'email non deve superare " + Decimal(MaxEmailLength) + " caratteri.")
  const MessageTooLong := ErrorResponse(400, "Il messaggio non deve superare " + Decimal(MaxMessageLength) + " caratteri.")
  const BadEmailFormat := ErrorResponse(400, "Formato email non valido.")
  const Created := SuccessResponse(201, "Messaggio inviato con successo!")
  const ServerError := ErrorResponse(500, "Errore interno del server.")

  /** The length errors quote the limits as decimal numbers. */
  lemma {:induction false} LengthMessagesText()
    ensures NameTooLong.error == "Il nome non deve superare 100 caratteri."
    ensures EmailTooLong.error == "L'email non deve superare 254 caratteri."
    ensures MessageTooLong.error == "Il messaggio non deve superare 5000 caratteri."
  {
    assert Decimal(1) == "1" && Decimal(10) == "10" && Decimal(100) == "100";
    assert Decimal(2) == "2" && Decimal(25) == "25" && Decimal(254) == "254";
    assert Decimal(5) == "5" && Decimal(50) == "50" && Decimal(500) == "500" && Decimal(5000) == "5000";
  }

  /** The key is present with a value that is not a string, so `strip` raises. */
  predicate NotAString(fields: map<string, Json>, key: string) {
    key in fields && !fields[key].JString?
  }

  /** `data.get(key, '').strip()`: a missing key reads as the empty string;
      a value that is not a string makes `strip` raise (None). */
  function StrippedField(fields: map<string, Json>, key: string): (r: Option<string>)
    ensures r.None? <==> NotAString(fields, key)
    ensures key !in fields ==> r == Some("")
    ensures key in fields && fields[key].JString? ==> r == Some(Strip(fields[key].str))
  {
    if key !in fields then Some("")
    else match fields[key]
      case JString(s) => Some(Strip(s))
      case _ => None
  }

  /** The three stripped fields of a body, or None when reading them raises:
      the body is not a JSON object, or one of the fields is present but not
      a string. A missing field reads as "". */
  function Submitted(body: BodyParse): (r: Option<ContactMessage>)
    ensures r.None? <==> || !(body.Parsed? && body.value.JObject?)
                         || NotAString(body.value.fields, "name")
                         || NotAString(body.value.fields, "email")
                         || NotAString(body.value.fields, "message")
    ensures r.Some? ==>
              var f := body.value.fields;
              && r.value.name == (if "name" in f then Strip(f["name"].str) else "")
              && r.value.email == (if "email" in f then Strip(f["email"].str) else "")
              && r.value.message == (if "message" in f then Strip(f["message"].str) else "")
    ensures r.Some? ==> Trimmed(r.value.name) && Trimmed(r.value.email) && Trimmed(r.value.message)
  {
    if body.Parsed? && body.value.JObject? then
      var f := body.value.fields;
      var name := StrippedField(f, "name");
      var email := StrippedField(f, "email");
      var message := StrippedField(f, "message");
      if name.Some? && email.Some? && message.Some? then
        Some(ContactMessage(name.value, email.value, message.value))
      else None
    else None
  }

  /** What a stored message satisfies: every field present, each within its
      length cap, and the address in the accepted format. */
  predicate Acceptable(m: ContactMessage) {
    && m.name != [] && m.email != [] && m.message != []
    && |m.name| <= MaxNameLength
    && |m.email| <= MaxEmailLength
    && |m.message| <= MaxMessageLength
    && EmailPattern.Matches(m.email)
  }

  /** The validation chain on the stripped fields, in source order. */
  function CheckFields(m: ContactMessage): (r: Result<ContactMessage, Response>)
    ensures r.Success? <==> Acceptable(m)
    ensures r.Success? ==> r.value == m
    ensures r.Failure? ==> r.error.ErrorResponse? && r.error.status == 400
  {
    if m.name == [] || m.email == [] || m.message == [] then Failure(MissingFields)
    else if |m.name| > MaxNameLength then Failure(NameTooLong)
    else if |m.email| > MaxEmailLength then Failure(EmailTooLong)
    else if |m.message| > MaxMessageLength then Failure(MessageTooLong)
    else if !EmailPattern.Matches(m.email) then Failure(BadEmailFormat)
    else Success(m)
  }

  /** A check of the chain: whether it passes, and the response it gives when it does not. */
  datatype Rule = Rule(passes: bool, failure: Response)

  /** The chain as a table, in the order the view runs it. */
  function Rules(m: ContactMessage): seq<Rule> {
    [ Rule(m.name != [] && m.email != [] && m.message != [], MissingFields),
      Rule(|m.name| <= MaxNameLength, NameTooLong),
      Rule(|m.email| <= MaxEmailLength, EmailTooLong),
      Rule(|m.message| <= MaxMessageLength, MessageTooLong),
      Rule(EmailPattern.Matches(m.email), BadEmailFormat) ]
  }

  /** The response of the first failing rule, if any. */
  function FirstFailure(rules: seq<Rule>): Option<Response>
    decreases |rules|
  {
    if rules == [] then None
    else if !rules[0].passes then Some(rules[0].failure)
    else FirstFailure(rules[1..])
  }

  /** FirstFailure picks the failing rule all of whose predecessors pass,
      and gives None exactly when every rule passes. */
  lemma {:induction false} FirstFailureDecides(rules: seq<Rule>, i: int)
    requires 0 <= i < |rules| && !rules[i].passes
    requires forall j :: 0 <= j < i ==> rules[j].passes
    ensures FirstFailure(rules) == Some(rules[i].failure)
    decreases |rules|
  {
    if i > 0 {
      FirstFailureDecides(rules[1..], i - 1);
    }
  }

  lemma {:induction false} FirstFailureNone(rules: seq<Rule>)
    ensures FirstFailure(rules) == None <==> forall j :: 0 <= j < |rules| ==> rules[j].passes
    decreases |rules|
  {
    if rules != [] {
      FirstFailureNone(rules[1..]);
      if forall j :: 0 <= j < |rules[1..]| ==> rules[1..][j].passes {
        if rules[0].passes {
          forall j | 0 <= j < |rules| ensures rules[j].passes {
            if j > 0 {
              assert rules[1..][j - 1] == rules[j];
            }
          }
        }
      } else {
        var j :| 0 <= j < |rules[1..]| && !rules[1..][j].passes;
        assert !rules[j + 1].passes;
      }
    }
  }

  /** The if-chain answers with the response of the first failing check of
      the table, and accepts exactly when no check fails. */
  lemma CheckFieldsIsFirstFailure(m: ContactMessage)
    ensures CheckFields(m).Failure? ==> FirstFailure(Rules(m)) == Some(CheckFields(m).error)
    ensures CheckFields(m).Success? <==> FirstFailure(Rules(m)) == None
  {
    var rules := Rules(m);
    FirstFailureNone(rules);
    if !rules[0].passes {
      FirstFailureDecides(rules, 0);
    } else if !rules[1].passes {
      FirstFailureDecides(rules, 1);
    } else if !rules[2].passes {
      FirstFailureDecides(rules, 2);
    } else if !rules[3].passes {
      FirstFailureDecides(rules, 3);
    } else if !rules[4].passes {
      FirstFailureDecides(rules, 4);
    }
  }

  /** Everything the view does after the rate check. */
  datatype Outcome = Outcome(response: Response, created: Option<ContactMessage>)

  /** The body of the `try` after the rate check: parse, read, validate,
      insert. `insertOk` says whether the database insert succeeds. */
  function HandleBody(body: BodyParse, insertOk: bool): (o: Outcome)
    ensures o.created.Some? <==> o.response == Created
    ensures o.created.Some? ==> o.created == Submitted(body) && Acceptable(o.created.value)
    ensures Submitted(body).Some? && Acceptable(Submitted(body).value) && insertOk ==> o.response == Created
    ensures body.Malformed? <==> o.response == InvalidData
    ensures Submitted(body).Some? && CheckFields(Submitted(body).value).Failure? ==>
              o.response == CheckFields(Submitted(body).value).error
    ensures o.response.status == 500 <==> o.response == ServerError
    ensures o.response.status == 500 <==> || (Submitted(body).None? && !body.Malformed?)
                                          || (Submitted(body).Some? && Acceptable(Submitted(body).value) && !insertOk)
    ensures o.response.status in {201, 400, 500}
  {
    match body
    case Malformed => Outcome(InvalidData, None)
    case Crashed => Outcome(ServerError, None)
    case Parsed(v) =>
      match Submitted(body)
      case None => Outcome(ServerError, None)
      case Some(m) =>
        match CheckFields(m)
        case Failure(resp) => Outcome(resp, None)
        case Success(msg) => if insertOk then Outcome(Created, Some(msg)) else Outcome(ServerError, None)
  }

  /** An answer a client can read: the 201 success, or an error with a 4xx
      or 5xx status and a non-empty message. */
  predicate WellFormedAnswer(resp: Response) {
    resp == Created || (resp.ErrorResponse? && 400 <= resp.status <= 599 && resp.error != "")
  }

  /** Every answer of the view after the rate check is well formed. */
  lemma HandleBodyAnswers(body: BodyParse, insertOk: bool)
    ensures WellFormedAnswer(HandleBody(body, insertOk).response)
    ensures WellFormedAnswer(TooManyRequests)
  {
  }

  /** The view's state: the shared cache and the stored messages. */
  class ContactEndpoint {
    var cache: Cache
    var messages: seq<ContactMessage>

    constructor ()
      ensures cache == map[] && messages == []
    {
      cache := map[];
      messages := [];
    }

    /** `_is_rate_limited`: read the counter, refuse at the limit, otherwise
        store the incremented counter with a fresh expiry. */
    method IsRateLimited(ip: Option<string>, now: int, maxRequests: int := MaxRequests, windowSeconds: int := WindowSeconds)
      returns (limited: bool)
      modifies this`cache
      ensures var d := RateCheck(old(cache), CacheKey(ip), now, maxRequests, windowSeconds);
              limited == d.limited && cache == d.cache
    {
      var key := CacheKey(ip);
      var requestsMade := if Live(cache, key, now) then cache[key].count else 0;
      if requestsMade >= maxRequests {
        return true;
      }
      cache := cache[key := Entry(requestsMade + 1, now + windowSeconds)];
      return false;
    }

    /** `submit_contact`: the rate check comes first and runs whatever the
        body is; a limited address gets 429, any other request consumes one
        unit of quota and gets the answer of HandleBody, and a message is
        stored exactly when the answer is 201. */
    method SubmitContact(meta: Meta, body: BodyParse, now: int, insertOk: bool) returns (resp: Response)
      modifies this
      ensures var d := RateCheck(old(cache), CacheKey(ClientIp(meta)), now, MaxRequests, WindowSeconds);
              && cache == d.cache
              && (d.limited ==> resp == TooManyRequests && messages == old(messages))
              && (!d.limited ==> resp == HandleBody(body, insertOk).response)
      ensures resp == Created ==> Submitted(body).Some? && messages == old(messages) + [Submitted(body).value]
      ensures resp != Created ==> messages == old(messages)
      ensures WellFormedAnswer(resp)
    {
      HandleBodyAnswers(body, insertOk);
      var clientIp := ClientIp(meta);
      var limited := IsRateLimited(clientIp, now);
      if limited {
        return TooManyRequests;
      }
      var outcome := HandleBody(body, insertOk);
      if outcome.created.Some? {
        messages := messages + [outcome.created.value];
      }
      resp := outcome.response;
    }
  }
}
