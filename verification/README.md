# Portfolio site: contact endpoint, settings and interaction rules in Dafny

This project models the parts of a personal portfolio site that carry logic:

- **The contact endpoint** (`backend/contact/views.py`). It extracts the
  client address from `X-Forwarded-For` or `REMOTE_ADDR`. It rate-limits each
  address to 5 requests per hour with a counter kept in the Django cache.
  It then parses the JSON body, strips and validates the three fields
  (required, length caps 100/254/5000, e-mail pattern) in a fixed order,
  stores a `ContactMessage` and answers 201, 400, 429 or 500 with an Italian
  message. Module `ContactViews`; the e-mail regular expression is its own
  module, `EmailPattern`.
- **The settings read from the environment** (`backend/myproject/settings.py`).
  This covers the mandatory secret key, the `DJANGO_DEBUG` flag, and the
  comma-separated `DJANGO_ALLOWED_HOSTS` and `CORS_ALLOWED_ORIGINS` lists.
  It also covers the HTTPS hardening switches that follow `DEBUG`. Module
  `Settings`.
- **The front end's interaction rules** (`frontend/src/App.tsx`):
  - the quartic ease-in-out smooth scroller and its per-frame callback
    (`SmoothScroll`);
  - the active-section tracker and the navbar's class predicates
    (`Sections`);
  - the one-shot fade-in trigger (`FadeIn`);
  - the contact form's submit handler (`ContactForm`).

`PyStr` models the Python string operations the backend uses
(`strip`, `split`, `lower`, `str(n)`). `Wrappers` holds `Option` and `Result`.

State that the source changes in place is modelled as classes:
- `ContactViews.ContactEndpoint`: the cache and the stored messages;
- `SmoothScroll.Viewport`: the scroll offset and the pending frame callbacks;
- `Sections.ActiveSectionTracker`: the active section id;
- `FadeIn.FadeInElement`: the visible and observed flags;
- `ContactForm.ContactFormState`: the form fields and the status.

Each method is tied to a pure function of the old state. The properties are
proved about those functions. Time, the request body's decoding, the
database insert's success, document geometry, observer notifications and
network replies are all parameters.

Behaviour of the code worth knowing before reading the model:
- Scroll progress is `Math.min(elapsed / 700, 1)`. It is clamped from above
  only, so a frame stamped before the start time gives negative progress
  (`SmoothScroll.Progress`).
- The fade-in callback destructures its batch as `([entry])`. It looks only
  at the first entry of each notification (`FadeIn.FirstEntryOnly`).
- The contact form shows the connectivity message whenever
  `response.json()` fails, even on an ok response. It also shows it when a
  failed reply's body is JSON `null`, because reading `result.error` then
  throws (`ContactForm.NullErrorBodyLooksLikeNetworkFailure`).

## Model

| member | source | states |
|---|---|---|
| ContactViews.ClientIp | backend/contact/views.py:9-14 | A non-empty X-Forwarded-For gives its text before the first comma, stripped: comma-free and trimmed. Otherwise the result is REMOTE_ADDR, and None when that is absent. |
| ContactViews.CacheKey | backend/contact/views.py:19 | The key is "contact_rate_" followed by the address, or by "None" when there is no address. |
| ContactViews.CacheKeysDistinct | backend/contact/views.py:19 | Different address strings get different counters. |
| ContactViews.MissingAddressSharesKey | backend/contact/views.py:19 | A request with no address shares its counter with the forwarded address "None". |
| ContactViews.RateCheck | backend/contact/views.py:17-24 | Limited iff the live counter (0 when missing or expired) has reached the limit. A limited call leaves the cache alone. Otherwise the call stores counter+1 with a fresh expiry and touches no other key. |
| ContactViews.RunKeepsCountBounded | backend/contact/views.py:17-24 | From a counter within the limit (such as an absent key), no sequence of requests pushes the stored count past the limit. |
| ContactViews.RunWithinLiveEntry | backend/contact/views.py:20-23 | While the entry stays live, the passed requests plus the starting count stay within the limit. |
| ContactViews.AtMostMaxPerWindow | backend/contact/views.py:17-24 | Starting with no live counter, at most max_requests requests from one address pass within one window. |
| ContactViews.ReleasedAtExpiry | backend/contact/views.py:20-23 | Once the entry has expired, the next request passes and restarts the count at 1. |
| ContactViews.ContactEndpoint.IsRateLimited | backend/contact/views.py:17-24 | The method's verdict and new cache are those of RateCheck on the old cache. |
| ContactViews.LengthMessagesText | backend/contact/views.py:56-70 | The length errors read "… 100 caratteri.", "… 254 caratteri." and "… 5000 caratteri.". |
| ContactViews.StrippedField | backend/contact/views.py:45-47 | A missing key reads as "". A string value is stripped. Any other value fails (None), because `.strip()` raises on it. |
| ContactViews.Submitted | backend/contact/views.py:44-47 | Fails (None) exactly when the body is not JSON, not an object, or one of the three fields is present but not a string. Otherwise each field is the stripped value of its key, or "" when the key is missing, and all three are trimmed. |
| ContactViews.CheckFields | backend/contact/views.py:49-77 | Accepts iff all three fields are non-empty, within 100/254/5000 characters, and the address matches the pattern. An accepted message is unchanged; every rejection is a 400. |
| ContactViews.FirstFailureDecides | backend/contact/views.py:49-77 | The answer is the failure of the first failing check whose predecessors all pass. |
| ContactViews.FirstFailureNone | backend/contact/views.py:49-77 | No failure is reported iff every check passes. |
| ContactViews.CheckFieldsIsFirstFailure | backend/contact/views.py:49-77 | The view's if-chain gives exactly the first failing check's response of the ordered table, and accepts iff none fails. |
| ContactViews.HandleBody | backend/contact/views.py:44-91 | A message is created iff the answer is 201. A 201 implies the stripped fields are acceptable, and acceptable fields with a successful insert give 201. Malformed JSON gives exactly "Dati non validi.". A readable body whose fields fail a check gets exactly CheckFields' response, which is the first failing check's message. A 500 comes exactly from an unreadable body or a failed insert. Statuses are 201, 400 or 500. |
| ContactViews.HandleBodyAnswers | backend/contact/views.py:39-91 | Every answer is 201 or an error with a 4xx/5xx status and a non-empty message. |
| ContactViews.ContactEndpoint.SubmitContact | backend/contact/views.py:33-91 | The rate check runs first whatever the body. A limited address gets 429 and nothing is stored. Otherwise the answer is HandleBody's, and one stripped message is appended exactly when the answer is 201. |
| EmailPattern.FullMatch | backend/contact/views.py:73-74 | The deterministic scan of the pattern: the first '@' ends a non-empty local part, and the first dot after it ends a non-empty label, followed by a non-empty tail. Its agreement with the pattern is FullMatchIsPattern. |
| EmailPattern.Matches | backend/contact/views.py:73-74 | On a string without a newline, `re.match` with `$` accepts exactly what the full scan accepts. |
| EmailPattern.FullMatchIsPattern | backend/contact/views.py:73-74 | The deterministic scan accepts exactly the strings some cut of the regular expression fits. |
| EmailPattern.AcceptedShape | backend/contact/views.py:73-74 | An accepted address has exactly one '@', a non-empty local part, a dot-free non-empty first label, a dot and a non-empty tail. |
| EmailPattern.MatchesTrimmed | backend/contact/views.py:46 | On a stripped address, the newline allowance of `$` never applies. |
| EmailPattern.TrailingNewlineMatches | backend/contact/views.py:74 | `re.match` with `$` accepts an address followed by one newline. |
| PyStr.Strip | backend/contact/views.py:45-47 | The result has no surrounding whitespace, is empty iff the input is blank, and keeps only input characters. |
| PyStr.StripIsMiddle | backend/contact/views.py:45-47 | The stripped result is a contiguous middle slice of the input, and everything cut off on either side is whitespace. |
| PyStr.StripIdempotent | backend/contact/views.py:45-47 | Stripping twice is stripping once. |
| PyStr.Split | backend/myproject/settings.py:26 | `split(',')` gives at least one piece, and no piece holds the separator. Its partners are JoinSplit and SplitJoin. |
| PyStr.Lower | backend/myproject/settings.py:21 | `lower()` keeps the length, maps each ASCII capital to its small letter, leaves every other character unchanged, and leaves no ASCII capital. |
| PyStr.SplitHead | backend/contact/views.py:13 | The first piece of `split(',')` is the text before the first comma. |
| PyStr.JoinSplit | backend/myproject/settings.py:26 | Joining the pieces of a split with the separator gives back the string. |
| PyStr.SplitJoin | backend/myproject/settings.py:26 | Splitting a join of separator-free parts gives back the parts. |
| Settings.StripNonBlank | backend/myproject/settings.py:24-28 | The comprehension's result is no longer than its input, and every entry is non-empty and trimmed. |
| Settings.ParseList | backend/myproject/settings.py:24-28 | Every entry is non-empty, trimmed and comma-free; an unset variable gives the empty list. |
| Settings.ParseListMembers | backend/myproject/settings.py:24-28 | An entry is kept iff it is the non-empty stripped form of some comma-separated piece. Order and repetitions are fixed by ParseListConcat and ParseListPiece. |
| Settings.ParseListConcat | backend/myproject/settings.py:24-28 | The parse keeps order and repetitions: the list for `a,b` is the list for `a` followed by the list for `b`. |
| Settings.ParseListPiece | backend/myproject/settings.py:24-28 | A comma-free piece gives its stripped form, or nothing when it is blank. With ParseListConcat this determines the whole list. |
| Settings.StripNonBlankConcat | backend/myproject/settings.py:27 | The comprehension on concatenated pieces is the concatenation of its results. |
| PyStr.SplitConcat | backend/myproject/settings.py:26 | The pieces of `a + sep + b` are those of `a` followed by those of `b`. |
| Settings.StripNonBlankMembers | backend/myproject/settings.py:25-27 | The comprehension keeps exactly the non-blank stripped pieces. |
| Settings.ParseListRoundTrip | backend/myproject/settings.py:99-103 | Clean entries written comma-separated parse back to the same list, in order. |
| Settings.ParseDebug | backend/myproject/settings.py:21 | DEBUG holds iff the value is "true" in any mix of case. |
| Settings.SecurityFor | backend/myproject/settings.py:109-118 | The security block is either fully hardened or fully relaxed, never both and never a mixture. |
| Settings.SecurityFollowsDebug | backend/myproject/settings.py:109-118 | With DEBUG the HSTS time is 0 and every hardening switch is off. Without it the time is 31536000 and every switch is on. |
| Settings.Configure | backend/myproject/settings.py:21-118 | DEBUG holds iff DJANGO_DEBUG is set and reads "true" in any case. Both host lists are ParseList of their variable (empty text when unset). Hardening is on iff DEBUG is off, and relaxed iff it is on. |
| Settings.UnsetListsEmpty | backend/myproject/settings.py:24-28 | An unset DJANGO_ALLOWED_HOSTS or CORS_ALLOWED_ORIGINS gives the empty list. |
| Settings.Load | backend/myproject/settings.py:16-18 | Loading fails with the ValueError text iff the secret key is missing or empty. Otherwise the result is Configure of the environment with that key. |
| SmoothScroll.EaseInOutQuart | frontend/src/App.tsx:20-22 | The quartic curve `8t^4` below one half and `1 - (2 - 2t)^4 / 2` from there on. Its properties are the four Ease lemmas below: fixed points, bounds, monotonicity and symmetry. |
| SmoothScroll.EaseFixedPoints | frontend/src/App.tsx:20-22 | The curve passes through (0,0), (0.5,0.5) and (1,1). |
| SmoothScroll.EaseBounds | frontend/src/App.tsx:20-22 | On [0,1] the curve stays in [0,1], and each half stays on its side of 0.5. |
| SmoothScroll.EaseMonotone | frontend/src/App.tsx:20-22 | On [0,1] the curve is non-decreasing. |
| SmoothScroll.EaseSymmetric | frontend/src/App.tsx:20-22 | f(1-t) = 1-f(t). |
| SmoothScroll.PlanScroll | frontend/src/App.tsx:24-34 | No job without a target element. Otherwise the job starts at the current offset and time, and aims at top + scrollY − navbar height, with 60 when there is no navbar. |
| SmoothScroll.Progress | frontend/src/App.tsx:37-38 | Progress is at most 1, and equals 1 iff 700 ms have passed. It is negative before the start time and non-negative from it on. |
| SmoothScroll.FramePosition | frontend/src/App.tsx:36-39 | The offset one frame writes, start + distance × ease(progress). Its properties are FirstFrameAtStart, LastFrameOnTarget, FramesBetweenStartAndTarget and FramesAdvance. |
| SmoothScroll.FirstFrameAtStart | frontend/src/App.tsx:36-39 | A frame at the start time writes the start offset. |
| SmoothScroll.LastFrameOnTarget | frontend/src/App.tsx:36-40 | The frame that sees progress 1 writes exactly the target offset. |
| SmoothScroll.FramesBetweenStartAndTarget | frontend/src/App.tsx:36-39 | Every frame from the start time on lies between the start and the target. |
| SmoothScroll.FramesAdvance | frontend/src/App.tsx:36-39 | Later frames never move back towards the start. |
| SmoothScroll.Continuing | frontend/src/App.tsx:40 | The jobs still asking for a frame are at most the jobs that ran. Which ones they are is ContinuingMembers. |
| SmoothScroll.ContinuingMembers | frontend/src/App.tsx:40 | A job requests another frame iff its 700 ms have not run out. |
| SmoothScroll.HalfwayExample | frontend/src/App.tsx:30-39 | From 1000 by −300, the frame at 350 ms writes 850. |
| SmoothScroll.Viewport.ScrollToSection | frontend/src/App.tsx:24-43 | A missing target changes nothing. Otherwise one job is scheduled and the window does not move yet. |
| SmoothScroll.Viewport.AnimationFrame | frontend/src/App.tsx:36-41 | All waiting callbacks run in order and the last one's position is written. Exactly the unfinished jobs ask for another frame. |
| Sections.SectionIdsDistinct | frontend/src/App.tsx:11-18 | The six section ids are pairwise distinct. |
| Sections.AfterBatch | frontend/src/App.tsx:51-57 | After a batch, the active id is the old one or the id of some intersecting entry. |
| Sections.LastIntersectingWins | frontend/src/App.tsx:51-57 | After a batch the active id is the last intersecting entry's id. |
| Sections.NoIntersectionKeeps | frontend/src/App.tsx:51-57 | A batch with no intersecting entry leaves the active id unchanged. |
| Sections.AfterBatchStaysInSections | frontend/src/App.tsx:51-64 | A batch about observed sections keeps the active id among the section ids. |
| Sections.AfterBatchesStaysInSections | frontend/src/App.tsx:51-64 | The same holds over any series of batches. |
| Sections.ActiveAlwaysASection | frontend/src/App.tsx:46-64 | Starting at "hero", the active id is always one of the six section ids. |
| Sections.ActiveSectionTracker.constructor | frontend/src/App.tsx:47 | The tracker starts at "hero". |
| Sections.ActiveSectionTracker.OnEntries | frontend/src/App.tsx:51-57 | The loop over the batch leaves the active id at AfterBatch of the old one. |
| Sections.NavbarClass | frontend/src/App.tsx:116-125 | Before any scroll event the class is plain "navbar". After one, it carries "navbar-scrolled" iff the offset seen at the last scroll event is strictly above 50. |
| Sections.LinkClass | frontend/src/App.tsx:132 | A link's class is "active" iff its id is the active id, and "" otherwise. |
| Sections.ActiveLinkCountOf | frontend/src/App.tsx:128-132 | With distinct ids, at most one link is "active", and exactly one iff some id equals the active id. |
| Sections.AtMostOneActiveLink | frontend/src/App.tsx:128-132 | At most one navbar link is "active", and exactly one when the active id is a section id. |
| FadeIn.StepVisible | frontend/src/App.tsx:80-84 | A visible element stays visible, and a batch whose first entry does not intersect changes nothing. |
| FadeIn.VisibleAfter | frontend/src/App.tsx:80-84 | A hidden element stays hidden when no batch's first entry intersects. |
| FadeIn.VisibleIffSomeFirstEntryIntersects | frontend/src/App.tsx:79-85 | The element becomes visible iff some batch's first entry intersects. |
| FadeIn.VisibleStays | frontend/src/App.tsx:80-84 | Once visible, no later notification hides it. |
| FadeIn.FirstEntryOnly | frontend/src/App.tsx:80 | An intersecting entry behind a non-intersecting first entry is ignored. |
| FadeIn.FadeInElement.constructor | frontend/src/App.tsx:75-89 | The element starts hidden, and is observed iff it exists. |
| FadeIn.FadeInElement.OnEntries | frontend/src/App.tsx:77-90 | Callbacks arrive only while the element is observed. A missing element and a disconnected or unobserved one get none, so they never turn visible. An intersecting first entry makes the element visible and stops observation. Anything else changes nothing. |
| FadeIn.FadeInElement.Disconnect | frontend/src/App.tsx:90 | Cleanup stops observation and keeps the visible flag. |
| ContactForm.ErrorProperty | frontend/src/App.tsx:413 | Reading `error` throws exactly on null/undefined. It gives the own property of an object when there is one, and undefined otherwise. |
| ContactForm.Settle | frontend/src/App.tsx:400-417 | An ok JSON reply shows the success text and clears the fields. A failed reply shows a truthy server error, or else the fallback text, with the fields kept. A network failure, a non-JSON body or a throwing error read shows the connectivity text, fields kept. The status is always truthy. |
| ContactForm.FieldsKeptUnlessSent | frontend/src/App.tsx:408-414 | Non-empty fields are cleared iff the reply is ok and JSON, and are otherwise kept. |
| ContactForm.NullErrorBodyLooksLikeNetworkFailure | frontend/src/App.tsx:413-416 | A failed reply with a JSON null body shows the connectivity text. |
| ContactForm.SentFieldsReachTheView | frontend/src/App.tsx:406 | The body the form sends is read by the view as its three fields, stripped. |
| ContactForm.ViewAnswerShown | frontend/src/App.tsx:408-414 | Every well-formed view answer reaches the status line. A 201 shows the success text and clears the fields; any error shows the view's own message and keeps them. |
| ContactForm.ContactFormState.constructor | frontend/src/App.tsx:397-398 | The fields start empty and the status null. |
| ContactForm.ContactFormState.EditName | frontend/src/App.tsx:426 | Only the name field changes. |
| ContactForm.ContactFormState.EditEmail | frontend/src/App.tsx:430 | Only the email field changes. |
| ContactForm.ContactFormState.EditMessage | frontend/src/App.tsx:434 | Only the message field changes. |
| ContactForm.ContactFormState.HandleSubmit | frontend/src/App.tsx:400-417 | The new fields and status are Settle's, and the status paragraph is always shown. |

## Left out

- The Django cache backend is reduced to a map of (count, expiry) entries with whole-second time. Its culling, maximum size and process-local sharing are not modelled.
- Concurrency is not modelled. That covers simultaneous requests racing between the cache read and write, overlapping scroll animations from separate clicks (modelled only as callbacks sharing one frame), and double form submission.
- `require_http_methods(["POST"])` and its 405 answer are not modelled. Only POST requests are modelled.
- `json.loads` is an input (malformed, other exception, or a decoded value). The decoded value keeps only strings and objects; every other JSON value is one opaque case.
- The ORM insert is a flag saying whether it raises, plus an appended list entry. Model field limits enforced by the database are not part of this model (`backend/contact/models.py` is not part of this model).
- `JsonResponse` serialisation is not modelled. A response is its status and its message.
- ContactForm.SentFieldsReachTheView: assumes `JSON.stringify` followed by `json.loads` gives back the three strings. Lone surrogates, which the two libraries treat differently, are not modelled.
- PyStr.Lower: maps ASCII letters only. Python's full Unicode lower-casing is not modelled, and only the comparison with "true" depends on it.
- PyStr.Strip: strips the characters Python's `str.isspace` accepts. Strings here are sequences of Unicode scalar values, so text holding lone surrogates (which a Python `str` can hold) is outside the model.
- Field values with lone surrogates are not modelled. `json.loads` produces them from escapes such as `\ud800`, and a Dafny string cannot hold them.
- Settings.Load: loading the environment and the `.env` file (`load_dotenv`) is not modelled; the environment is an input map. `BASE_DIR`, `INSTALLED_APPS`, `MIDDLEWARE`, templates, the database and the constant security headers (frame options, referrer and opener policies) are not modelled. They are fixed literals with no logic.
- `backend/myproject/urls.py` is a routing table and a static page, with nothing to state.
- Numbers in the scroller are exact reals. IEEE-754 rounding is not modelled, and nothing is claimed about floating-point error.
- Browser machinery is not modelled; its results are inputs. That covers the DOM lookups, `getBoundingClientRect`, the IntersectionObserver geometry (root margins and the 0.08 threshold), `requestAnimationFrame`, `performance.now`, `window.scrollTo` and `fetch`. The browser's clamping of the written scroll offset to the scrollable range is left out as well.
- React rendering, hook scheduling and the batching of state updates are not modelled. The tracker's loop writes the active id directly, which is where React's last update would leave it.
- The browser's own form validation (`required`, `type="email"`), which stops a submit before `handleSubmit` runs, is not modelled. The handler is modelled for every field content.
- The page's text, skills, projects, hobbies and styles are not modelled.
- ContactViews.AtMostMaxPerWindow: requires a limit of at least one request, as the view's limit of 5 is. With a limit of zero no request passes, which meets the bound. With a negative limit no request passes either, but then the count of passed requests (0) exceeds the limit, so the bound as stated does not hold.
