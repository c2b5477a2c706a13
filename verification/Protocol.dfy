/**
 The key request as a state machine against an arbitrary server. One step is one request and what the client does
 with the answer, up to the next request or the end. The server is any infinite sequence of answers.
 */
module Protocol {
  import opened Text
  import opened Events
  import opened Dispatching
  import opened Signing
  import opened Responses
  import opened Requests
  import opened Json
  import ContentType
  import DateHeader
  import SignatureDecoding

  /** The answer to one request: the callbacks of the transfer and the status code, which is 0 when there was none. */
  datatype Reply = Reply(status: int, calls: seq<Callback>)

  /**
   Everything outside the protocol: C, arguments, server, clock, hash, JSON, and what the modules will say to a key.
   `stale` says that an earlier call has left cJSON's error position in a released body.
   */
  datatype Env = Env(
    platform: Platform, host: CString, handle: CString, user: CString, secret: CString,
    server: nat -> Reply, clock: nat -> nat, hmac: (CString, CString) -> Digest,
    json: Parser, stale: bool, slots: CString -> seq<Slot>)

  datatype Outcome = Returned(err: Err) | Undefined

  /** `AtPoll(id, n)`: n answers said PENDING so far. `AtPatch(id, n)`: n answers were read, the last said ACCEPTED. */
  datatype Pc = AtPost | AtPoll(id: int, polls: nat) | AtPatch(id: int, polls: nat) | Done(outcome: Outcome)

  /** `stale`: cJSON's error position is set, and the body that it points into has been released. */
  datatype Config = Config(pc: Pc, log: seq<Event>, stale: bool)

  const FULFILLED: CString := "{\"state\": \"FULFILLED\"}"
  const ACCEPT_JSON: CString := "Accept: application/json"
  const ACCEPT_TEXT: CString := "Accept: text/plain"
  const CONTENT_JSON: CString := "Content-Type: application/json" + "; charsets: utf-8"

  // ----- What is sent -----

  function DateLine(env: Env, n: nat): CString {
    DateHeader.DateText(DateHeader.Gmtime(env.clock(n)))
  }

  /** The headers behind the two signed ones. */
  function PlainHeaders(verb: Verb): seq<CString> {
    match verb
    case GET => [ACCEPT_JSON]
    case POST => [ACCEPT_JSON, CONTENT_JSON]
    case PATCH => [ACCEPT_TEXT, CONTENT_JSON]
  }

  /** All headers of a request at a given time: only the date is signed. */
  function HeaderLines(date: CString, hmac: (CString, CString) -> Digest, user: CString, secret: CString, verb: Verb,
                       body: CString): seq<CString>
  {
    [date, SignedText(hmac, [date], user, secret, body)] + PlainHeaders(verb)
  }

  function UrlFor(env: Env, verb: Verb, id: int): CString {
    if verb == POST then KeyRequestUrl(env.host) else ShowRequestUrl(env.host, id)
  }

  function BodyFor(env: Env, verb: Verb): Option<CString> {
    match verb
    case POST => Some(KeyRequestBody(env.handle))
    case GET => None
    case PATCH => Some(FULFILLED)
  }

  function BodyOr(body: Option<CString>): CString {
    if body.None? then "" else body.value
  }

  /** The `n`-th request of the run. */
  function Request(env: Env, n: nat, verb: Verb, id: int): Event {
    var body := BodyFor(env, verb);
    Sent(verb, UrlFor(env, verb, id), body,
         HeaderLines(DateLine(env, n), env.hmac, env.user, env.secret, verb, BodyOr(body)))
  }

  // ----- What is read -----

  /** The copy of the body and the removal of its last character are defined. */
  predicate HasKey(calls: seq<Callback>) {
    BodyText(calls).Some? && BodyText(calls).value != ""
  }

  function KeyOf(calls: seq<Callback>): CString
    requires HasKey(calls)
  {
    WithoutLast(BodyText(calls).value)
  }

  // ----- The machine -----

  /** The answer to the POST can be worked on: content type, error position and id. */
  predicate PostReadable(env: Env) {
    var body := BodyText(env.server(0).calls);
    && ContentType.Defined(env.platform, HeadersOf(env.server(0).calls))
    && !ReadsStale(env.stale, body) && IdFits(env.json, body)
  }

  function AfterPost(env: Env): Pc {
    if env.server(0).status != 201 then Done(Returned(UL_ERR))
    else if !PostReadable(env) then Done(Undefined)
    else AtPoll(IdFrom(env.json, BodyText(env.server(0).calls)), 0)
  }

  /** The body of an answer that is not 201 is not parsed. */
  predicate StaleAfterPost(env: Env) {
    if env.server(0).status == 201 then StaleAfter(env.json, env.stale, BodyText(env.server(0).calls)) else env.stale
  }

  function AfterPoll(env: Env, id: int, polls: nat, stale: bool): Pc {
    var body := BodyText(env.server(polls + 1).calls);
    if ReadsStale(stale, body) then Done(Undefined)
    else
      match StateFrom(env.json, body)
      case None => Done(Returned(UL_ERR))
      case Some(state) =>
        if state == "PENDING" then AtPoll(id, polls + 1)
        else if state == "DENIED" then Done(Returned(UL_DENIED))
        else if state != "ACCEPTED" then Done(Returned(UL_ERR))
        else AtPatch(id, polls + 1)
  }

  function Step(env: Env, c: Config): Config {
    match c.pc
    case AtPost => Config(AfterPost(env), c.log + [Request(env, 0, POST, 0)], StaleAfterPost(env))
    case AtPoll(id, polls) =>
      var paused := if polls > 0 then c.log + [Slept] else c.log;
      Config(AfterPoll(env, id, polls, c.stale), paused + [Request(env, polls + 1, GET, id)],
             StaleAfter(env.json, c.stale, BodyText(env.server(polls + 1).calls)))
    case AtPatch(id, polls) =>
      var calls := env.server(polls + 1).calls;
      var log := c.log + [Request(env, polls + 1, PATCH, id)];
      if !HasKey(calls) then Config(Done(Undefined), log, c.stale)
      else
        var key := KeyOf(calls);
        Config(Done(Returned(Result(env.slots(key)))), log + Calls(env.slots(key), Success(key)), c.stale)
    case Done(_) => c
  }

  function Run(env: Env, n: nat): Config {
    if n == 0 then Config(AtPost, [], env.stale) else Step(env, Run(env, n - 1))
  }

  ghost predicate Returns(env: Env) {
    exists n: nat :: Run(env, n).pc.Done? && Run(env, n).pc.outcome.Returned?
  }

  // ----- Closed form -----

  predicate PostAccepted(env: Env) {
    AfterPost(env).AtPoll?
  }

  function Id(env: Env): int {
    IdFrom(env.json, BodyText(env.server(0).calls))
  }

  /** The body that the `k`-th poll (from 0) receives, and the state in it. */
  function PollBody(env: Env, k: nat): Option<CString> {
    BodyText(env.server(k + 1).calls)
  }

  function StateAt(env: Env, k: nat): Option<CString> {
    StateFrom(env.json, PollBody(env, k))
  }

  /** The error position before the `k`-th poll: an answer that said PENDING has been parsed, which resets it. */
  predicate StaleAt(env: Env, k: nat) {
    k == 0 && StaleAfterPost(env)
  }

  predicate Pending(env: Env, k: nat) {
    StateAt(env, k) == Some("PENDING")
  }

  /** The first answer that ends the polling. */
  ghost predicate FirstSettled(env: Env, k: nat) {
    !Pending(env, k) && forall j: nat :: j < k ==> Pending(env, j)
  }

  /** All answers before it say PENDING, and it does not. */
  lemma FirstSettledExact(env: Env, k: nat)
    ensures FirstSettled(env, k)
            <==> StateAt(env, k) != Some("PENDING") && forall j: nat :: j < k ==> StateAt(env, j) == Some("PENDING")
  {
    hide StateAt;
    forall j: nat ensures Pending(env, j) <==> StateAt(env, j) == Some("PENDING") {
    }
    if FirstSettled(env, k) {
      forall j: nat | j < k ensures StateAt(env, j) == Some("PENDING") {
        assert Pending(env, j);
      }
    } else if forall j: nat :: j < k ==> StateAt(env, j) == Some("PENDING") {
      forall j: nat | j < k ensures Pending(env, j) {
        assert StateAt(env, j) == Some("PENDING");
      }
    }
  }

  /** The events of the first `k` polls: one pause between any two. */
  function PollLog(env: Env, k: nat): seq<Event> {
    if k == 0 then []
    else (if k > 1 then PollLog(env, k - 1) + [Slept] else []) + [Request(env, k, GET, Id(env))]
  }

  function PatchCalls(env: Env, k: nat): seq<Callback> {
    env.server(k + 2).calls
  }

  /** How a run ends whose polling was settled by answer `k`. */
  function Verdict(env: Env, k: nat): Outcome {
    if ReadsStale(StaleAt(env, k), PollBody(env, k)) then Undefined
    else if StateAt(env, k) == Some("DENIED") then Returned(UL_DENIED)
    else if StateAt(env, k) != Some("ACCEPTED") then Returned(UL_ERR)
    else if !HasKey(PatchCalls(env, k)) then Undefined
    else Returned(Result(env.slots(KeyOf(PatchCalls(env, k)))))
  }

  /** All that such a run does. */
  function Transcript(env: Env, k: nat): seq<Event> {
    [Request(env, 0, POST, 0)] + PollLog(env, k + 1) + Finale(env, k)
  }

  /** The events behind the polling. */
  function Finale(env: Env, k: nat): seq<Event> {
    if StateAt(env, k) != Some("ACCEPTED") then []
    else [Request(env, k + 2, PATCH, Id(env))]
         + if !HasKey(PatchCalls(env, k)) then []
           else Calls(env.slots(KeyOf(PatchCalls(env, k))), Success(KeyOf(PatchCalls(env, k))))
  }

  lemma {:induction false} RunPolls(env: Env, k: nat)
    requires PostAccepted(env) && forall j: nat :: j < k ==> Pending(env, j)
    ensures Run(env, k + 1) == Config(AtPoll(Id(env), k), [Request(env, 0, POST, 0)] + PollLog(env, k), StaleAt(env, k))
  {
    hide Request, BodyText;
    var first := [Request(env, 0, POST, 0)];
    assert Run(env, 1) == Step(env, Run(env, 0));
    if k == 0 {
      assert [] + first == first && first + [] == first;
    } else {
      RunPolls(env, k - 1);
      assert Pending(env, k - 1);
      assert Run(env, k + 1) == Step(env, Run(env, k));
      Associate(first, PollLog(env, k - 1), [Slept], [Request(env, k, GET, Id(env))]);
    }
  }

  lemma Associate<T>(a: seq<T>, b: seq<T>, c: seq<T>, d: seq<T>)
    ensures ((a + b) + c) + d == a + ((b + c) + d)
    ensures (a + b) + d == a + (b + d)
    ensures (a + []) + d == a + ([] + d)
  {
  }

  /** The poll that settles the run. */
  lemma PollSettles(env: Env, k: nat)
    requires !Pending(env, k)
    ensures AfterPoll(env, Id(env), k, StaleAt(env, k))
         == if StateAt(env, k) == Some("ACCEPTED") then AtPatch(Id(env), k + 1) else Done(Verdict(env, k))
    ensures StateAt(env, k).Some? ==> !ReadsStale(StaleAt(env, k), PollBody(env, k))
  {
    hide BodyText, StaleAt, Id;
  }

  /** The step behind it, if there is one. */
  lemma PatchStep(env: Env, k: nat, log: seq<Event>, stale: bool)
    requires StateAt(env, k) == Some("ACCEPTED")
    ensures Step(env, Config(AtPatch(Id(env), k + 1), log, stale))
         == Config(Done(Verdict(env, k)), log + Finale(env, k), stale)
  {
    hide Request, Calls, Result, KeyOf, HasKey, BodyText, StaleAt, ReadsStale, StateAt;
    PollSettles(env, k);
    var patch := Request(env, k + 2, PATCH, Id(env));
    if HasKey(PatchCalls(env, k)) {
      var key := KeyOf(PatchCalls(env, k));
      var calls := Calls(env.slots(key), Success(key));
      assert (log + [patch]) + calls == log + ([patch] + calls);
    } else {
      assert [patch] + [] == [patch];
    }
  }

  /** A settled run does this and ends like this. */
  lemma {:induction false} RunSettles(env: Env, k: nat)
    requires PostAccepted(env) && FirstSettled(env, k)
    ensures Run(env, k + 3)
         == Config(Done(Verdict(env, k)), Transcript(env, k), StaleAfter(env.json, StaleAt(env, k), PollBody(env, k)))
  {
    hide Request, AfterPost, AfterPoll, StaleAt, StaleAfter, StateAt, Verdict, BodyText;
    RunPolls(env, k);
    PollSettles(env, k);
    var first := [Request(env, 0, POST, 0)];
    assert Run(env, k + 2) == Step(env, Run(env, k + 1));
    Associate(first, PollLog(env, k), [Slept], [Request(env, k + 1, GET, Id(env))]);
    assert Run(env, k + 2).log == first + PollLog(env, k + 1);
    assert Run(env, k + 3) == Step(env, Run(env, k + 2));
    if StateAt(env, k) == Some("ACCEPTED") {
      PatchStep(env, k, Run(env, k + 2).log, Run(env, k + 2).stale);
    } else {
      assert (first + PollLog(env, k + 1)) + [] == first + PollLog(env, k + 1);
    }
  }

  lemma {:induction false} DoneStays(env: Env, m: nat, n: nat)
    requires m <= n && Run(env, m).pc.Done?
    ensures Run(env, n) == Run(env, m)
    decreases n - m
  {
    hide Request, Calls, KeyOf, HasKey, AfterPost, AfterPoll;
    if m < n {
      DoneStays(env, m, n - 1);
    }
  }

  lemma {:induction false} LeastSettled(env: Env, from: nat, k: nat) returns (first: nat)
    requires from <= k && !Pending(env, k) && forall j: nat :: j < from ==> Pending(env, j)
    ensures FirstSettled(env, first)
    decreases k - from
  {
    if !Pending(env, from) {
      first := from;
    } else {
      first := LeastSettled(env, from + 1, k);
    }
  }

  // ----- Theorems -----

  /** Every outcome of every run: from the answer to the POST, or from the first answer that is not PENDING. */
  lemma {:induction false} OutcomeExact(env: Env, o: Outcome)
    ensures (exists n: nat :: Run(env, n).pc == Done(o))
            <==> AfterPost(env) == Done(o)
                 || (PostAccepted(env) && exists k: nat :: FirstSettled(env, k) && Verdict(env, k) == o)
  {
    FirstStep(env);
    hide Run, Step, AfterPost, Verdict;
    if n: nat :| Run(env, n).pc == Done(o) {
      OutcomeCovered(env, n, o);
    }
    if AfterPost(env) == Done(o) {
      assert Run(env, 1).pc == Done(o);
    } else if k: nat :| PostAccepted(env) && FirstSettled(env, k) && Verdict(env, k) == o {
      RunSettles(env, k);
      assert Run(env, k + 3).pc == Done(o);
    }
  }

  lemma FirstStep(env: Env)
    ensures Run(env, 1) == Config(AfterPost(env), [Request(env, 0, POST, 0)], StaleAfterPost(env))
  {
    hide Request;
    assert Run(env, 1) == Step(env, Run(env, 0));
  }

  lemma OutcomeCovered(env: Env, n: nat, o: Outcome)
    requires Run(env, n).pc == Done(o)
    ensures AfterPost(env) == Done(o)
            || (PostAccepted(env) && exists k: nat :: FirstSettled(env, k) && Verdict(env, k) == o)
  {
    FirstStep(env);
    hide Run, Step, AfterPost, Verdict, Transcript, PollLog, Request, StateAt, PostAccepted, Pending;
    if Run(env, 1).pc.Done? {
      DoneStays(env, 1, n + 1);
      DoneStays(env, n, n + 1);
    } else if k: nat :| !Pending(env, k) {
      OnlyAccepted(env);
      var first := LeastSettled(env, 0, k);
      RunSettles(env, first);
      DoneStays(env, n, n + first + 3);
      DoneStays(env, first + 3, n + first + 3);
      assert FirstSettled(env, first) && Verdict(env, first) == o;
    } else {
      OnlyAccepted(env);
      RunPolls(env, n);
      DoneStays(env, n, n + 1);
      assert false;
    }
  }

  lemma OnlyAccepted(env: Env)
    ensures AfterPost(env).Done? || PostAccepted(env)
  {
  }

  /** The polling loop ends exactly when some answer is not PENDING; as long as all are, it goes on. */
  lemma {:induction false} HaltsExact(env: Env)
    ensures (exists n: nat :: Run(env, n).pc.Done?)
            <==> !PostAccepted(env) || exists k: nat :: StateAt(env, k) != Some("PENDING")
  {
    FirstStep(env);
    OnlyAccepted(env);
    hide Run, Step, AfterPost, Verdict;
    if n: nat :| Run(env, n).pc.Done? {
      OutcomeCovered(env, n, Run(env, n).pc.outcome);
      if k: nat :| FirstSettled(env, k) {
        assert StateAt(env, k) != Some("PENDING");
      }
    }
    if AfterPost(env).Done? {
      assert Run(env, 1).pc.Done?;
    } else if k: nat :| StateAt(env, k) != Some("PENDING") {
      assert !Pending(env, k);
      var first := LeastSettled(env, 0, k);
      RunSettles(env, first);
      assert Run(env, first + 3).pc.Done?;
    }
  }

  // ----- Where the code has no defined behaviour -----

  /** No chunk came, or the first byte is a NUL: there is no last character to overwrite. */
  predicate Keyless(calls: seq<Callback>) {
    ChunksOf(calls) == [] || (Flatten(ChunksOf(calls)) != "" && Flatten(ChunksOf(calls))[0] == '\0')
  }

  lemma HasKeyExact(calls: seq<Callback>)
    ensures HasKey(calls) <==> !Keyless(calls)
  {
    if ChunksOf(calls) != [] {
      BodyTextExact(calls);
    }
  }

  /**
   The first content-type line is cut short or has a value that `tolower` is not defined for, the log prints an old
   error position, or the id is no `int`.
   */
  ghost predicate PostCrashes(env: Env) {
    var calls := env.server(0).calls;
    var lines, id := HeadersOf(calls), IdIn(env.json, BodyText(calls));
    || (exists i :: 0 <= i < |lines| && ContentType.StartsWithNeedle(lines[i])
                    && ContentType.Crashes(env.platform, lines[i])
                    && forall k :: 0 <= k < i ==> !ContentType.StartsWithNeedle(lines[k]))
    || (ChunksOf(calls) == [] && env.stale)
    || (id.Some? && !FitsInt(id.value))
  }

  /** The answer to the POST is not JSON, and the first poll brings no body: the log prints from the released answer. */
  predicate FirstPollCrashes(env: Env) {
    var body := BodyText(env.server(0).calls);
    body.Some? && env.json(body.value).None? && ChunksOf(env.server(1).calls) == []
  }

  lemma PostReadableExact(env: Env)
    ensures PostReadable(env) <==> !PostCrashes(env)
  {
    hide ContentType.Defined, ContentType.Crashes, ContentType.StartsWithNeedle, IdIn, FitsInt, HeadersOf;
    ContentType.DefinedExact(env.platform, HeadersOf(env.server(0).calls));
  }

  /** The run goes on exactly after a 201 that does not crash. */
  lemma PostAcceptedExact(env: Env)
    ensures PostAccepted(env) <==> env.server(0).status == 201 && !PostCrashes(env)
  {
    hide PostReadable, PostCrashes;
    PostReadableExact(env);
  }

  lemma VerdictUndefinedExact(env: Env, k: nat)
    requires PostAccepted(env)
    ensures Verdict(env, k) == Undefined
            <==> (k == 0 && FirstPollCrashes(env))
                 || (StateAt(env, k) == Some("ACCEPTED") && Keyless(PatchCalls(env, k)))
    ensures k == 0 && FirstPollCrashes(env) ==> StateAt(env, k).None?
  {
    hide Keyless, HasKey, KeyOf, IdFits, ContentType.Defined;
    HasKeyExact(PatchCalls(env, k));
  }

  /** The behaviour of a run is undefined exactly for these answers of the server. */
  lemma {:induction false} UndefinedExact(env: Env)
    ensures (exists n: nat :: Run(env, n).pc == Done(Undefined))
            <==> env.server(0).status == 201
                 && (PostCrashes(env) || FirstPollCrashes(env)
                     || exists k: nat :: FirstSettled(env, k) && StateAt(env, k) == Some("ACCEPTED")
                                         && Keyless(PatchCalls(env, k)))
  {
    OutcomeExact(env, Undefined);
    PostReadableExact(env);
    hide Run, Step, Verdict, StateAt, Keyless, PatchCalls, PostCrashes, PostReadable, FirstPollCrashes;
    if PostAccepted(env) {
      if k: nat :| FirstSettled(env, k) && Verdict(env, k) == Undefined {
        VerdictUndefinedExact(env, k);
      }
      VerdictUndefinedExact(env, 0);
      if FirstPollCrashes(env) {
        assert FirstSettled(env, 0);
      } else if k: nat :| FirstSettled(env, k) && StateAt(env, k) == Some("ACCEPTED") && Keyless(PatchCalls(env, k)) {
        VerdictUndefinedExact(env, k);
      }
    }
  }

  /** A module's own answer to the key is what the run returns. */
  predicate ModulesSay(env: Env, k: nat, err: Err) {
    && StateAt(env, k) == Some("ACCEPTED") && HasKey(PatchCalls(env, k))
    && Result(env.slots(KeyOf(PatchCalls(env, k)))) == err
  }

  /** The result is UL_DENIED exactly when the first answer that is not PENDING says so, or a module does. */
  lemma {:induction false} DeniedExact(env: Env)
    ensures (exists n: nat :: Run(env, n).pc == Done(Returned(UL_DENIED)))
            <==> PostAccepted(env)
                 && exists k: nat :: FirstSettled(env, k)
                                     && (StateAt(env, k) == Some("DENIED") || ModulesSay(env, k, UL_DENIED))
  {
    OutcomeExact(env, Returned(UL_DENIED));
    hide Run, Step, KeyOf, HasKey, StateAt;
    if k: nat :| FirstSettled(env, k) && Verdict(env, k) == Returned(UL_DENIED) {
      assert StateAt(env, k) == Some("DENIED") || ModulesSay(env, k, UL_DENIED);
    }
    if k: nat :| FirstSettled(env, k) && (StateAt(env, k) == Some("DENIED") || ModulesSay(env, k, UL_DENIED)) {
      PollSettles(env, k);
      assert Verdict(env, k) == Returned(UL_DENIED);
    }
  }

  /** Accepted by the server, fetched, and taken by every module that is enabled and wants it. */
  predicate Delivered(env: Env, k: nat) {
    && StateAt(env, k) == Some("ACCEPTED") && HasKey(PatchCalls(env, k))
    && var slots := env.slots(KeyOf(PatchCalls(env, k)));
       forall i :: 0 <= i < |slots| ==> slots[i].Some? ==> slots[i].value == UL_OK
  }

  /** The request succeeds exactly when the key was delivered to all. */
  lemma {:induction false} OkExact(env: Env)
    ensures (exists n: nat :: Run(env, n).pc == Done(Returned(UL_OK)))
            <==> PostAccepted(env) && exists k: nat :: FirstSettled(env, k) && Delivered(env, k)
  {
    OutcomeExact(env, Returned(UL_OK));
    hide Run, Step, KeyOf, HasKey, StateAt;
    if k: nat :| FirstSettled(env, k) && Verdict(env, k) == Returned(UL_OK) {
      DispatchExact(env.slots(KeyOf(PatchCalls(env, k))), Init);
      assert Delivered(env, k);
    }
    if k: nat :| FirstSettled(env, k) && Delivered(env, k) {
      PollSettles(env, k);
      DispatchExact(env.slots(KeyOf(PatchCalls(env, k))), Init);
      assert Verdict(env, k) == Returned(UL_OK);
    }
  }

  /** UL_ERR: a refused POST, a first settled answer with any other state or none, or a module's own answer. */
  lemma {:induction false} ErrExact(env: Env)
    ensures (exists n: nat :: Run(env, n).pc == Done(Returned(UL_ERR)))
            <==> env.server(0).status != 201
                 || (PostAccepted(env)
                     && exists k: nat :: FirstSettled(env, k)
                                         && ((!(k == 0 && FirstPollCrashes(env)) && StateAt(env, k) != Some("ACCEPTED")
                                              && StateAt(env, k) != Some("DENIED"))
                                             || ModulesSay(env, k, UL_ERR)))
  {
    OutcomeExact(env, Returned(UL_ERR));
    hide Run, Step, StateAt, Keyless, PatchCalls, PostReadable, FirstPollCrashes, Verdict, FirstSettled, ModulesSay;
    if PostAccepted(env) {
      forall k: nat
        ensures Verdict(env, k) == Returned(UL_ERR)
                <==> (!(k == 0 && FirstPollCrashes(env)) && StateAt(env, k) != Some("ACCEPTED")
                      && StateAt(env, k) != Some("DENIED"))
                     || ModulesSay(env, k, UL_ERR)
      {
        VerdictErrExact(env, k);
      }
    }
  }

  lemma VerdictErrExact(env: Env, k: nat)
    requires PostAccepted(env)
    ensures Verdict(env, k) == Returned(UL_ERR)
            <==> (!(k == 0 && FirstPollCrashes(env)) && StateAt(env, k) != Some("ACCEPTED")
                  && StateAt(env, k) != Some("DENIED"))
                 || ModulesSay(env, k, UL_ERR)
  {
    hide Keyless, HasKey, KeyOf, IdFits, ContentType.Defined;
  }

  /** What the server must grant for a run to come back: only then do the two dangerous reads happen on good data. */
  lemma ReturnsMeans(env: Env)
    requires Returns(env)
    ensures AfterPost(env) != Done(Undefined)
    ensures PostAccepted(env) ==> exists k: nat :: FirstSettled(env, k) && Verdict(env, k) != Undefined
  {
    FirstStep(env);
    OnlyAccepted(env);
    hide Run, Step, AfterPost, Verdict, Transcript, PollLog, FirstSettled, StateAt, Request;
    var n: nat :| Run(env, n).pc.Done? && Run(env, n).pc.outcome.Returned?;
    if AfterPost(env).Done? {
      DoneStays(env, 1, n + 1);
      DoneStays(env, n, n + 1);
    } else {
      OutcomeCovered(env, n, Run(env, n).pc.outcome);
      var k: nat :| FirstSettled(env, k) && Verdict(env, k) == Run(env, n).pc.outcome;
      assert Verdict(env, k) != Undefined;
    }
  }

  /** The run returns if and only if the POST is refused, or nothing crashes, and the polling ends. */
  lemma {:induction false} ReturnsExact(env: Env)
    ensures Returns(env)
            <==> env.server(0).status != 201
                 || (!PostCrashes(env) && !FirstPollCrashes(env)
                     && exists k: nat :: FirstSettled(env, k)
                                         && !(StateAt(env, k) == Some("ACCEPTED") && Keyless(PatchCalls(env, k))))
  {
    FirstStep(env);
    PostReadableExact(env);
    hide Run, Step, Request, Transcript, StateAt, Keyless, PostCrashes, PostReadable, FirstPollCrashes, Verdict,
         PatchCalls;
    if Returns(env) {
      ReturnsMeans(env);
      if PostAccepted(env) {
        var k: nat :| FirstSettled(env, k) && Verdict(env, k) != Undefined;
        VerdictUndefinedExact(env, k);
        if FirstPollCrashes(env) {
          SettledOnce(env, k);
        }
      }
    }
    if env.server(0).status != 201 {
      assert Run(env, 1).pc == Done(Returned(UL_ERR));
    } else if PostAccepted(env) {
      if k: nat :| FirstSettled(env, k) && !(StateAt(env, k) == Some("ACCEPTED") && Keyless(PatchCalls(env, k)))
                   && !FirstPollCrashes(env) {
        VerdictUndefinedExact(env, k);
        RunSettles(env, k);
        assert Run(env, k + 3).pc.Done? && Run(env, k + 3).pc.outcome.Returned?;
      }
    }
  }

  /** When the first poll crashes, it is the one that settles the run. */
  lemma SettledOnce(env: Env, k: nat)
    requires PostAccepted(env) && FirstSettled(env, k) && FirstPollCrashes(env)
    ensures k == 0
  {
    VerdictUndefinedExact(env, 0);
    assert !Pending(env, 0);
  }

  /** Every id that reaches a URL is an `int`. */
  lemma IdIsInt(env: Env)
    requires PostAccepted(env)
    ensures INT_MIN <= Id(env) <= INT_MAX
  {
    var id := IdIn(env.json, BodyText(env.server(0).calls));
    if id.Some? {
      FitsIntExact(id.value.value);
    }
  }

  // ----- Answers at which the code fails -----

  /** A plain client and a server that gives these answers first. */
  function Sample(replies: seq<Reply>): Env {
    Env(Platform(true, true), "host", "handle", "user", "secret",
        n => if 0 <= n < |replies| then replies[n] else Reply(0, []), n => 0,
        (key, message) => seq(64, _ => 0), SampleJson, false, key => [])
  }

  const CREATED: CString := "{\"id\": 7}"
  const CREATED_HUGE: CString := "{\"id\": 3000000000}"
  const ACCEPTED: CString := "{\"state\": \"ACCEPTED\"}"

  function SampleJson(text: CString): Option<Document> {
    if text == CREATED + "\n" then Some(Document([("id", Number(Finite(7.0)))]))
    else if text == CREATED_HUGE + "\n" then Some(Document([("id", Number(Finite(3000000000.0)))]))
    else if text == ACCEPTED + "\n" then Some(Document([("state", Chars(Some("ACCEPTED")))]))
    else None
  }

  lemma OneChunk(text: CString)
    ensures BodyText([BodyChunk(text)]) == Some(text + "\n") && HeadersOf([BodyChunk(text)]) == []
  {
    SingleChunk(text);
    BodyTextExact([BodyChunk(text)]);
  }

  /** An accepted request whose key never comes: the missing body is copied. */
  lemma AcceptedWithoutBody()
    ensures var env := Sample([Reply(201, [BodyChunk(CREATED)]), Reply(200, [BodyChunk(ACCEPTED)]), Reply(204, [])]);
            Run(env, 2).pc == AtPatch(7, 1) && Run(env, 3).pc == Done(Undefined)
  {
    hide Request, BodyText, HeadersOf;
    var env := Sample([Reply(201, [BodyChunk(CREATED)]), Reply(200, [BodyChunk(ACCEPTED)]), Reply(204, [])]);
    FirstStep(env);
    OneChunk(CREATED);
    OneChunk(ACCEPTED);
    assert Run(env, 1).pc == AtPoll(7, 0);
    assert Run(env, 2) == Step(env, Run(env, 1));
    HasKeyExact([]);
    assert Run(env, 3) == Step(env, Run(env, 2));
  }

  /** An id that is no `int`. */
  lemma HugeId()
    ensures Run(Sample([Reply(201, [BodyChunk(CREATED_HUGE)])]), 1).pc == Done(Undefined)
  {
    hide Request, BodyText, HeadersOf;
    FirstStep(Sample([Reply(201, [BodyChunk(CREATED_HUGE)])]));
    OneChunk(CREATED_HUGE);
  }

  /** An answer that is not JSON, and then one without a body: the log prints from the first, which is released. */
  lemma StaleErrorPosition()
    ensures var env := Sample([Reply(201, [BodyChunk("oops")]), Reply(502, [])]);
            Run(env, 1).pc == AtPoll(0, 0) && Run(env, 1).stale && Run(env, 2).pc == Done(Undefined)
  {
    hide Request, BodyText, HeadersOf;
    var env := Sample([Reply(201, [BodyChunk("oops")]), Reply(502, [])]);
    FirstStep(env);
    OneChunk("oops");
    NoBody();
    assert "oops\n"[0] == 'o';
    assert Run(env, 2) == Step(env, Run(env, 1));
  }

  /** A content type with an accented letter, where `char` is signed. */
  lemma AccentedContentType()
    ensures var line := ContentType.NEEDLE + ":" + "\U{C3}\U{A9}\r\n";
            Run(Sample([Reply(201, [HeaderLine(line), BodyChunk(CREATED)])]), 1).pc == Done(Undefined)
  {
    hide Request, BodyText, HeadersOf, ContentType.Defined;
    var line: CString := ContentType.NEEDLE + ":" + "\U{C3}\U{A9}\r\n";
    FirstStep(Sample([Reply(201, [HeaderLine(line), BodyChunk(CREATED)])]));
    OneHeader(line, [BodyChunk(CREATED)]);
    OneChunk(CREATED);
    assert line[|ContentType.NEEDLE|] == ':';
    assert HeadersOf([HeaderLine(line), BodyChunk(CREATED)]) == [line] by {
      assert [HeaderLine(line)] + [BodyChunk(CREATED)] == [HeaderLine(line), BodyChunk(CREATED)];
    }
    ContentType.AccentedValue(Platform(true, true));
  }

  lemma OneHeader(line: CString, others: seq<Callback>)
    ensures ':' in line ==> HeadersOf([HeaderLine(line)] + others) == [line] + HeadersOf(others)
  {
    CStrOfString(line);
    assert ([HeaderLine(line)] + others)[1..] == others;
  }

  lemma NoBody()
    ensures BodyText([]) == None
  {
  }

  // ----- What every run keeps, finished or not -----

  /** The order of events: POST, then polls with pauses between them, then at most one PATCH, then deliveries. */
  datatype Phase = Start | Posted | Polled | Paused | Patched | Bad

  function Next(p: Phase, e: Event): Phase {
    match (p, e)
    case (Start, Sent(POST, _, _, _)) => Posted
    case (Posted, Sent(GET, _, _, _)) => Polled
    case (Polled, Slept) => Paused
    case (Paused, Sent(GET, _, _, _)) => Polled
    case (Polled, Sent(PATCH, _, _, _)) => Patched
    case (Patched, Called(_, Success(_))) => Patched
    case (_, _) => Bad
  }

  function PhaseFrom(p: Phase, log: seq<Event>): Phase
    decreases |log|
  {
    if log == [] then p else PhaseFrom(Next(p, log[0]), log[1..])
  }

  lemma {:induction false} PhaseConcat(p: Phase, a: seq<Event>, b: seq<Event>)
    ensures PhaseFrom(p, a + b) == PhaseFrom(PhaseFrom(p, a), b)
    decreases |a|
  {
    if a == [] {
      assert a + b == b;
    } else {
      assert (a + b)[0] == a[0] && (a + b)[1..] == a[1..] + b;
      PhaseConcat(Next(p, a[0]), a[1..], b);
    }
  }

  lemma PhaseOne(p: Phase, log: seq<Event>, e: Event)
    ensures PhaseFrom(p, log + [e]) == Next(PhaseFrom(p, log), e)
  {
    PhaseConcat(p, log, [e]);
  }

  lemma {:induction false} PhaseDeliveries(slots: seq<Slot>, key: CString, n: nat)
    requires n <= |slots|
    ensures PhaseFrom(Patched, CallsUpTo(slots, Success(key), n)) == Patched
  {
    if n > 0 {
      PhaseDeliveries(slots, key, n - 1);
      PhaseConcat(Patched, CallsUpTo(slots, Success(key), n - 1),
                  if slots[n - 1].Some? then [Called(n - 1, Success(key))] else []);
    }
  }

  predicate PhaseFits(pc: Pc, p: Phase) {
    match pc
    case AtPost => p == Start
    case AtPoll(_, polls) => p == if polls == 0 then Posted else Polled
    case AtPatch(_, _) => p == Polled
    case Done(_) => p == Posted || p == Polled || p == Patched
  }

  lemma {:induction false} OrderKept(env: Env, n: nat)
    ensures PhaseFits(Run(env, n).pc, PhaseFrom(Start, Run(env, n).log))
  {
    hide Step;
    if n > 0 {
      OrderKept(env, n - 1);
      OrderStep(env, Run(env, n - 1));
    }
  }

  lemma OrderStep(env: Env, c: Config)
    requires PhaseFits(c.pc, PhaseFrom(Start, c.log))
    ensures PhaseFits(Step(env, c).pc, PhaseFrom(Start, Step(env, c).log))
  {
    hide Request, Calls, KeyOf, HasKey, PhaseFrom, StateFrom;
    RequestIsSent(env);
    match c.pc
    case AtPost => PhaseOne(Start, c.log, Request(env, 0, POST, 0));
    case AtPoll(id, polls) =>
      PhaseOne(Start, c.log, Slept);
      PhaseOne(Start, if polls > 0 then c.log + [Slept] else c.log, Request(env, polls + 1, GET, id));
    case AtPatch(id, polls) =>
      PhaseOne(Start, c.log, Request(env, polls + 1, PATCH, id));
      var calls := env.server(polls + 1).calls;
      if HasKey(calls) {
        var slots, call := env.slots(KeyOf(calls)), Success(KeyOf(calls));
        PhaseCalls(slots, KeyOf(calls));
        PhaseConcat(Start, c.log + [Request(env, polls + 1, PATCH, id)], Calls(slots, call));
      }
    case Done(_) =>
  }

  lemma PhaseCalls(slots: seq<Slot>, key: CString)
    ensures PhaseFrom(Patched, Calls(slots, Success(key))) == Patched
  {
    PhaseDeliveries(slots, key, Rounds(slots));
  }

  lemma RequestIsSent(env: Env)
    ensures forall n: nat, verb, id :: Request(env, n, verb, id).Sent? && Request(env, n, verb, id).verb == verb
  {
  }

  /** Whatever happens before the run ends is part of what the settled run does. */
  lemma InTranscript(env: Env, k: nat, n: nat, e: Event)
    requires PostAccepted(env) && FirstSettled(env, k) && e in Run(env, n).log
    ensures e in Transcript(env, k)
  {
    hide Run, Step, Transcript, Verdict, StaleAfter, StaleAt, PollBody, AfterPost;
    RunSettles(env, k);
    LogGrows(env, n, n + k + 3);
    DoneStays(env, k + 3, n + k + 3);
    InPrefix(Run(env, n).log, Transcript(env, k), e);
  }

  lemma InPrefix<T>(a: seq<T>, b: seq<T>, e: T)
    requires a <= b && e in a
    ensures e in b
  {
    assert forall i :: 0 <= i < |a| ==> b[i] == a[i];
  }

  /** What a run does that is not polling belongs to a POST, or to an answer that accepted the request. */
  lemma TranscriptParts(env: Env, k: nat, e: Event)
    requires e in Transcript(env, k)
    ensures (e.Sent? && e.verb == POST) || e == Slept || (e.Sent? && e.verb == GET)
            || (StateAt(env, k) == Some("ACCEPTED")
                && (e == Request(env, k + 2, PATCH, Id(env))
                    || (HasKey(PatchCalls(env, k)) && e.Called? && e.call == Success(KeyOf(PatchCalls(env, k))))))
  {
    hide Request, Calls, KeyOf, HasKey, PollLog, StateAt;
    RequestIsSent(env);
    PollsOnly(env, k + 1);
    if StateAt(env, k) == Some("ACCEPTED") && HasKey(PatchCalls(env, k)) {
      var key := KeyOf(PatchCalls(env, k));
      DispatchCalls(env.slots(key), Success(key));
    }
  }

  /** A PATCH or a delivery appears only in runs whose first answer that is not PENDING is ACCEPTED. */
  lemma {:induction false} PatchOnlyIfAccepted(env: Env, n: nat, e: Event)
    requires e in Run(env, n).log && (e.Called? || (e.Sent? && e.verb == PATCH))
    ensures PostAccepted(env) && exists k: nat :: FirstSettled(env, k) && StateAt(env, k) == Some("ACCEPTED")
  {
    FirstStep(env);
    OnlyAccepted(env);
    hide Run, Step, AfterPost, Request, Transcript, StateAt;
    RequestIsSent(env);
    LogGrows(env, n, n + 1);
    InPrefix(Run(env, n).log, Run(env, n + 1).log, e);
    if AfterPost(env).Done? {
      DoneStays(env, 1, n + 1);
      assert false;
    } else if k: nat :| !Pending(env, k) {
      var first := LeastSettled(env, 0, k);
      InTranscript(env, first, n, e);
      TranscriptParts(env, first, e);
      assert StateAt(env, first) == Some("ACCEPTED");
    } else {
      RunPolls(env, n);
      PollsOnly(env, n);
      assert false;
    }
  }

  lemma {:induction false} LogGrows(env: Env, m: nat, n: nat)
    requires m <= n
    ensures Run(env, m).log <= Run(env, n).log
    decreases n - m
  {
    hide Request, Calls, KeyOf, HasKey, AfterPost, AfterPoll;
    if m < n {
      LogGrows(env, m, n - 1);
    }
  }

  lemma {:induction false} PollsOnly(env: Env, k: nat)
    ensures forall e :: e in PollLog(env, k) ==> e == Slept || (e.Sent? && e.verb == GET)
  {
    hide Request;
    RequestIsSent(env);
    if k > 0 {
      PollsOnly(env, k - 1);
    }
  }

  /** As many pauses as polls, less one. */
  lemma {:induction false} PollCounts(env: Env, k: nat)
    ensures Count(PollLog(env, k), Slept) == if k == 0 then 0 else k - 1
    ensures |PollLog(env, k)| == Count(PollLog(env, k), Slept) + k
  {
    hide Request, Count;
    RequestIsSent(env);
    CountEmpty(Slept);
    if k > 0 {
      PollCounts(env, k - 1);
      CountAppend(PollLog(env, k - 1), Slept, Slept);
      CountAppend(PollLog(env, k - 1) + [Slept], Request(env, k, GET, Id(env)), Slept);
      CountAppend([], Request(env, k, GET, Id(env)), Slept);
    }
  }

  lemma CountEmpty(what: Event)
    ensures Count([], what) == 0
  {
  }

  function Count(log: seq<Event>, e: Event): nat {
    if log == [] then 0 else Count(log[..|log| - 1], e) + if log[|log| - 1] == e then 1 else 0
  }

  lemma CountAppend(log: seq<Event>, e: Event, what: Event)
    ensures Count(log + [e], what) == Count(log, what) + if e == what then 1 else 0
  {
    assert (log + [e])[..|log|] == log;
  }

  /** The events of one kind, in order. */
  function Only(log: seq<Event>, keep: Event -> bool): seq<Event> {
    if log == [] then []
    else Only(log[..|log| - 1], keep) + if keep(log[|log| - 1]) then [log[|log| - 1]] else []
  }

  lemma {:induction false} OnlyConcat(a: seq<Event>, b: seq<Event>, keep: Event -> bool)
    ensures Only(a + b, keep) == Only(a, keep) + Only(b, keep)
    decreases |b|
  {
    if b == [] {
      assert a + b == a;
    } else {
      var front, last := b[..|b| - 1], b[|b| - 1];
      assert (a + b)[..|a + b| - 1] == a + front && (a + b)[|a + b| - 1] == last;
      OnlyConcat(a, front, keep);
    }
  }

  lemma {:induction false} OnlyExact(log: seq<Event>, keep: Event -> bool, e: Event)
    ensures e in Only(log, keep) <==> e in log && keep(e)
    decreases |log|
  {
    if log != [] {
      OnlyExact(log[..|log| - 1], keep, e);
      assert log == log[..|log| - 1] + [log[|log| - 1]];
    }
  }

  lemma {:induction false} OnlyAllOrNone(log: seq<Event>, keep: Event -> bool)
    ensures (forall e :: e in log ==> keep(e)) ==> Only(log, keep) == log
    ensures (forall e :: e in log ==> !keep(e)) ==> Only(log, keep) == []
    decreases |log|
  {
    if log != [] {
      var front, last := log[..|log| - 1], log[|log| - 1];
      assert log == front + [last] && last in log;
      OnlyAllOrNone(front, keep);
    }
  }

  /** The requests of a log in order. */
  function RequestsOf(log: seq<Event>): seq<Event> {
    Only(log, (e: Event) => e.Sent?)
  }

  lemma RequestsAppend(log: seq<Event>, e: Event)
    ensures RequestsOf(log + [e]) == if e.Sent? then RequestsOf(log) + [e] else RequestsOf(log)
  {
    assert (log + [e])[..|log|] == log;
  }

  lemma RequestsSkip(log: seq<Event>, others: seq<Event>)
    requires forall e :: e in others ==> !e.Sent?
    ensures RequestsOf(log + others) == RequestsOf(log)
  {
    OnlyConcat(log, others, (e: Event) => e.Sent?);
    OnlyAllOrNone(others, (e: Event) => e.Sent?);
  }

  lemma RequestsExact(log: seq<Event>, e: Event)
    ensures e in RequestsOf(log) <==> e in log && e.Sent?
  {
    OnlyExact(log, (e: Event) => e.Sent?, e);
  }

  /** All polls and the PATCH ask for one id. */
  function IdFor(env: Env, verb: Verb): int {
    if verb == POST then 0 else Id(env)
  }

  predicate Numbered(env: Env, requests: seq<Event>) {
    forall i :: 0 <= i < |requests| ==>
      requests[i].Sent? && requests[i] == Request(env, i, requests[i].verb, IdFor(env, requests[i].verb))
  }

  lemma NumberedAppend(env: Env, requests: seq<Event>, verb: Verb)
    requires Numbered(env, requests)
    ensures Numbered(env, requests + [Request(env, |requests|, verb, IdFor(env, verb))])
  {
    hide UrlFor, HeaderLines, BodyFor, DateLine, IdFor;
  }

  /** How many requests are behind a state of the machine, and which id the next one will have. */
  predicate CountFits(env: Env, pc: Pc, requests: nat) {
    match pc
    case AtPost => requests == 0
    case AtPoll(id, polls) => requests == polls + 1 && id == Id(env)
    case AtPatch(id, polls) => requests == polls + 1 && id == Id(env)
    case Done(_) => true
  }

  lemma RequestsStep(env: Env, c: Config)
    requires Numbered(env, RequestsOf(c.log)) && CountFits(env, c.pc, |RequestsOf(c.log)|)
    ensures Numbered(env, RequestsOf(Step(env, c).log))
    ensures CountFits(env, Step(env, c).pc, |RequestsOf(Step(env, c).log)|)
  {
    hide Request, Calls, KeyOf, Numbered, HasKey, StateFrom, RequestsOf, IdFrom, PostReadable, ReadsStale, StaleAfter;
    RequestIsSent(env);
    RequestsAppend(c.log, Slept);
    match c.pc
    case AtPost =>
      RequestsAppend(c.log, Request(env, 0, POST, 0));
      NumberedAppend(env, RequestsOf(c.log), POST);
    case AtPoll(id, polls) =>
      RequestsAppend(if polls > 0 then c.log + [Slept] else c.log, Request(env, polls + 1, GET, id));
      NumberedAppend(env, RequestsOf(c.log), GET);
    case AtPatch(id, polls) =>
      RequestsAppend(c.log, Request(env, polls + 1, PATCH, id));
      NumberedAppend(env, RequestsOf(c.log), PATCH);
      var calls := env.server(polls + 1).calls;
      if HasKey(calls) {
        DispatchCalls(env.slots(KeyOf(calls)), Success(KeyOf(calls)));
        RequestsSkip(c.log + [Request(env, polls + 1, PATCH, id)],
                     Calls(env.slots(KeyOf(calls)), Success(KeyOf(calls))));
      }
    case Done(_) =>
  }

  lemma {:induction false} RunNumbered(env: Env, n: nat)
    ensures Numbered(env, RequestsOf(Run(env, n).log))
    ensures CountFits(env, Run(env, n).pc, |RequestsOf(Run(env, n).log)|)
  {
    hide Step, RequestsOf, CountFits;
    if n == 0 {
      assert RequestsOf([]) == [] && CountFits(env, AtPost, 0) by {
        NothingSent(env);
      }
    } else {
      RunNumbered(env, n - 1);
      RequestsStep(env, Run(env, n - 1));
    }
  }

  lemma NothingSent(env: Env)
    ensures RequestsOf([]) == [] && CountFits(env, AtPost, 0)
  {
  }

  /**
   Every request of every run, finished or not, is one of the protocol's: URL and body follow from its verb, and the
   headers are the date at its place in the run, the signature over that line and the body, and the plain headers.
   */
  lemma {:induction false} RunUniform(env: Env, n: nat, e: Event)
    requires e in Run(env, n).log && e.Sent?
    ensures exists m: nat :: m < |RequestsOf(Run(env, n).log)| && RequestsOf(Run(env, n).log)[m] == e
                             && e == Request(env, m, e.verb, if e.verb == POST then 0 else Id(env))
  {
    hide Run, Step, RequestsOf, Request;
    RunNumbered(env, n);
    var requests := RequestsOf(Run(env, n).log);
    RequestsExact(Run(env, n).log, e);
    var m: nat :| m < |requests| && requests[m] == e;
  }

  lemma DispatchCalls(slots: seq<Slot>, call: Call)
    ensures forall e :: e in Calls(slots, call) ==> e.Called? && e.call == call
  {
    CallsUpToExact(slots, call, Rounds(slots));
  }

  /** The key in every delivery is what the server sent in answer to the PATCH, if that has no NUL. */
  lemma {:induction false} KeyDelivered(env: Env, k: nat, n: nat, e: Event)
    requires PostAccepted(env) && FirstSettled(env, k) && StateAt(env, k) == Some("ACCEPTED")
    requires HasKey(PatchCalls(env, k)) && e in Run(env, n).log && e.Called?
    ensures e.call == Success(KeyOf(PatchCalls(env, k)))
    ensures '\0' !in Flatten(ChunksOf(PatchCalls(env, k))) ==>
              e.call.key == Flatten(ChunksOf(PatchCalls(env, k)))
  {
    hide Run, Step, Request, Transcript, KeyOf;
    RequestIsSent(env);
    InTranscript(env, k, n, e);
    TranscriptParts(env, k, e);
    KeyIsPayload(PatchCalls(env, k));
  }

  lemma KeyIsPayload(calls: seq<Callback>)
    requires HasKey(calls)
    ensures KeyOf(calls) == Flatten(ChunksOf(calls)) <==> '\0' !in Flatten(ChunksOf(calls))
  {
    KeyExact(calls);
  }

  // ----- The modules in a run -----

  /** The calls of modules in a log, in order. */
  function CalledOf(log: seq<Event>): seq<Event> {
    Only(log, (e: Event) => e.Called?)
  }

  /** The run comes to a key for the modules. */
  ghost predicate Handed(env: Env, k: nat) {
    PostAccepted(env) && FirstSettled(env, k) && StateAt(env, k) == Some("ACCEPTED") && HasKey(PatchCalls(env, k))
  }

  /** Each module that is asked is called exactly once, in order, with the key, and the first failure is the result. */
  ghost predicate KeyGiven(env: Env, c: Config, key: CString) {
    var slots, called := env.slots(key), CalledOf(c.log);
    && Ordered(called)
    && (forall e :: e in called ==> e.call == Success(key))
    && (forall s: nat :: Called(s, Success(key)) in called <==> Asked(slots, s))
    && (c.pc == Done(Returned(UL_OK)) <==> forall j :: 0 <= j < |slots| ==> !Fails(slots[j]))
    && (forall s: nat :: Asked(slots, s) && Fails(slots[s]) ==> c.pc == Done(Returned(slots[s].value)))
  }

  /**
   What happens to the modules in a run: if it comes to a key, each is called as `KeyGiven` says; if not, none is
   called, and the result is not UL_OK.
   */
  lemma {:induction false} ModulesExact(env: Env, n: nat)
    requires Run(env, n).pc.Done?
    ensures forall k: nat :: Handed(env, k) ==> KeyGiven(env, Run(env, n), KeyOf(PatchCalls(env, k)))
    ensures (forall k: nat :: !Handed(env, k)) ==>
              CalledOf(Run(env, n).log) == [] && Run(env, n).pc != Done(Returned(UL_OK))
  {
    hide Run, KeyGiven, CalledOf, KeyOf;
    forall k: nat | Handed(env, k)
      ensures KeyGiven(env, Run(env, n), KeyOf(PatchCalls(env, k)))
    {
      HandedRun(env, n, k);
    }
    if forall k: nat :: !Handed(env, k) {
      UnhandedRun(env, n);
    }
  }

  lemma HandedRun(env: Env, n: nat, k: nat)
    requires Run(env, n).pc.Done? && Handed(env, k)
    ensures KeyGiven(env, Run(env, n), KeyOf(PatchCalls(env, k)))
  {
    hide Run, Step, Transcript, KeyOf, HasKey, KeyGiven, StaleAfter, StaleAt, PollBody, PostAccepted, StateAt;
    RunSettles(env, k);
    DoneStays(env, n, n + k + 3);
    DoneStays(env, k + 3, n + k + 3);
    CalledInTranscript(env, k);
    PollSettles(env, k);
    GivenSlots(env, Run(env, n), KeyOf(PatchCalls(env, k)));
  }

  lemma CalledInTranscript(env: Env, k: nat)
    ensures CalledOf(Transcript(env, k))
         == if StateAt(env, k) == Some("ACCEPTED") && HasKey(PatchCalls(env, k))
            then Calls(env.slots(KeyOf(PatchCalls(env, k))), Success(KeyOf(PatchCalls(env, k)))) else []
  {
    hide Request, Calls, KeyOf, HasKey, PollLog, StateAt, Only;
    RequestIsSent(env);
    PollsOnly(env, k + 1);
    var post, patch := Request(env, 0, POST, 0), Request(env, k + 2, PATCH, Id(env));
    OnlyAllOrNone([post] + PollLog(env, k + 1), (e: Event) => e.Called?);
    OnlyConcat([post] + PollLog(env, k + 1), Finale(env, k), (e: Event) => e.Called?);
    OnlyAllOrNone([], (e: Event) => e.Called?);
    OnlyAllOrNone([patch], (e: Event) => e.Called?);
    if HasKey(PatchCalls(env, k)) {
      var key := KeyOf(PatchCalls(env, k));
      var calls := Calls(env.slots(key), Success(key));
      DispatchCalls(env.slots(key), Success(key));
      OnlyAllOrNone(calls, (e: Event) => e.Called?);
      OnlyConcat([patch], calls, (e: Event) => e.Called?);
      assert [] + calls == calls;
    } else {
      assert [patch] + [] == [patch];
    }
  }

  /** What a dispatch of the key has called, and what it returns. */
  lemma GivenSlots(env: Env, c: Config, key: CString)
    requires CalledOf(c.log) == Calls(env.slots(key), Success(key)) && c.pc == Done(Returned(Result(env.slots(key))))
    ensures KeyGiven(env, c, key)
  {
    hide CalledOf, Calls, Result;
    var slots := env.slots(key);
    CallsOrdered(slots, Success(key));
    AskedExact(slots, Success(key));
  }

  lemma CallsOrdered(slots: seq<Slot>, call: Call)
    ensures Ordered(Calls(slots, call)) && forall e :: e in Calls(slots, call) ==> e.call == call
  {
    CallsUpToExact(slots, call, Rounds(slots));
  }

  lemma UnhandedRun(env: Env, n: nat)
    requires Run(env, n).pc.Done? && forall k: nat :: !Handed(env, k)
    ensures CalledOf(Run(env, n).log) == [] && Run(env, n).pc != Done(Returned(UL_OK))
  {
    FirstStep(env);
    OnlyAccepted(env);
    hide Run, Step, Transcript, KeyOf, HasKey, StaleAfter, StaleAt, PollBody, StateAt, Request, CalledOf, Verdict;
    if AfterPost(env).Done? {
      DoneStays(env, 1, n + 1);
      DoneStays(env, n, n + 1);
      RequestIsSent(env);
      NotCalled(Request(env, 0, POST, 0));
    } else {
      OutcomeCovered(env, n, Run(env, n).pc.outcome);
      var k: nat :| FirstSettled(env, k) && Verdict(env, k) == Run(env, n).pc.outcome;
      RunSettles(env, k);
      DoneStays(env, n, n + k + 3);
      DoneStays(env, k + 3, n + k + 3);
      assert !Handed(env, k);
      CalledInTranscript(env, k);
      UnhandedVerdict(env, k);
    }
  }

  /** All calls of modules in a run have one key, if there are any. */
  lemma {:induction false} OneKey(env: Env, n: nat, k: nat, e: Event)
    requires Run(env, n).pc.Done? && Handed(env, k) && e in Run(env, n).log && e.Called?
    ensures e.call == Success(KeyOf(PatchCalls(env, k)))
  {
    hide Run, CalledOf, KeyOf, Handed;
    ModulesExact(env, n);
    CalledExact(Run(env, n).log, e);
  }

  lemma CalledExact(log: seq<Event>, e: Event)
    ensures e in CalledOf(log) <==> e in log && e.Called?
  {
    OnlyExact(log, (e: Event) => e.Called?, e);
  }

  lemma NotCalled(e: Event)
    requires e.Sent?
    ensures CalledOf([e]) == []
  {
    OnlyAllOrNone([e], (e: Event) => e.Called?);
  }

  lemma UnhandedVerdict(env: Env, k: nat)
    requires StateAt(env, k) != Some("ACCEPTED") || !HasKey(PatchCalls(env, k))
    ensures Verdict(env, k) != Returned(UL_OK)
  {
  }

  /** A settled run pauses once for every answer that said PENDING. */
  lemma {:induction false} PausesExact(env: Env, k: nat)
    ensures Count(Transcript(env, k), Slept) == k
  {
    hide Request, Calls, KeyOf, HasKey, PollLog, Count;
    RequestIsSent(env);
    PollCounts(env, k + 1);
    var first, patch := Request(env, 0, POST, 0), Request(env, k + 2, PATCH, Id(env));
    CountEmpty(Slept);
    CountAppend([], first, Slept);
    CountAppend([], patch, Slept);
    assert [] + [first] == [first] && [] + [patch] == [patch];
    CountConcat([first], PollLog(env, k + 1), Slept);
    var calls := PatchCalls(env, k);
    var deliveries := if HasKey(calls) then Calls(env.slots(KeyOf(calls)), Success(KeyOf(calls))) else [];
    if HasKey(calls) {
      DispatchCalls(env.slots(KeyOf(calls)), Success(KeyOf(calls)));
    }
    CountNone(deliveries, Slept);
    CountConcat([patch], deliveries, Slept);
    CountConcat([first] + PollLog(env, k + 1), [], Slept);
    CountConcat([first] + PollLog(env, k + 1), [patch] + deliveries, Slept);
  }

  lemma {:induction false} CountConcat(a: seq<Event>, b: seq<Event>, what: Event)
    ensures Count(a + b, what) == Count(a, what) + Count(b, what)
    decreases |b|
  {
    if b == [] {
      assert a + b == a;
    } else {
      var front := b[..|b| - 1];
      assert a + b == (a + front) + [b[|b| - 1]];
      CountAppend(a + front, b[|b| - 1], what);
      CountConcat(a, front, what);
    }
  }

  lemma {:induction false} CountNone(log: seq<Event>, what: Event)
    requires what !in log
    ensures Count(log, what) == 0
    decreases |log|
  {
    if log != [] {
      CountNone(log[..|log| - 1], what);
    }
  }

  // ----- The server's view -----

  /** The date line can always be recovered, and its name is `date`. */
  lemma DateIsRecoverable(tm: DateHeader.Tm)
    requires tm.Valid()
    ensures var hs := [DateHeader.DateText(tm)];
            && AllNamed(hs) && SignatureDecoding.Recoverable(hs) && SignatureDecoding.DistinctNames(hs)
            && NameList(hs) == "date"
  {
    var d := DateHeader.DateText(tm);
    assert d[..4] == "Date" && d[4] == ':';
    FindUnique(d, ':', 4);
    DateHeader.DateIsOneLine(tm);
  }

  /** `joinHeaderNames` lower-cases `Date` and nothing else. */
  lemma DateIsLowerable(platform: Platform, tm: DateHeader.Tm)
    requires tm.Valid()
    ensures NamesLowerable(platform, [DateHeader.DateText(tm)])
  {
    var d := DateHeader.DateText(tm);
    assert d[..4] == "Date" && d[4] == ':';
    FindUnique(d, ':', 4);
  }

  /**
   A server that knows the user's secret accepts the signature of every request of every run, exactly if the user name
   has no quote.
   */
  lemma {:induction false} EveryRequestAccepted(env: Env, n: nat, e: Event)
    requires e in Run(env, n).log && e.Sent?
    ensures |e.headers| >= 2 && (RequestAccepted(env, e) <==> '"' !in env.user)
  {
    hide RequestAccepted, Run, RequestsOf, Request;
    RunUniform(env, n, e);
    var m: nat :| e == Request(env, m, e.verb, if e.verb == POST then 0 else Id(env));
    RequestIsAccepted(env, m, e.verb, if e.verb == POST then 0 else Id(env));
  }

  predicate RequestAccepted(env: Env, e: Event)
    requires e.Sent? && |e.headers| >= 2
  {
    SignatureDecoding.Accepts(map[env.user := env.secret], env.hmac, e.headers, BodyOr(e.body), e.headers[1])
  }

  lemma RequestIsAccepted(env: Env, n: nat, verb: Verb, id: int)
    ensures var e := Request(env, n, verb, id); |e.headers| >= 2 && (RequestAccepted(env, e) <==> '"' !in env.user)
  {
    hide SignatureDecoding.Accepts, SignedText, NameList, SignatureDecoding.Recoverable, DateLine,
         SignatureDecoding.DistinctNames, AllNamed;
    var body := BodyOr(BodyFor(env, verb));
    var date := DateLine(env, n);
    var signed := SignedText(env.hmac, [date], env.user, env.secret, body);
    DateLineIsRecoverable(env, n);
    assert HeaderLines(date, env.hmac, env.user, env.secret, verb, body) == [date] + ([signed] + PlainHeaders(verb));
    SignatureDecoding.AcceptedExact(env.hmac, [date], [signed] + PlainHeaders(verb), env.user, env.secret, body);
  }

  /**
   What a request signs is its date line, which comes first, and its body; nothing else. That is what the Authorization
   header says to a reader, exactly if the user name has no quote.
   */
  lemma {:induction false} OnlyDateSigned(env: Env, n: nat, e: Event)
    requires e in Run(env, n).log && e.Sent?
    ensures |e.headers| >= 2 && exists m: nat :: e.headers[0] == DateLine(env, m)
    ensures e.headers[1] == DateSignature(env, e)
    ensures SignatureDecoding.ParseAuthorization(e.headers[1])
            == Some(SignatureDecoding.Authorization(env.user, "sha512", "date", DigestOf(env, e)))
            <==> '"' !in env.user
  {
    hide Run, RequestsOf, SignatureDecoding.ParseAuthorization, DateLine, NameText, MessageText, AuthText, Hex,
         AllNamed, Request;
    RunUniform(env, n, e);
    var m: nat :| e == Request(env, m, e.verb, if e.verb == POST then 0 else Id(env));
    DateIsNamed(env, m);
    FirstTwo(env, m, e.verb, if e.verb == POST then 0 else Id(env));
    SignatureDecoding.AuthorizationExact(env.user, NameText([e.headers[0]]),
                                         DigestOf(env, e));
  }

  /** The digest over the first header and the body. */
  function DigestOf(env: Env, e: Event): Digest
    requires e.Sent? && e.headers != []
  {
    env.hmac(env.secret, MessageText([e.headers[0]], BodyOr(e.body)))
  }

  function DateSignature(env: Env, e: Event): CString
    requires e.Sent? && e.headers != []
  {
    AuthText(env.user, "date", Hex(DigestOf(env, e)))
  }

  lemma FirstTwo(env: Env, n: nat, verb: Verb, id: int)
    ensures var e := Request(env, n, verb, id);
            |e.headers| >= 2 && e.headers[0] == DateLine(env, n)
            && e.headers[1] == SignedText(env.hmac, [DateLine(env, n)], env.user, env.secret, BodyOr(e.body))
  {
    hide DateLine, SignedText;
  }

  lemma DateIsNamed(env: Env, n: nat)
    ensures AllNamed([DateLine(env, n)]) && NameText([DateLine(env, n)]) == "date"
  {
    DateLineIsRecoverable(env, n);
  }

  // ----- What a server reads in a request -----

  /** The value of the first field of a name: what follows the colon and a space. */
  function FieldValue(received: seq<string>, name: string): Option<string> {
    var h :- SignatureDecoding.Pick(received, name);
    if |Name(h)| + 2 <= |h| then Some(h[|Name(h)| + 2..]) else None
  }

  /** The text of a body, or nothing. */
  function BodyBytes(e: Event): string
    requires e.Sent?
  {
    if e.body.None? then "" else e.body.value
  }

  /** When the request was made, by whom, and over what. */
  predicate ReadsSigned(e: Event, epoch: nat, user: CString, secret: CString, hmac: (CString, CString) -> Digest)
    requires e.Sent?
  {
    && |e.headers| >= 2 && DateHeader.ParseLongDate(e.headers[0]) == Some(epoch)
    && '\0' !in e.headers[0] + "\n" + BodyBytes(e)
    && ('"' !in user ==>
          SignatureDecoding.ParseAuthorization(e.headers[1])
          == Some(SignatureDecoding.Authorization(user, "sha512", "date",
                                                  hmac(secret, e.headers[0] + "\n" + BodyBytes(e)))))
  }

  /** What is asked for, and what is sent. */
  predicate ReadsFields(e: Event)
    requires e.Sent?
  {
    && FieldValue(e.headers, "accept") == Some(if e.verb == PATCH then "text/plain" else "application/json")
    && FieldValue(e.headers, "content-type")
       == (if e.verb == GET then None else Some("application/json; charsets: utf-8"))
    && (e.body == None <==> e.verb == GET)
    && |e.headers| == (if e.verb == GET then 3 else 4)
  }

  /** Where to, and what for: a POST names the key, a PATCH sets the state; polls and PATCH carry the id. */
  predicate ReadsTarget(e: Event, host: CString, handle: CString, id: int)
    requires e.Sent?
  {
    match e.verb
    case POST =>
      && ParseKeyUrl(e.url) == Some(host)
      && (DecodeUtf8(handle).Some? && AllPlain(Units(handle)) ==>
            ReadMember(BodyBytes(e)) == Some((Units("key"), DecodeUtf8(handle).value)))
    case GET => ParseShowUrl(e.url) == Some((host, id))
    case PATCH =>
      && ParseShowUrl(e.url) == Some((host, id))
      && ReadMember(BodyBytes(e)) == Some((Units("state"), Units("FULFILLED")))
  }

  /** A request as a server reads it. */
  predicate Reads(e: Event, epoch: nat, host: CString, handle: CString, user: CString, secret: CString,
                  hmac: (CString, CString) -> Digest, id: int)
    requires e.Sent?
  {
    ReadsSigned(e, epoch, user, secret, hmac) && ReadsFields(e) && ReadsTarget(e, host, handle, id)
  }

  /** Every request of every run reads like that, with the time at its place in the run. */
  lemma {:induction false} RunReads(env: Env, n: nat, e: Event)
    requires e in Run(env, n).log && e.Sent?
    ensures exists m: nat :: m < |RequestsOf(Run(env, n).log)| && RequestsOf(Run(env, n).log)[m] == e
                             && Reads(e, env.clock(m), env.host, env.handle, env.user, env.secret, env.hmac, Id(env))
  {
    hide Run, Step, RequestsOf, Request, Reads;
    RunUniform(env, n, e);
    var m: nat :| m < |RequestsOf(Run(env, n).log)| && RequestsOf(Run(env, n).log)[m] == e
                  && e == Request(env, m, e.verb, if e.verb == POST then 0 else Id(env));
    SignedReads(env, m, e.verb, if e.verb == POST then 0 else Id(env));
    FieldsRead(env, m, e.verb, if e.verb == POST then 0 else Id(env));
    TargetReads(env, m, e.verb, if e.verb == POST then 0 else Id(env));
    assert Reads(e, env.clock(m), env.host, env.handle, env.user, env.secret, env.hmac, Id(env)) by {
      AllRead(e, env.clock(m), env.host, env.handle, env.user, env.secret, env.hmac, Id(env));
    }
  }

  /** The number under `id` in the answer to the POST is what every poll and the PATCH ask for. */
  lemma {:induction false} PollsAskForId(env: Env, text: CString, document: Document, i: nat, id: int, n: nat, e: Event)
    requires BodyText(env.server(0).calls) == Some(text) && env.json(text) == Some(document)
    requires IsFirst(document, "id", i) && document.members[i].1 == Number(Finite(id as real))
    requires e in Run(env, n).log && e.Sent? && e.verb != POST
    ensures ParseShowUrl(e.url) == Some((env.host, id))
  {
    hide Run, RequestsOf, ParseShowUrl, Request, ReadsSigned, ReadsFields;
    RunReads(env, n, e);
    IdExact(env.json, text, document, i);
    TruncateExact(id as real, id);
    TruncateExact(id as real, Id(env));
  }

  lemma AllRead(e: Event, epoch: nat, host: CString, handle: CString, user: CString, secret: CString,
                hmac: (CString, CString) -> Digest, id: int)
    requires e.Sent? && ReadsSigned(e, epoch, user, secret, hmac) && ReadsFields(e) && ReadsTarget(e, host, handle, id)
    ensures Reads(e, epoch, host, handle, user, secret, hmac, id)
  {
  }

  lemma SignedReads(env: Env, m: nat, verb: Verb, id: int)
    ensures var e := Request(env, m, verb, id); e.Sent? && ReadsSigned(e, env.clock(m), env.user, env.secret, env.hmac)
  {
    hide DateLine, AuthText, NameText, MessageText, Hex, DateHeader.ParseLongDate, SignatureDecoding.ParseAuthorization,
         AllNamed, PlainHeaders, UrlFor;
    var date, body := DateLine(env, m), BodyOr(BodyFor(env, verb));
    DateReads(env, m);
    DateIsNamed(env, m);
    FirstTwo(env, m, verb, id);
    SignatureDecoding.AuthorizationExact(env.user, "date", env.hmac(env.secret, MessageText([date], body)));
    OneLineMessage(date, body);
  }

  lemma FieldsRead(env: Env, m: nat, verb: Verb, id: int)
    ensures var e := Request(env, m, verb, id); e.Sent? && ReadsFields(e)
  {
    hide DateLine, SignedText, FieldValue, PlainHeaders, UrlFor, Named, Name, Lower;
    var date, body := DateLine(env, m), BodyOr(BodyFor(env, verb));
    var signed := SignedText(env.hmac, [date], env.user, env.secret, body);
    DateName(env, m);
    SignedName(env, date, body);
    PlainHeadersRead(date, signed, verb);
  }

  lemma TargetReads(env: Env, m: nat, verb: Verb, id: int)
    requires verb == POST || id == Id(env)
    ensures var e := Request(env, m, verb, id); e.Sent? && ReadsTarget(e, env.host, env.handle, Id(env))
  {
    hide HeaderLines, KeyRequestUrl, ShowRequestUrl, KeyRequestBody, ParseKeyUrl, ParseShowUrl, ReadMember, DecodeUtf8;
    KeyUrlRoundTrip(env.host);
    ShowUrlRoundTrip(env.host, id);
    KeyBodyExact(env.handle);
    FulfilledReads();
  }

  lemma DateName(env: Env, m: nat)
    ensures Named(DateLine(env, m)) && Lower(Name(DateLine(env, m))) == "date"
  {
    DateLineIsRecoverable(env, m);
    assert NameList([DateLine(env, m)]) == "date";
  }

  lemma SignedName(env: Env, date: CString, body: CString)
    ensures var signed := SignedText(env.hmac, [date], env.user, env.secret, body);
            Named(signed) && Lower(Name(signed)) == "authorization"
  {
    hide AuthText, NameText, MessageText, Hex, SignatureDecoding.ParameterText, Lower;
    LowerAuthorization();
    var digest := env.hmac(env.secret, MessageText([date], body));
    var parameters := SignatureDecoding.ParameterText(env.user, NameText([date]), Hex(digest));
    var signed := SignedText(env.hmac, [date], env.user, env.secret, body);
    SignatureDecoding.TextInPieces(env.user, NameText([date]), Hex(digest));
    assert signed == "Authorization" + ": " + ("hmac" + " " + parameters);
    FieldParts("Authorization", "hmac" + " " + parameters);
  }

  lemma LowerAuthorization()
    ensures Lower("Authorization") == "authorization" && ':' !in "Authorization"
  {
  }

  lemma FieldParts(name: string, value: string)
    requires ':' !in name
    ensures var h := name + ": " + value; Named(h) && Name(h) == name && h[|name| + 2..] == value
  {
    var h := name + ": " + value;
    assert h[..|name|] == name && h[|name|] == ':';
    FindUnique(h, ':', |name|);
  }

  lemma DateReads(env: Env, m: nat)
    ensures DateHeader.ParseLongDate(DateLine(env, m)) == Some(env.clock(m))
  {
    DateHeader.LongDateRoundTrip(env.clock(m));
  }

  lemma OneLineMessage(date: CString, body: CString)
    ensures MessageText([date], body) == date + "\n" + body
  {
    assert Message([date], body) == date + "\n" + Message([], body);
  }

  lemma FulfilledReads()
    ensures ReadMember(FULFILLED) == Some((Units("state"), Units("FULFILLED")))
  {
    hide DecodeUtf8, ReadMember;
    var value: CString := "FULFILLED";
    assert FULFILLED == BodyOf("state", value);
    AsciiPrefix(value, "");
    NoBytes();
    assert value + "" == value && Units(value) + [] == Units(value);
    MemberExact("state", value);
  }

  /** The first field of each name, in a list of headers that starts with these two. */
  lemma PlainHeadersRead(date: CString, signed: CString, verb: Verb)
    requires Named(date) && Lower(Name(date)) == "date" && Named(signed) && Lower(Name(signed)) == "authorization"
    ensures var hs := [date, signed] + PlainHeaders(verb);
            && FieldValue(hs, "accept") == Some(if verb == PATCH then "text/plain" else "application/json")
            && FieldValue(hs, "content-type")
               == (if verb == GET then None else Some("application/json; charsets: utf-8"))
            && |hs| == (if verb == GET then 3 else 4)
  {
    hide Lower, Name, Named, SignatureDecoding.Pick;
    AcceptParts();
    ContentParts();
    var accept := if verb == PATCH then ACCEPT_TEXT else ACCEPT_JSON;
    var rest := if verb == GET then [] else [CONTENT_JSON];
    assert [date, signed] + PlainHeaders(verb) == [date] + ([signed] + ([accept] + rest));
    assert [CONTENT_JSON] + [] == [CONTENT_JSON];
    PickStep(date, [signed] + ([accept] + rest));
    PickStep(signed, [accept] + rest);
    PickStep(accept, rest);
    PickStep(CONTENT_JSON, []);
    PickNone("content-type");
  }

  lemma PickNone(name: string)
    ensures SignatureDecoding.Pick([], name) == None
  {
  }

  lemma PickStep(h: string, others: seq<string>)
    ensures forall name :: SignatureDecoding.Pick([h] + others, name)
                           == if Named(h) && Lower(Name(h)) == name then Some(h)
                              else SignatureDecoding.Pick(others, name)
  {
    assert ([h] + others)[1..] == others;
  }

  lemma AcceptParts()
    ensures Named(ACCEPT_JSON) && Lower(Name(ACCEPT_JSON)) == "accept" && |Name(ACCEPT_JSON)| == 6
    ensures 8 <= |ACCEPT_JSON| && ACCEPT_JSON[8..] == "application/json"
    ensures Named(ACCEPT_TEXT) && Lower(Name(ACCEPT_TEXT)) == "accept" && |Name(ACCEPT_TEXT)| == 6
    ensures 8 <= |ACCEPT_TEXT| && ACCEPT_TEXT[8..] == "text/plain"
  {
    hide Lower;
    FieldParts("Accept", "application/json");
    FieldParts("Accept", "text/plain");
    LowerAccept();
    AcceptLiterals();
  }

  lemma LowerAccept()
    ensures Lower("Accept") == "accept"
  {
  }

  lemma AcceptLiterals()
    ensures ACCEPT_JSON == "Accept" + ": " + "application/json" && ACCEPT_TEXT == "Accept" + ": " + "text/plain"
  {
  }

  lemma ContentParts()
    ensures Named(CONTENT_JSON) && Lower(Name(CONTENT_JSON)) == "content-type" && |Name(CONTENT_JSON)| == 12
    ensures 14 <= |CONTENT_JSON| && CONTENT_JSON[14..] == "application/json; charsets: utf-8"
  {
    hide Lower;
    ContentLiteral();
    FieldParts("Content-Type", "application/json" + "; charsets: utf-8");
    LowerContentType();
  }

  lemma LowerContentType()
    ensures Lower("Content-Type") == "content-type"
  {
  }

  lemma ContentLiteral()
    ensures CONTENT_JSON == "Content-Type" + ": " + ("application/json" + "; charsets: utf-8")
    ensures "application/json" + "; charsets: utf-8" == "application/json; charsets: utf-8"
  {
    var start := "Content-Type: application/json";
    assert start == "Content-Type" + ": " + "application/json";
    assert CONTENT_JSON == start + "; charsets: utf-8";
  }

  lemma DateLineIsRecoverable(env: Env, n: nat)
    ensures var hs := [DateLine(env, n)];
            && AllNamed(hs) && SignatureDecoding.Recoverable(hs) && SignatureDecoding.DistinctNames(hs)
            && NameList(hs) == "date"
  {
    DateIsRecoverable(DateHeader.Gmtime(env.clock(n)));
  }
}
