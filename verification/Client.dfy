/** `src/client.c` and the requests of `src/https-client.c`, on the heap. */
module Client {
  import opened Text
  import opened Memory
  import opened HeaderLists
  import opened Events
  import opened Signing
  import opened Responses
  import opened Requests
  import opened Json
  import opened Protocol
  import Cli
  import ContentType
  import DateHeader
  import Dispatching
  import Registry

  /** A heap that differs by one string. */
  ghost predicate Holds(m: Mem, p: Ptr, s: CString, m0: Mem) {
    p !in m0 && p != NULL && m == m0[p := s + "\0"]
  }

  lemma AddedAndRemoved(m: Mem, p: Ptr, s: string)
    requires p !in m
    ensures m[p := s + "\0"] - {p} == m
  {
  }

  /** At most one response structure is alive; it is a block of the heap. */
  ghost predicate OneAlive(live: set<Ptr>, m: Mem) {
    live <= m.Keys && forall p, q :: p in live && q in live ==> p == q
  }

  lemma OneAliveExact(p: Ptr, m: Mem)
    ensures OneAlive({}, m)
    ensures OneAlive({p}, m) <==> p in m
  {
  }

  class Client {
    const heap: Heap
    const signer: Signer
    const registry: Registry.ModuleRegistry
    const journal: Journal
    /** The literal body of the PATCH, in the program image. */
    const fulfilled: Ptr
    /** The world outside: the answer to the n-th request, the time at it, and cJSON's reading of a body. */
    const server: nat -> Reply
    const clock: nat -> nat
    const json: Parser
    /** The requests made so far. */
    var requests: nat
    /** What `cJSON_GetErrorPtr` returns: the body that could not be parsed, which may have been released since. */
    var errorPtr: Ptr
    /** The response structures that are alive. */
    ghost var live: set<Ptr>

    ghost predicate Valid()
      reads this, heap, signer, registry
    {
      && heap.Valid() && heap.reliable
      && signer.heap == heap && signer.Valid()
      && registry.Valid() && registry.journal == journal
      && fulfilled in heap.statics && IsString(heap.mem, fulfilled) && StringAt(heap.mem, fulfilled) == FULFILLED
      && OneAlive(live, heap.mem)
    }

    constructor (heap: Heap, signer: Signer, registry: Registry.ModuleRegistry, fulfilled: Ptr, server: nat -> Reply,
                 clock: nat -> nat, json: Parser)
      requires heap.Valid() && heap.reliable && signer.heap == heap && signer.Valid() && registry.Valid()
      requires fulfilled in heap.statics && IsString(heap.mem, fulfilled)
      requires StringAt(heap.mem, fulfilled) == FULFILLED
      ensures Valid() && requests == 0 && errorPtr == NULL && live == {}
      ensures this.heap == heap && this.signer == signer && this.registry == registry && this.fulfilled == fulfilled
      ensures this.server == server && this.clock == clock && this.json == json
    {
      this.heap, this.signer, this.registry, journal := heap, signer, registry, registry.journal;
      this.fulfilled, this.server, this.clock, this.json := fulfilled, server, clock, json;
      requests, errorPtr, live := 0, NULL, {};
    }

    /** `struct Request` as far as a transfer uses it: the strings it points to are alive. */
    ghost predicate Ready(url: Ptr, body: Ptr, user: Ptr, secret: Ptr)
      reads heap
    {
      && IsString(heap.mem, url) && IsString(heap.mem, user) && IsString(heap.mem, secret)
      && (body == NULL || IsString(heap.mem, body))
    }

    /** `add_date_header`. */
    method AddDateHeader(headers: SList) returns (headers': SList)
      requires Valid() && ListValid(heap, headers)
      modifies heap
      ensures heap.Valid() && ListValid(heap, headers')
      ensures Lines(heap.mem, headers')
           == Lines(old(heap.mem), headers) + [DateHeader.DateText(DateHeader.Gmtime(clock(requests)))]
      ensures heap.mem - Blocks(headers') == old(heap.mem) - Blocks(headers)
    {
      hide CStr, Lines, Readable, Distinct, Blocks, DateHeader.DateText, DateHeader.Gmtime, OneAlive;
      ghost var m := heap.mem;
      BlocksLive(m, headers);
      var date := DateHeader.PrintDateHeader(heap, clock(requests));
      LinesFrame(m, heap.mem, headers);
      headers' := AppendAndFree(heap, headers, date);
      AddedAndRemoved(m, date, DateHeader.DateText(DateHeader.Gmtime(clock(requests))));
    }

    /** `add_auth_header`, for headers that all have a name. */
    method AddAuthHeader(headers: SList, user: Ptr, secret: Ptr, body: Ptr) returns (headers': SList)
      requires Valid() && ListValid(heap, headers) && AllNamed(Lines(heap.mem, headers))
      requires NamesLowerable(heap.platform, Lines(heap.mem, headers))
      requires Ready(user, body, user, secret)
      modifies heap, signer.hexDigest
      ensures heap.Valid() && ListValid(heap, headers')
      ensures var m := old(heap.mem);
              var hs := Lines(m, headers);
              Lines(heap.mem, headers')
              == hs + [SignedText(signer.hmac, hs, StringAt(m, user), StringAt(m, secret), TextAt(m, body))]
      ensures heap.mem - Blocks(headers') == old(heap.mem) - Blocks(headers)
    {
      hide CStr, Lines, Readable, Distinct, Blocks, SignedText, AllNamed, NamesLowerable;
      ghost var m := heap.mem;
      BlocksLive(m, headers);
      var auth := signer.AuthHeader(headers, user, secret, body);
      LinesFrame(m, heap.mem, headers);
      ghost var text := StringAt(heap.mem, auth);
      headers' := AppendAndFree(heap, headers, auth);
      AddedAndRemoved(m, auth, text);
    }

    /** The header list of a request: the date, its signature, and the plain headers, in that order. */
    method BuildHeaders(verb: Verb, body: Ptr, user: Ptr, secret: Ptr) returns (headers: SList)
      requires Valid() && Ready(user, body, user, secret)
      modifies heap, signer.hexDigest
      ensures Valid() && ListValid(heap, headers)
      ensures Lines(heap.mem, headers)
           == HeaderLines(DateHeader.DateText(DateHeader.Gmtime(clock(requests))), signer.hmac,
                          StringAt(old(heap.mem), user), StringAt(old(heap.mem), secret), verb,
                          TextAt(old(heap.mem), body))
      ensures heap.mem - Blocks(headers) == old(heap.mem)
    {
      hide CStr, Lines, Readable, Distinct, SignedText, DateHeader.DateText, DateHeader.Gmtime, IsString;
      ghost var m := heap.mem;
      headers := SignedHeaders(body, user, secret);
      ghost var signed := Lines(heap.mem, headers);
      headers := SlistAppend(heap, headers, if verb == PATCH then ACCEPT_TEXT else ACCEPT_JSON);
      if verb != GET {
        headers := SlistAppend(heap, headers, CONTENT_JSON);
      }
      assert Lines(heap.mem, headers) == signed + PlainHeaders(verb);
      Rest(m, heap.mem, Blocks(headers));
    }

    /** The first two headers. */
    method SignedHeaders(body: Ptr, user: Ptr, secret: Ptr) returns (headers: SList)
      requires Valid() && Ready(user, body, user, secret)
      modifies heap, signer.hexDigest
      ensures heap.Valid() && ListValid(heap, headers)
      ensures var m, date := old(heap.mem), DateHeader.DateText(DateHeader.Gmtime(clock(requests)));
              Lines(heap.mem, headers)
              == [date, SignedText(signer.hmac, [date], StringAt(m, user), StringAt(m, secret), TextAt(m, body))]
      ensures heap.mem - Blocks(headers) == old(heap.mem)
    {
      hide CStr, Lines, Readable, Distinct, SignedText, AllNamed, DateHeader.DateText, DateHeader.Gmtime, IsString;
      ghost var m := heap.mem;
      ghost var date := DateHeader.DateText(DateHeader.Gmtime(clock(requests)));
      EmptyList(m);
      headers := AddDateHeader(Nil);
      assert [] + [date] == [date];
      DateIsRecoverable(DateHeader.Gmtime(clock(requests)));
      DateIsLowerable(heap.platform, DateHeader.Gmtime(clock(requests)));
      Rest(m, heap.mem, Blocks(headers));
      headers := AddAuthHeader(headers, user, secret, body);
    }

    lemma Rest(m: Mem, m': Mem, dead: set<Ptr>)
      requires m' - dead == m
      ensures forall p :: p in m ==> p in m' && m'[p] == m[p] && p !in dead
      ensures forall p :: IsString(m, p) ==> IsString(m', p) && StringAt(m', p) == StringAt(m, p)
      ensures forall p :: (p == NULL || IsString(m, p)) && NULL !in m' ==> TextAt(m', p) == TextAt(m, p)
    {
      assert forall p :: p in m ==> p in m' - dead;
    }

    lemma EmptyList(m: Mem)
      ensures Readable(m, Nil) && Distinct(Nil) && Blocks(Nil) == {} && Lines(m, Nil) == [] && m - {} == m
    {
    }

    /**
     `https_hmac_GET`, `https_hmac_PATCH` and `https_hmac_POST`: the headers, the transfer, the release of the headers.
     The server answers with the next reply; a transfer that fails is a reply with what had arrived by then.
     */
    method Exchange(verb: Verb, url: Ptr, body: Ptr, user: Ptr, secret: Ptr, response: Response)
      requires Valid() && Ready(url, body, user, secret)
      requires response.Valid(heap) && response.body == NULL && response.headers == Nil && live == {response.self}
      modifies heap, signer.hexDigest, journal, `requests, response
      ensures Valid() && response.Valid(heap) && requests == old(requests) + 1
      ensures journal.log == old(journal.log) + [SentEvent(old(heap.mem), old(requests), verb, url, body, user, secret)]
      ensures var reply := server(old(requests));
              && response.status == reply.status
              && Contents(heap.mem, response.body) == BodyText(reply.calls)
              && response.Headers(heap) == HeadersOf(reply.calls)
      ensures heap.mem - response.Repr() == old(heap.mem - response.Repr())
    {
      hide CStr, Lines, Readable, Distinct, HeaderLines, DateHeader.DateText, DateHeader.Gmtime, ChunksOf, HeadersOf;
      ghost var m := heap.mem;
      var headers := BuildHeaders(verb, body, user, secret);
      Rest(m, heap.mem, Blocks(headers));
      var data := if verb == GET || body == NULL then None else Some(StringAt(heap.mem, body));
      journal.log := journal.log + [Sent(verb, StringAt(heap.mem, url), data, Lines(heap.mem, headers))];
      EmptyList(heap.mem);
      Transfer(response, headers);
      Stays(m, old(response.Repr()), heap.mem, response.Repr(), fulfilled);
    }

    lemma Stays(m: Mem, r: set<Ptr>, m': Mem, r': set<Ptr>, p: Ptr)
      requires m' - r' == m - r && p in m && p !in r
      ensures p in m' && m'[p] == m[p] && p !in r'
    {
      assert p in m' - r';
    }

    /** The event of a request, from what its strings hold. */
    ghost function SentEvent(m: Mem, n: nat, verb: Verb, url: Ptr, body: Ptr, user: Ptr, secret: Ptr): Event
      requires IsString(m, url) && IsString(m, user) && IsString(m, secret) && (body == NULL || IsString(m, body))
    {
      Sent(verb, StringAt(m, url), if verb == GET || body == NULL then None else Some(StringAt(m, body)),
           HeaderLines(DateHeader.DateText(DateHeader.Gmtime(clock(n))), signer.hmac, StringAt(m, user),
                       StringAt(m, secret), verb, TextAt(m, body)))
    }

    /** `curl_easy_perform` with the callbacks, and `curl_slist_free_all` of the request's headers. */
    method Transfer(response: Response, headers: SList)
      requires Valid() && response.Valid(heap) && response.body == NULL && response.headers == Nil
      requires ListValid(heap, headers) && Blocks(headers) !! response.Repr()
      modifies heap, `requests, response
      ensures heap.Valid() && response.Valid(heap) && requests == old(requests) + 1
      ensures var reply := server(old(requests));
              && response.status == reply.status
              && Contents(heap.mem, response.body) == BodyText(reply.calls)
              && response.Headers(heap) == HeadersOf(reply.calls)
      ensures heap.mem - response.Repr() == old(heap.mem) - Blocks(headers) - old(response.Repr())
    {
      hide CStr, Lines, Readable, Distinct, ChunksOf, HeadersOf;
      ghost var m1, r1 := heap.mem, response.Repr();
      BlocksLive(m1, headers);
      var reply := server(requests);
      requests := requests + 1;
      response.Receive(heap, reply.calls, reply.status);
      ghost var m2, r2 := heap.mem, response.Repr();
      ghost var rest := m1 - r1;
      assert forall p :: p in Blocks(headers) ==> p in rest && rest[p] == m1[p];
      LinesFrame(m1, m2, headers);
      BodyIsText(response, heap, reply.calls);
      response.ReprLive(heap);
      label Received:
      SlistFreeAll(heap, headers);
      response.Kept@Received(heap);
      assert heap.mem - r2 == (m2 - r2) - Blocks(headers);
      assert (m1 - r1) - Blocks(headers) == m1 - Blocks(headers) - r1;
    }

    // ----- Reading the answers -----

    /** `cJSON_Parse`: without a body it returns before it resets the error position. */
    method Parse(body: Ptr) returns (document: Option<Document>)
      requires body == NULL || IsString(heap.mem, body)
      modifies `errorPtr
      ensures document == if body == NULL then None else json(StringAt(heap.mem, body))
      ensures errorPtr == if body == NULL then old(errorPtr) else if document.None? then body else NULL
    {
      if body == NULL {
        return None;
      }
      errorPtr := NULL;
      var text := heap.Load(body);
      document := json(text);
      if document.None? {
        errorPtr := body;
      }
    }

    /** The message about a body that could not be parsed prints the text at the error position, if that is set. */
    method LogParseError()
      requires errorPtr == NULL || IsString(heap.mem, errorPtr)
    {
      if errorPtr != NULL {
        var text := heap.Load(errorPtr);
      }
    }

    /** `get_request_id`. */
    method GetRequestId(response: Response) returns (id: int)
      requires response.Valid(heap)
      requires response.body == NULL ==> errorPtr == NULL
      requires IdFits(json, Contents(heap.mem, response.body))
      modifies `errorPtr
      ensures id == IdFrom(json, Contents(heap.mem, response.body))
      ensures var number := IdIn(json, Contents(heap.mem, response.body));
              number.Some? ==> number.value.Finite? && IntegralPart(id, number.value.value)
      ensures errorPtr == ErrorPtrAfter(heap.mem, old(errorPtr), response.body)
    {
      hide CStr;
      BodyIsString(response);
      var document := Parse(response.body);
      if document.None? {
        LogParseError();
        return 0;
      }
      var element := Member(document.value.members, "id");
      if element.None? || !element.value.Number? {
        return 0;
      }
      assert FitsInt(element.value.number);
      TruncateExact(element.value.number.value, Truncate(element.value.number.value));
      id := Truncate(element.value.number.value);
    }

    lemma BodyIsString(response: Response)
      requires response.Valid(heap)
      ensures response.body == NULL || IsString(heap.mem, response.body)
    {
      if response.body != NULL {
        assert heap.mem[response.body][response.bodyLen + 1] == '\0';
      }
    }

    /** The error position after a body has been given to cJSON. */
    ghost function ErrorPtrAfter(m: Mem, before: Ptr, body: Ptr): Ptr {
      if body == NULL then before else if body in m && json(StringAt(m, body)).None? then body else NULL
    }

    /** `get_request_state`: a copy of the state, or NULL. */
    method GetRequestState(response: Response) returns (state: Ptr)
      requires response.Valid(heap) && heap.reliable
      requires response.body == NULL ==> errorPtr == NULL
      modifies heap, `errorPtr
      ensures response.Valid(heap)
      ensures var found := StateFrom(json, Contents(old(heap.mem), response.body));
              if found.None? then state == NULL && heap.mem == old(heap.mem)
              else state !in heap.statics && Holds(heap.mem, state, found.value, old(heap.mem))
      ensures errorPtr == ErrorPtrAfter(old(heap.mem), old(errorPtr), response.body)
    {
      hide CStr;
      BodyIsString(response);
      var document := Parse(response.body);
      if document.None? {
        LogParseError();
        return NULL;
      }
      var element := Member(document.value.members, "state");
      if element.None? || !element.value.Chars? || element.value.text.None? {
        return NULL;
      }
      state := CopyState(response, element.value.text.value);
    }

    /** The `malloc` and `memcpy` of the state. */
    method CopyState(response: Response, text: CString) returns (state: Ptr)
      requires response.Valid(heap) && heap.reliable
      modifies heap
      ensures response.Valid(heap) && state !in heap.statics && Holds(heap.mem, state, text, old(heap.mem))
    {
      hide CStr;
      ghost var m := heap.mem;
      BlocksLive(m, response.headers);
      state := heap.Malloc(|text| + 1);
      ContentType.CopyText(heap, state, text);
      LinesFrame(m, heap.mem, response.headers);
    }

    /** `validate_content_type`, which only logs. */
    method ValidateContentType(response: Response)
      requires response.Valid(heap) && heap.reliable && ContentType.Defined(heap.platform, response.Headers(heap))
      modifies heap
      ensures response.Valid(heap) && heap.mem == old(heap.mem)
    {
      hide CStr, ContentType.Defined, ContentType.ContentTypeOf;
      ghost var m := heap.mem;
      var contentType := ContentType.GetContentType(heap, response.headers);
      if contentType != NULL {
        var text := heap.Load(contentType);
      }
      heap.Free(contentType);
      assert heap.mem == m;
    }

    // ----- request_key -----

    /** The strings of the arguments are alive; `validate_args` has checked that none is missing. */
    ghost predicate ArgsReady(args: Cli.Arguments)
      reads args, heap
    {
      && IsString(heap.mem, args.host) && IsString(heap.mem, args.keyHandle)
      && IsString(heap.mem, args.secret) && IsString(heap.mem, args.username)
    }

    /** The environment of the protocol is this client's, from its `base`-th request on. */
    ghost predicate Describes(env: Env, base: nat, args: Cli.Arguments)
      requires ArgsReady(args)
      reads heap, args
    {
      && env.host == StringAt(heap.mem, args.host) && env.handle == StringAt(heap.mem, args.keyHandle)
      && env.user == StringAt(heap.mem, args.username) && env.secret == StringAt(heap.mem, args.secret)
      && World(env, base)
    }

    /** The error position is set, and what it points into is released, if and only if the protocol says so. */
    ghost predicate ErrorPtrIs(stale: bool)
      reads this, heap
    {
      errorPtr !in heap.mem && (errorPtr != NULL <==> stale)
    }

    ghost predicate World(env: Env, base: nat) {
      && (forall n: nat :: env.server(n) == server(base + n)) && (forall n: nat :: env.clock(n) == clock(base + n))
      && env.hmac == signer.hmac && env.json == json && env.platform == heap.platform
    }

    /** The modules answer a key as the environment says. */
    ghost predicate ModulesAnswer(env: Env)
      requires registry.Valid()
      reads registry, registry.modules, registry.Modules()
    {
      forall key: CString :: env.slots(key) == Registry.SuccessSlots(registry.Modules(), key)
    }

    /** `create_response`; it is only called while no response is alive. */
    method Create() returns (response: Response)
      requires Valid() && live == {}
      modifies heap, `live
      ensures Valid() && fresh(response) && response.Valid(heap) && live == {response.self}
      ensures response.body == NULL && response.headers == Nil && heap.mem - response.Repr() == old(heap.mem)
    {
      hide CStr, Lines, Readable, Response.Repr;
      ghost var m := heap.mem;
      response := new Response(heap);
      live := {response.self};
      Rest(m, heap.mem, response.Repr());
    }

    /** `free_response`. */
    method Release(response: Response)
      requires response.Valid(heap) && live == {response.self}
      modifies heap, `live
      ensures heap.Valid() && live == {} && heap.mem == old(heap.mem) - response.Repr()
    {
      hide CStr, Lines, Readable, Response.Repr;
      response.Free(heap);
      live := {};
    }

    /** The first part of `request_key`: the POST and its answer. */
    method PostRequest(args: Cli.Arguments, ghost env: Env) returns (accepted: bool, id: int)
      requires Valid() && live == {} && ArgsReady(args) && Describes(env, requests, args) && ErrorPtrIs(env.stale)
      requires AfterPost(env) != Done(Undefined)
      modifies heap, signer.hexDigest, journal, `requests, `errorPtr, `live
      ensures Valid() && live == {} && heap.mem == old(heap.mem) && requests == old(requests) + 1
      ensures ErrorPtrIs(StaleAfterPost(env))
      ensures journal.log == old(journal.log) + [Request(env, 0, POST, 0)]
      ensures AfterPost(env) == if accepted then AtPoll(id, 0) else Done(Returned(UL_ERR))
    {
      hide CStr, Lines, Readable, ContentType.Defined, HeaderLines, KeyRequestBody, KeyRequestUrl, BodyText, Contents;
      hide IsString, HeadersOf, DateHeader.DateText, DateHeader.Gmtime, IdFits, IdFrom;
      ghost var m := heap.mem;
      var response := SendPost(args);
      NoBodyAt(response);
      accepted, id := ReadPost(response, m);
    }

    method SendPost(args: Cli.Arguments) returns (response: Response)
      requires Valid() && live == {} && ArgsReady(args)
      modifies heap, signer.hexDigest, journal, `requests, `live
      ensures Valid() && fresh(response) && response.Valid(heap) && requests == old(requests) + 1
      ensures live == {response.self} && heap.mem - response.Repr() == old(heap.mem)
      ensures var m, reply := old(heap.mem), server(old(requests));
              && response.status == reply.status
              && Contents(heap.mem, response.body) == BodyText(reply.calls)
              && response.Headers(heap) == HeadersOf(reply.calls)
              && journal.log == old(journal.log) +
                   [PostEvent(old(requests), StringAt(m, args.host), StringAt(m, args.keyHandle),
                              StringAt(m, args.username), StringAt(m, args.secret))]
    {
      hide CStr, Lines, Readable, HeaderLines, KeyRequestBody, KeyRequestUrl, BodyText, Contents, HeadersOf;
      hide Response.Valid, Response.Repr, DateHeader.DateText, DateHeader.Gmtime;
      ghost var m := heap.mem;
      response := Create();
      ghost var m0, r := heap.mem, response.Repr();
      Rest(m, m0, r);
      AskPost(args, response);
      assert m0 - r == m;
    }

    /** The strings of the request, the transfer, and the release of the strings. */
    method AskPost(args: Cli.Arguments, response: Response)
      requires Valid() && ArgsReady(args)
      requires response.Valid(heap) && response.body == NULL && response.headers == Nil && live == {response.self}
      modifies heap, signer.hexDigest, journal, `requests, response
      ensures Valid() && response.Valid(heap) && requests == old(requests) + 1
      ensures heap.mem - response.Repr() == old(heap.mem - response.Repr())
      ensures var m, reply := old(heap.mem), server(old(requests));
              && response.status == reply.status
              && Contents(heap.mem, response.body) == BodyText(reply.calls)
              && response.Headers(heap) == HeadersOf(reply.calls)
              && journal.log == old(journal.log) +
                   [PostEvent(old(requests), StringAt(m, args.host), StringAt(m, args.keyHandle),
                              StringAt(m, args.username), StringAt(m, args.secret))]
    {
      hide CStr, Lines, Readable, HeaderLines, KeyRequestBody, KeyRequestUrl, BodyText, Contents, HeadersOf;
      hide Response.Valid, Response.Repr, DateHeader.DateText, DateHeader.Gmtime, OneAlive, PostEvent, SentEvent;
      ghost var m, r := heap.mem, response.Repr();
      response.ReprLive(heap);
      var body := GetKeyRequestBody(heap, args.keyHandle);
      var url := GetKeyRequestUrl(heap, args.host);
      response.Kept(heap);
      ghost var m1 := heap.mem;
      StillAlive(response);
      PostEventIs(m, m1, requests, url, body, args);
      Exchange(POST, url, body, args.username, args.secret, response);
      ghost var m2, r2 := heap.mem, response.Repr();
      Stays(m1, r, m2, r2, body);
      Stays(m1, r, m2, r2, url);
      FreeBeside(response, body);
      FreeBeside(response, url);
      PostRest(m - r, m, r, m1, m2, r2, body, url, m1[body], m1[url]);
      Stays(m, r, heap.mem, r2, fulfilled);
      StillAlive(response);
    }

    lemma PostEventIs(m: Mem, m1: Mem, n: nat, url: Ptr, body: Ptr, args: Cli.Arguments)
      requires IsString(m, args.host) && IsString(m, args.keyHandle)
      requires IsString(m, args.username) && IsString(m, args.secret) && IsString(m1, url) && IsString(m1, body)
      requires IsString(m1, args.username) && StringAt(m1, args.username) == StringAt(m, args.username)
      requires IsString(m1, args.secret) && StringAt(m1, args.secret) == StringAt(m, args.secret)
      requires StringAt(m1, url) == KeyRequestUrl(StringAt(m, args.host)) && body != NULL
      requires StringAt(m1, body) == KeyRequestBody(StringAt(m, args.keyHandle))
      ensures SentEvent(m1, n, POST, url, body, args.username, args.secret)
           == PostEvent(n, StringAt(m, args.host), StringAt(m, args.keyHandle), StringAt(m, args.username),
                        StringAt(m, args.secret))
    {
    }

    ghost function PostEvent(n: nat, host: CString, handle: CString, user: CString, secret: CString): Event {
      var date := DateHeader.DateText(DateHeader.Gmtime(clock(n)));
      Sent(POST, KeyRequestUrl(host), Some(KeyRequestBody(handle)),
           HeaderLines(date, signer.hmac, user, secret, POST, KeyRequestBody(handle)))
    }

    /**
     Lines 70 to 92: the status decides whether the body is read; the response is released in any case. `m` is the heap
     without the response.
     */
    method ReadPost(response: Response, ghost m: Mem) returns (accepted: bool, id: int)
      requires response.Valid(heap) && heap.reliable && live == {response.self} && heap.mem - response.Repr() == m
      requires errorPtr !in m
      requires response.status == 201 ==>
                 && ContentType.Defined(heap.platform, response.Headers(heap))
                 && IdFits(json, Contents(heap.mem, response.body))
                 && (response.body == NULL ==> errorPtr == NULL)
      modifies heap, `errorPtr, `live
      ensures heap.Valid() && live == {} && heap.mem == m && errorPtr !in m
      ensures accepted <==> response.status == 201
      ensures accepted ==> id == IdFrom(json, old(Contents(heap.mem, response.body)))
      ensures errorPtr != NULL <==>
                if accepted then StaleAfter(json, old(errorPtr) != NULL, old(Contents(heap.mem, response.body)))
                else old(errorPtr) != NULL
    {
      hide CStr, ContentType.Defined, IdFits, IdFrom, Lines, Readable;
      id := 0;
      accepted := response.status == 201;
      if accepted {
        ValidateContentType(response);
        id := GetRequestId(response);
        NoBodyAt(response);
        ErrorPtrGone(heap.mem, response.body, response.Repr(), m, old(errorPtr));
      }
      Release(response);
    }

    /** After parsing, the error position is NULL, as before, or a body that is about to be released. */
    lemma ErrorPtrGone(m1: Mem, body: Ptr, r: set<Ptr>, m: Mem, before: Ptr)
      requires m1 - r == m && NULL !in m1 && (if body == NULL then before == NULL else body in m1 && body in r)
      requires errorPtr == ErrorPtrAfter(m1, before, body)
      ensures errorPtr !in m
      ensures errorPtr != NULL <==> StaleAfter(json, before != NULL, Contents(m1, body))
    {
    }

    lemma StillAlive(response: Response)
      requires response.Valid(heap) && live == {response.self}
      ensures OneAlive(live, heap.mem)
    {
    }

    lemma NoBodyAt(response: Response)
      requires response.Valid(heap)
      ensures response.body == NULL <==> Contents(heap.mem, response.body).None?
      ensures response.body != NULL ==> response.body in response.Repr() && response.body in heap.mem
      ensures NULL !in heap.mem
    {
    }

    lemma PostRest(m: Mem, m0: Mem, r: set<Ptr>, m1: Mem, m2: Mem, r2: set<Ptr>, body: Ptr, url: Ptr, s: string,
                   t: string)
      requires m0 - r == m && m2 - r2 == m1 - r && body !in r && url !in r
      requires body !in m0 && url !in m0 && m1 == m0[body := s][url := t]
      ensures m2 - {body} - {url} - r2 == m
    {
      assert m1 - {body} - {url} == m0;
      assert m2 - {body} - {url} - r2 == (m2 - r2) - {body} - {url};
      assert (m1 - r) - {body} - {url} == (m1 - {body} - {url}) - r;
    }

    /** A string that the response does not own is released. */
    method FreeBeside(response: Response, p: Ptr)
      requires response.Valid(heap) && p !in response.Repr() && (p == NULL || heap.Owned(p))
      modifies heap
      ensures response.Valid(heap) && heap.mem == old(heap.mem) - {p} && heap.next == old(heap.next)
      ensures Contents(heap.mem, response.body) == old(Contents(heap.mem, response.body))
      ensures response.Headers(heap) == old(response.Headers(heap))
    {
      hide CStr, Lines, Readable;
      response.ReprLive(heap);
      heap.Free(p);
      response.Kept(heap);
    }

    /** The strings behind the request structure after the POST: no body, and the user's data. */
    method SendOne(verb: Verb, url: Ptr, body: Ptr, args: Cli.Arguments) returns (response: Response)
      requires Valid() && live == {} && Ready(url, body, args.username, args.secret)
      modifies heap, signer.hexDigest, journal, `requests, `live
      ensures Valid() && fresh(response) && response.Valid(heap) && requests == old(requests) + 1
      ensures live == {response.self} && heap.mem - response.Repr() == old(heap.mem)
      ensures var reply := server(old(requests)); Contents(heap.mem, response.body) == BodyText(reply.calls)
      ensures journal.log == old(journal.log) +
                [SentEvent(old(heap.mem), old(requests), verb, url, body, args.username, args.secret)]
    {
      hide CStr, Lines, Readable, HeaderLines, BodyText, Contents, HeadersOf;
      hide Response.Valid, DateHeader.DateText, DateHeader.Gmtime;
      ghost var m := heap.mem;
      response := Create();
      Rest(m, heap.mem, response.Repr());
      Exchange(verb, url, body, args.username, args.secret, response);
    }

    /** One round of the polling loop: a new response, a GET, its state, and the release of the response. */
    method PollOnce(url: Ptr, args: Cli.Arguments) returns (state: Ptr)
      requires Valid() && live == {} && Ready(url, NULL, args.username, args.secret)
      requires !ReadsStale(errorPtr != NULL, BodyText(server(requests).calls))
      modifies heap, signer.hexDigest, journal, `requests, `errorPtr, `live
      ensures Valid() && live == {} && requests == old(requests) + 1
      ensures ErrorPtrIs(StaleAfter(json, old(errorPtr) != NULL, BodyText(server(old(requests)).calls)))
      ensures journal.log == old(journal.log) +
                [SentEvent(old(heap.mem), old(requests), GET, url, NULL, args.username, args.secret)]
      ensures StateIs(old(heap.mem), state, StateFrom(json, BodyText(server(old(requests)).calls)))
    {
      hide CStr, Lines, Readable, HeaderLines, BodyText, Contents, SentEvent, Blocks, Distinct;
      ghost var m := heap.mem;
      var response := SendOne(GET, url, NULL, args);
      NoBodyAt(response);
      state := ReadPoll(response, m);
    }

    /** The state is copied, and the response released. `m` is the heap without the response. */
    method ReadPoll(response: Response, ghost m: Mem) returns (state: Ptr)
      requires Valid() && response.Valid(heap) && live == {response.self} && heap.mem - response.Repr() == m
      requires fulfilled in m && (response.body == NULL ==> errorPtr == NULL)
      modifies heap, `errorPtr, `live
      ensures Valid() && live == {}
      ensures ErrorPtrIs(StaleAfter(json, old(errorPtr) != NULL, old(Contents(heap.mem, response.body))))
      ensures StateIs(m, state, StateFrom(json, old(Contents(heap.mem, response.body))))
    {
      hide CStr, Lines, Readable, Contents, Blocks, Distinct, StateFrom;
      ghost var m1, r := heap.mem, response.Repr();
      response.ReprLive(heap);
      NoBodyAt(response);
      state := GetRequestState(response);
      ErrorPtrGone(m1, response.body, r, m, old(errorPtr));
      Release(response);
      if state != NULL {
        ghost var s := heap.mem[state];
        assert heap.mem == m1[state := s] - r;
        assert heap.mem == (m1 - r)[state := s];
      }
    }

    /** What the loop variable `request_state` holds. */
    ghost predicate StateIs(m0: Mem, state: Ptr, found: Option<CString>)
      reads heap
    {
      if found.None? then state == NULL && heap.mem == m0
      else state !in heap.statics && Holds(heap.mem, state, found.value, m0)
    }

    /** The part of `request_key` from the URL to its release. `k` is the first answer that is not PENDING. */
    method Poll(args: Cli.Arguments, id: int, ghost env: Env, ghost base: nat, ghost k: nat) returns (state: Ptr)
      requires Valid() && live == {} && ArgsReady(args) && Describes(env, base, args) && requests == base + 1
      requires FirstSettled(env, k) && id == Id(env)
      requires (errorPtr != NULL) == StaleBefore(env, 0) && !ReadsStale(StaleAt(env, 0), PollBody(env, 0))
      modifies heap, signer.hexDigest, journal, `requests, `errorPtr, `live
      ensures Valid() && live == {} && requests == base + k + 2 && ErrorPtrIs(StaleBefore(env, k + 1))
      ensures journal.log == old(journal.log) + PollLog(env, k + 1)
      ensures StateIs(old(heap.mem), state, StateAt(env, k))
    {
      hide CStr, Request, StateAt, StaleAt, StaleBefore, PollBody, ReadsStale, FirstSettled, PollLog, OneAlive;
      ghost var m := heap.mem;
      var url := GetShowRequestUrl(heap, args.host, id);
      OneAliveExact(url, heap.mem);
      ghost var m1 := heap.mem;
      state := PollLoop(url, args, env, base, k, m1);
      heap.Free(url);
      OneAliveExact(url, heap.mem);
      StateMoved(m, m1, url, state, StateAt(env, k));
    }

    /** The polling loop: it reads the first answer that is not PENDING and stops there, after `k` pauses. */
    method PollLoop(url: Ptr, args: Cli.Arguments, ghost env: Env, ghost base: nat, ghost k: nat, ghost m1: Mem)
      returns (state: Ptr)
      requires Valid() && live == {} && ArgsReady(args) && Describes(env, base, args) && requests == base + 1
      requires FirstSettled(env, k) && heap.mem == m1
      requires IsString(m1, url) && StringAt(m1, url) == ShowRequestUrl(env.host, Id(env))
      requires (errorPtr != NULL) == StaleBefore(env, 0) && !ReadsStale(StaleAt(env, 0), PollBody(env, 0))
      modifies heap, signer.hexDigest, journal, `requests, `errorPtr, `live
      ensures Valid() && live == {} && requests == base + k + 2 && ErrorPtrIs(StaleBefore(env, k + 1))
      ensures journal.log == old(journal.log) + PollLog(env, k + 1)
      ensures StateIs(m1, state, StateAt(env, k))
    {
      hide CStr, Request, StateAt, StaleAt, StaleBefore, PollBody, ReadsStale, PollLog, OneAlive, Client.World;
      ghost var polls := 0;
      NoPolls(env, journal.log);
      state := NULL;
      var polling := true;
      while polling
        invariant Valid() && live == {} && requests == base + 1 + polls && polls <= k + 1
        invariant polling <==> polls <= k
        invariant polls == 0 ==> state == NULL && heap.mem == m1
        invariant polls > 0 ==> StateIs(m1, state, StateAt(env, polls - 1)) && ErrorPtrIs(StaleBefore(env, polls))
        invariant (errorPtr != NULL) == StaleBefore(env, polls)
        invariant journal.log == old(journal.log) + PollLog(env, polls)
        decreases k + 1 - polls
      {
        assert polls > 0 ==> Pending(env, polls - 1);
        StaleNext(env, polls);
        ghost var said := if polls == 0 then None else StateAt(env, polls - 1);
        state, polling := Round(url, args, state, env, base, polls, m1, said);
        PollLogStep(env, polls, old(journal.log));
        polls := polls + 1;
      }
    }

    lemma NoPolls(env: Env, log: seq<Event>)
      ensures log + PollLog(env, 0) == log
    {
    }

    /** The error position before poll `polls`: after the POST, or after the poll before. */
    ghost predicate StaleBefore(env: Env, polls: nat) {
      if polls == 0 then StaleAfterPost(env)
      else StaleAfter(env.json, StaleAt(env, polls - 1), PollBody(env, polls - 1))
    }

    /** An answer that says PENDING has been parsed, so that the next poll starts without an error position. */
    lemma StaleNext(env: Env, polls: nat)
      requires polls > 0 ==> Pending(env, polls - 1)
      ensures StaleBefore(env, polls) == StaleAt(env, polls)
      ensures polls > 0 ==> !ReadsStale(StaleAt(env, polls), PollBody(env, polls))
    {
      hide BodyText, StaleAfterPost;
    }

    /** The body of the loop, and its condition. */
    method Round(url: Ptr, args: Cli.Arguments, before: Ptr, ghost env: Env, ghost base: nat, ghost polls: nat,
                 ghost m1: Mem, ghost said: Option<CString>) returns (state: Ptr, polling: bool)
      requires Valid() && live == {} && StateIs(m1, before, said) && (polls > 0 <==> before != NULL)
      requires ArgsReady(args) && Describes(env, base, args) && requests == base + 1 + polls
      requires url in m1 && IsString(heap.mem, url) && StringAt(heap.mem, url) == ShowRequestUrl(env.host, Id(env))
      requires args.username in m1 && args.secret in m1 && fulfilled in m1 && args.host in m1
      requires args.keyHandle in m1
      requires (errorPtr != NULL) == StaleAt(env, polls) && !ReadsStale(StaleAt(env, polls), PollBody(env, polls))
      modifies heap, signer.hexDigest, journal, `requests, `errorPtr, `live
      ensures Valid() && live == {} && requests == old(requests) + 1
      ensures ErrorPtrIs(StaleBefore(env, polls + 1))
      ensures journal.log == old(journal.log) + (if polls > 0 then [Slept] else [])
                             + [Request(env, polls + 1, GET, Id(env))]
      ensures StateIs(m1, state, StateAt(env, polls))
      ensures polling <==> Pending(env, polls)
    {
      hide CStr, SentEvent, Request, BodyText, StaleAt, StaleAfter, ReadsStale, StateFrom, OneAlive, PollBody;
      hide Client.World;
      Pause(before, m1, said);
      SameAnswer(env, base, args, polls + 1);
      assert PollBody(env, polls) == BodyText(server(base + 1 + polls).calls) by {
        BodyOfPoll(env, polls);
      }
      PollEvent(env, base, polls + 1, url, args);
      state := PollOnce(url, args);
      polling := false;
      if state != NULL {
        CStrOfString(StateAt(env, polls).value);
        var text := heap.Load(state);
        polling := text == "PENDING";
      }
    }

    /** The first lines of the loop body: a state that said PENDING is released, and the client waits. */
    method Pause(before: Ptr, ghost m1: Mem, ghost said: Option<CString>)
      requires Valid() && live == {} && StateIs(m1, before, said) && fulfilled in m1
      modifies heap, journal
      ensures Valid() && heap.mem == m1 && journal.log == old(journal.log) + if before == NULL then [] else [Slept]
    {
      hide CStr;
      if before != NULL {
        heap.Free(before);
        AddedAndRemoved(m1, before, said.value);
        journal.log := journal.log + [Slept];
      }
    }

    lemma SameAnswer(env: Env, base: nat, args: Cli.Arguments, n: nat)
      requires ArgsReady(args) && Describes(env, base, args)
      ensures env.server(n) == server(base + n) && env.json == json
    {
    }

    lemma BodyOfPoll(env: Env, polls: nat)
      ensures PollBody(env, polls) == BodyText(env.server(polls + 1).calls)
    {
    }

    lemma PollLogStep(env: Env, polls: nat, log: seq<Event>)
      ensures log + PollLog(env, polls) + (if polls > 0 then [Slept] else []) + [Request(env, polls + 1, GET, Id(env))]
           == log + PollLog(env, polls + 1)
    {
      hide Request;
    }

    lemma StateMoved(m: Mem, m1: Mem, url: Ptr, state: Ptr, found: Option<CString>)
      requires url !in m && m1.Keys == m.Keys + {url} && m1 - {url} == m
      requires if found.None? then heap.mem == m1 - {url} else Holds(heap.mem, state, found.value, m1 - {url})
      requires found.None? ==> state == NULL
      requires found.Some? ==> state !in heap.statics
      ensures StateIs(m, state, found)
    {
    }

    lemma PollEvent(env: Env, base: nat, n: nat, url: Ptr, args: Cli.Arguments)
      requires Valid() && ArgsReady(args) && Describes(env, base, args)
      requires IsString(heap.mem, url) && StringAt(heap.mem, url) == ShowRequestUrl(env.host, Id(env))
      ensures SentEvent(heap.mem, base + n, GET, url, NULL, args.username, args.secret) == Request(env, n, GET, Id(env))
    {
    }

    /**
     The PATCH and the copy of its body. The URL is built before the response here; neither depends on the other.
     */
    method Fetch(args: Cli.Arguments, id: int, ghost env: Env, ghost base: nat, ghost n: nat) returns (key: Ptr)
      requires Valid() && live == {} && ArgsReady(args) && Describes(env, base, args) && requests == base + n
      requires id == Id(env) && HasKey(env.server(n).calls)
      modifies heap, signer.hexDigest, journal, `requests, `live
      ensures Valid() && live == {}
      ensures journal.log == old(journal.log) + [Request(env, n, PATCH, id)]
      ensures key !in heap.statics && Holds(heap.mem, key, BodyText(env.server(n).calls).value, old(heap.mem))
    {
      hide CStr, Request, BodyText, Contents, KeyOf, Client.World, Response.Repr;
      ghost var m := heap.mem;
      var response := AskPatch(args, id, env, base, n);
      ghost var m2, r := heap.mem, response.Repr();
      HasBody(response, env.server(n).calls);
      response.ReprLive(heap);
      label Freed:
      key := heap.Strdup(StringAt(heap.mem, response.body));
      response.Kept@Freed(heap);
      Release(response);
      KeyRest(m, m2, r, key, heap.mem[key], heap.mem);
    }

    /** The PATCH alone. */
    method AskPatch(args: Cli.Arguments, id: int, ghost env: Env, ghost base: nat, ghost n: nat)
      returns (response: Response)
      requires Valid() && live == {} && ArgsReady(args) && Describes(env, base, args) && requests == base + n
      requires id == Id(env)
      modifies heap, signer.hexDigest, journal, `requests, `live
      ensures Valid() && fresh(response) && response.Valid(heap) && live == {response.self}
      ensures heap.mem - response.Repr() == old(heap.mem)
      ensures Contents(heap.mem, response.body) == BodyText(env.server(n).calls)
      ensures journal.log == old(journal.log) + [Request(env, n, PATCH, id)]
    {
      hide CStr, SentEvent, Request, BodyText, Contents, Response.Repr, Response.Valid, ShowRequestUrl, OneAlive;
      hide Client.World;
      ghost var m := heap.mem;
      SameAnswer(env, base, args, n);
      var url := GetShowRequestUrl(heap, args.host, id);
      ghost var m1 := heap.mem;
      PatchEvent(env, base, n, url, args);
      OneAliveExact(url, heap.mem);
      response := SendOne(PATCH, url, fulfilled, args);
      ghost var m2, r := heap.mem, response.Repr();
      Stays(m1, {}, m2, r, url);
      FreeBeside(response, url);
      UrlRest(m, url, m1[url], m2, r);
      Rest(m, heap.mem, r);
      StillAlive(response);
    }

    lemma UrlRest(m: Mem, url: Ptr, s: string, m2: Mem, r: set<Ptr>)
      requires url !in m && m2 - r == m[url := s]
      ensures m2 - {url} - r == m
    {
      assert m[url := s] - {url} == m;
      assert (m2 - {url}) - r == (m2 - r) - {url};
    }

    lemma HasBody(response: Response, calls: seq<Callback>)
      requires response.Valid(heap) && Contents(heap.mem, response.body) == BodyText(calls) && HasKey(calls)
      ensures response.body != NULL && response.body in heap.mem
      ensures StringAt(heap.mem, response.body) == BodyText(calls).value
    {
    }

    lemma KeyRest(m: Mem, m2: Mem, r: set<Ptr>, key: Ptr, t: string, m': Mem)
      requires m2 - r == m && key !in m2 && m' == m2[key := t] - r && r <= m2.Keys
      ensures m' == m[key := t] && key !in m
    {
      assert m2[key := t] - r == (m2 - r)[key := t];
    }

    lemma PatchEvent(env: Env, base: nat, n: nat, url: Ptr, args: Cli.Arguments)
      requires Valid() && ArgsReady(args) && Describes(env, base, args)
      requires IsString(heap.mem, url) && StringAt(heap.mem, url) == ShowRequestUrl(env.host, Id(env))
      ensures SentEvent(heap.mem, base + n, PATCH, url, fulfilled, args.username, args.secret)
           == Request(env, n, PATCH, Id(env))
    {
    }

    /** The last character of the copy is overwritten, the modules get the key, the copy is released. */
    method Deliver(key: Ptr, ghost m: Mem, ghost text: CString) returns (err: Err)
      requires Valid() && live == {} && key !in heap.statics && text != "" && Holds(heap.mem, key, text, m)
      modifies heap, journal
      ensures Valid() && heap.mem == m
      ensures var slots := Registry.SuccessSlots(registry.Modules(), WithoutLast(text));
              && err == Dispatching.Result(slots)
              && journal.log == old(journal.log) + Dispatching.Calls(slots, Success(WithoutLast(text)))
    {
      hide CStr, Dispatching.Result, Dispatching.Calls, OneAlive, Registry.KeyTaken, Registry.SuccessSlots;
      AddedAndRemoved(m, key, text);
      DropLast(heap, key, text);
      var cut := heap.Load(key);
      err := registry.HandleSuccess(cut);
      heap.Free(key);
      OneAliveExact(key, heap.mem);
      assert heap.mem == m && m[fulfilled] == old(heap.mem)[fulfilled];
    }

    /**
     `request_key`: for every server that lets the run return, the events and the result are those of the protocol, and
     the heap is as it was: every block allocated on the way has been freed, once, and none was used after that, not
     even by the log through the error position of cJSON, whose state is the protocol's. No response is created while
     another one is alive.
     */
    method RequestKey(args: Cli.Arguments, ghost env: Env) returns (err: Err)
      requires Valid() && live == {} && ArgsReady(args) && Describes(env, requests, args) && ErrorPtrIs(env.stale)
      requires ModulesAnswer(env) && Returns(env)
      modifies heap, signer.hexDigest, journal, `requests, `errorPtr, `live
      ensures Valid() && live == {} && heap.mem == old(heap.mem)
      ensures exists n: nat :: Run(env, n).pc == Done(Returned(err))
                               && journal.log == old(journal.log) + Run(env, n).log
                               && ErrorPtrIs(Run(env, n).stale)
      ensures RequestsRead(old(journal.log), journal.log, old(heap.mem), old(requests), args, Id(env))
      ensures ModulesServed(old(journal.log), journal.log, err)
    {
      hide Run, Client.RequestsRead, Client.ModulesServed, Client.World;
      ghost var base, log, n := requests, journal.log, 0;
      err, n := FollowRun(args, env);
      RunIsRead(env, base, args, log, n);
      RunIsServed(env, log, n, err);
    }

    /** All of `request_key`; the run of the machine that it follows ends after `n` steps. */
    method FollowRun(args: Cli.Arguments, ghost env: Env) returns (err: Err, ghost n: nat)
      requires Valid() && live == {} && ArgsReady(args) && Describes(env, requests, args) && ErrorPtrIs(env.stale)
      requires ModulesAnswer(env) && Returns(env)
      modifies heap, signer.hexDigest, journal, `requests, `errorPtr, `live
      ensures Valid() && live == {} && heap.mem == old(heap.mem)
      ensures Run(env, n).pc == Done(Returned(err)) && journal.log == old(journal.log) + Run(env, n).log
      ensures ErrorPtrIs(Run(env, n).stale)
    {
      hide Request, PollLog, Run, AfterPost, Verdict, Finale, Client.World, FirstSettled, StaleAfterPost, PollBody;
      ghost var base := requests;
      ReturnsMeans(env);
      FirstStep(env);
      var accepted, id := PostRequest(args, env);
      if !accepted {
        return UL_ERR, 1;
      }
      ghost var k: nat :| FirstSettled(env, k) && Verdict(env, k) != Undefined;
      AcceptedId(env, id);
      RunSettles(env, k);
      n := k + 3;
      err := PollAndFinish(args, id, env, base, k);
    }

    /** The new requests as a server reads them, in terms of the arguments. */
    ghost predicate RequestsRead(before: seq<Event>, log: seq<Event>, m: Mem, base: nat, args: Cli.Arguments, id: int)
      requires IsString(m, args.host) && IsString(m, args.keyHandle)
      requires IsString(m, args.secret) && IsString(m, args.username)
      reads args
    {
      before <= log
      && forall e :: e in log[|before|..] && e.Sent? ==> exists n: nat :: n >= base && MadeAt(e, n, m, args, id)
    }

    /** Made at the `n`-th time of the clock, to the host, for the key, and as the user of the arguments. */
    ghost predicate MadeAt(e: Event, n: nat, m: Mem, args: Cli.Arguments, id: int)
      requires IsString(m, args.host) && IsString(m, args.keyHandle)
      requires IsString(m, args.secret) && IsString(m, args.username)
      reads args
    {
      e.Sent? && Reads(e, clock(n), StringAt(m, args.host), StringAt(m, args.keyHandle), StringAt(m, args.username),
                       StringAt(m, args.secret), signer.hmac, id)
    }

    /**
     Either no module was called, and the result is an error; or there was a key, and exactly the enabled modules that
     take keys got it, up to the first that failed, whose error is the result.
     */
    ghost predicate ModulesServed(before: seq<Event>, log: seq<Event>, err: Err)
      requires registry.Valid()
      reads registry, registry.modules, registry.Modules()
    {
      before <= log &&
      var calls := log[|before|..];
      || (err != UL_OK && forall e :: e in calls ==> !e.Called?)
      || exists key: CString :: Registry.KeyTaken(registry.Modules(), key, calls, err)
                                && forall e :: e in calls && e.Called? ==> e.call == Success(key)
    }

    lemma RunIsRead(env: Env, base: nat, args: Cli.Arguments, before: seq<Event>, n: nat)
      requires Valid() && ArgsReady(args) && Describes(env, base, args)
      ensures RequestsRead(before, before + Run(env, n).log, heap.mem, base, args, Id(env))
    {
      hide Run, Reads, RequestsOf;
      var log := before + Run(env, n).log;
      assert log[|before|..] == Run(env, n).log;
      forall e | e in Run(env, n).log && e.Sent?
        ensures exists k: nat :: k >= base && MadeAt(e, k, heap.mem, args, Id(env))
      {
        RunReads(env, n, e);
        var k: nat :| Reads(e, env.clock(k), env.host, env.handle, env.user, env.secret, env.hmac, Id(env));
        assert env.clock(k) == clock(base + k) && MadeAt(e, base + k, heap.mem, args, Id(env));
      }
    }

    lemma RunIsServed(env: Env, before: seq<Event>, n: nat, err: Err)
      requires Valid() && ModulesAnswer(env) && Run(env, n).pc == Done(Returned(err))
      ensures ModulesServed(before, before + Run(env, n).log, err)
    {
      hide Run, CalledOf, KeyOf, Handed, Registry.KeyTaken, KeyGiven, Registry.SuccessSlots;
      var log := Run(env, n).log;
      assert (before + log)[|before|..] == log;
      ModulesExact(env, n);
      if k: nat :| Handed(env, k) {
        var key := KeyGivenOf(env, n, k);
        TakenFromGiven(env, n, key);
      } else {
        forall e | e in log ensures !e.Called? {
          CalledExact(log, e);
        }
      }
    }

    lemma KeyGivenOf(env: Env, n: nat, k: nat) returns (key: CString)
      requires Run(env, n).pc.Done? && Handed(env, k)
      ensures KeyGiven(env, Run(env, n), key)
      ensures forall e :: e in Run(env, n).log && e.Called? ==> e.call == Success(key)
    {
      hide Run, CalledOf, KeyOf, KeyGiven;
      ModulesExact(env, n);
      key := KeyOf(PatchCalls(env, k));
      forall e | e in Run(env, n).log && e.Called? ensures e.call == Success(key) {
        OneKey(env, n, k, e);
      }
    }

    lemma TakenFromGiven(env: Env, n: nat, key: CString)
      requires Valid() && ModulesAnswer(env) && Run(env, n).pc.Done? && Run(env, n).pc.outcome.Returned?
      requires KeyGiven(env, Run(env, n), key)
      ensures Registry.KeyTaken(registry.Modules(), key, Run(env, n).log, Run(env, n).pc.outcome.err)
    {
      hide Run, CalledOf;
      var slots, c := env.slots(key), Run(env, n);
      forall s: nat ensures Called(s, Success(key)) in c.log <==> Dispatching.Asked(slots, s) {
        CalledExact(c.log, Called(s, Success(key)));
      }
      if c.pc.outcome.err != UL_OK {
        var s := Dispatching.FirstFailure(slots);
        assert Dispatching.Asked(slots, s) && Dispatching.Fails(slots[s]);
      }
    }

    /** Everything behind the POST, for polling that is settled by answer `k`. */
    method PollAndFinish(args: Cli.Arguments, id: int, ghost env: Env, ghost base: nat, ghost k: nat)
      returns (err: Err)
      requires Valid() && live == {} && ArgsReady(args) && Describes(env, base, args) && requests == base + 1
      requires ModulesAnswer(env) && id == Id(env) && FirstSettled(env, k) && Verdict(env, k) != Undefined
      requires ErrorPtrIs(StaleAfterPost(env))
      modifies heap, signer.hexDigest, journal, `requests, `errorPtr, `live
      ensures Valid() && live == {} && heap.mem == old(heap.mem) && Verdict(env, k) == Returned(err)
      ensures ErrorPtrIs(StaleBefore(env, k + 1))
      ensures journal.log == old(journal.log) + PollLog(env, k + 1) + Finale(env, k)
    {
      hide CStr, Request, BodyText, PollLog, Dispatching.Calls, Dispatching.Result, HasKey, KeyOf, StateAt;
      hide FirstSettled, PatchCalls, StaleAfterPost, PollBody, ReadsStale, StaleBefore, StaleAt, OneAlive;
      hide Client.World, Client.StateIs;
      ghost var m := heap.mem;
      FirstPollReadable(env, k);
      var state := Poll(args, id, env, base, k);
      StateNull(m, state, StateAt(env, k));
      if state == NULL {
        return UL_ERR;
      }
      var text := TakeState(state, m, StateAt(env, k).value);
      if text == "DENIED" {
        err := UL_DENIED;
      } else if text != "ACCEPTED" {
        err := UL_ERR;
      } else {
        err := Finish(args, id, env, base, k);
      }
    }

    lemma StateNull(m: Mem, state: Ptr, found: Option<CString>)
      requires StateIs(m, state, found)
      ensures state == NULL <==> found.None?
      ensures found.None? ==> heap.mem == m
    {
    }

    /** The state is read for the last time, and released. */
    method TakeState(state: Ptr, ghost m: Mem, ghost found: CString) returns (text: CString)
      requires Valid() && live == {} && StateIs(m, state, Some(found))
      modifies heap
      ensures Valid() && heap.mem == m && text == found && (old(errorPtr !in heap.mem) ==> errorPtr !in heap.mem)
    {
      hide CStr;
      CStrOfString(found);
      AddedAndRemoved(m, state, found);
      text := heap.Load(state);
      heap.Free(state);
    }

    /** In a run that returns, the first poll does not print an old error position. */
    lemma FirstPollReadable(env: Env, k: nat)
      requires FirstSettled(env, k) && Verdict(env, k) != Undefined
      ensures StaleBefore(env, 0) == StaleAfterPost(env) && !ReadsStale(StaleAt(env, 0), PollBody(env, 0))
    {
      hide BodyText, StaleAfterPost;
      if k > 0 {
        assert Pending(env, 0);
      }
    }

    /** The last part of `request_key`, once the request is accepted. */
    method Finish(args: Cli.Arguments, id: int, ghost env: Env, ghost base: nat, ghost k: nat) returns (err: Err)
      requires Valid() && live == {} && ArgsReady(args) && Describes(env, base, args) && requests == base + k + 2
      requires ModulesAnswer(env) && id == Id(env) && HasKey(PatchCalls(env, k))
      modifies heap, signer.hexDigest, journal, `requests, `live
      ensures Valid() && live == {} && heap.mem == old(heap.mem)
      ensures var slots, call := env.slots(KeyOf(PatchCalls(env, k))), Success(KeyOf(PatchCalls(env, k)));
              && err == Dispatching.Result(slots)
              && journal.log == old(journal.log) + [Request(env, k + 2, PATCH, id)] + Dispatching.Calls(slots, call)
    {
      hide CStr, Request, BodyText, Dispatching.Calls, Dispatching.Result, WithoutLast;
      ghost var m := heap.mem;
      var key := Fetch(args, id, env, base, k + 2);
      err := Deliver(key, m, BodyText(PatchCalls(env, k)).value);
    }

    lemma AcceptedId(env: Env, id: int)
      requires AfterPost(env) == AtPoll(id, 0)
      ensures PostAccepted(env) && id == Id(env)
    {
    }
  }

  /** `key[strlen(key) - 1] = '\0'`. */
  method DropLast(heap: Heap, p: Ptr, ghost text: CString)
    requires heap.Valid() && heap.Owned(p) && text != "" && heap.mem[p] == text + "\0"
    modifies heap
    ensures heap.Valid() && heap.mem - {p} == old(heap.mem) - {p}
    ensures heap.Owned(p) && IsString(heap.mem, p) && StringAt(heap.mem, p) == WithoutLast(text)
  {
    hide CStr;
    CStrOfString(text);
    var s := heap.Load(p);
    heap.Put(p, |s| - 1, '\0');
    ghost var rest := heap.mem[p][|s|..];
    assert heap.mem[p] == WithoutLast(text) + "\0" + rest;
    CStrOf(WithoutLast(text), rest);
    assert heap.mem[p][|s| - 1] == '\0';
  }

  lemma BodyIsText(response: Response, heap: Heap, calls: seq<Callback>)
    requires response.Valid(heap) && response.Payload(heap) == Flatten(ChunksOf(calls))
    requires response.body == NULL <==> ChunksOf(calls) == []
    ensures Contents(heap.mem, response.body) == BodyText(calls)
  {
    if response.body != NULL {
      var block := heap.mem[response.body];
      assert block == block[..response.bodyLen] + "\n\0";
    }
  }

  /** `curl_slist_append` of a string that is released afterwards. */
  method AppendAndFree(heap: Heap, headers: SList, p: Ptr) returns (headers': SList)
    requires heap.Valid() && heap.reliable && ListValid(heap, headers)
    requires heap.Owned(p) && IsString(heap.mem, p) && p !in Blocks(headers)
    modifies heap
    ensures heap.Valid() && ListValid(heap, headers')
    ensures Lines(heap.mem, headers') == Lines(old(heap.mem), headers) + [StringAt(old(heap.mem), p)]
    ensures heap.mem - Blocks(headers') == (old(heap.mem) - {p}) - Blocks(headers)
  {
    hide CStr, Lines, Readable, Distinct, Blocks;
    ghost var m := heap.mem;
    BlocksLive(m, headers);
    headers' := SlistAppend(heap, headers, StringAt(heap.mem, p));
    ghost var m1 := heap.mem;
    BlocksLive(m1, headers');
    heap.Free(p);
    LinesFrame(m1, heap.mem, headers');
    assert heap.mem - Blocks(headers') == (m1 - Blocks(headers')) - {p};
    assert (m - Blocks(headers)) - {p} == (m - {p}) - Blocks(headers);
  }
}
