# unlocked-client: a model and its proofs

unlocked-client fetches a key from a server that signs its requests with HMAC-SHA512, polls until the request is
accepted, and hands the key to output modules. This project models the client's own logic in Dafny and proves what it
promises. One file stands for one part of the client:

| file | part |
|---|---|
| Text.dfy, Memory.dfy, HeaderLists.dfy | C strings, the heap with `malloc`, `realloc`, `free`, `strcat`, `snprintf`, and `curl_slist` |
| Signing.dfy | header names, signed message, hex digest, Authorization header |
| SignatureDecoding.dfy | a server that reads them back and verifies a request |
| DateHeader.dfy | the Date header, `gmtime`, and a reader for the date |
| Responses.dfy, ContentType.dfy | the libcurl callbacks, the stored headers, the content type |
| Events.dfy, Dispatching.dfy, Registry.dfy | module callbacks, the module array, the child parsers of the command line |
| Cli.dfy | arguments, options, configuration file, merging and ownership |
| Requests.dfy | URLs and JSON bodies, and their readers |
| Json.dfy | what the client reads with cJSON, the conversion to `int`, and cJSON's error position |
| Protocol.dfy | `request_key` as a state machine against an arbitrary server |
| Client.dfy | `request_key` on the heap, proved to follow that machine |

The heap is a map from pointers to blocks. A pointer is never handed out twice, and every read, write and `free` needs a
live block, so a verified method has no use after free, no double free and no write out of bounds. A contract
`heap.mem == old(heap.mem)` says that nothing was leaked. `Heap.reliable` says whether every allocation succeeds. The
fields of `Response` and `Arguments` are fields of Dafny objects: their strings are blocks, and each structure has a
block of its own that is freed with it, but a read of a field is guarded by the object's `Valid`, not by the heap. The log
message about a body that is not JSON is a read of the heap too, because it goes through a pointer that cJSON keeps.

A character stands for a byte. What the C standard leaves to the implementation is a parameter (`Text.Platform`): whether
`char` is signed, and whether `malloc(0)` gives a block.

HMAC, cJSON's parser, iniparser, the clock, the file system and the server are parameters. The server is any infinite
sequence of replies; a reply is a status and any interleaving of header lines and body chunks. A transfer that fails is
a reply with what had arrived by then and the status libcurl reports, because `request_key` ignores the error code of a
transfer.

Main results:

* The buffers of `joinHeaderNames` and `authHeader` are filled exactly. The server's decoder recovers headers and body on
  exactly the recoverable header lists, reads the Authorization header on exactly the quote-free names, and accepts every
  request of every run, exactly if the user name has no quote.
* `request_key` follows the state machine for every server that lets the run return, returns the heap as it found it, and
  never has two responses alive. Every request can be read by a server that has its own tables, literals and calendar,
  and says what the arguments say. The machine's outcome, its events, its pauses and its termination are characterised by
  the first answer that is not PENDING, and `Protocol.ReturnsExact` says in terms of the answers when a run returns.
* The key that reaches the modules is the body of the PATCH, however it was chunked, exactly if it has no NUL, and in
  every run each module gets it at most once, in order, up to the first that fails.
* `merge_config` and `handle_args` give each field the value of the last layer that sets it, without sharing strings and
  without leaks except one block for every repeated text option; on error the loss is counted exactly.

Where the code does not do what its documentation says, the model follows the code and the exact condition is proved:

* `src/cli.h` (lines 80 to 86) puts the command line over the file. For the flags of the modules it is the other way
  round, because argp runs before the file is read: a module that the command line enables stays enabled if and only if
  the file does not switch it off (`Cli.HandleArgs`; `Cli.FlagOverridden` is an example).
* `get_content_type` compares a prefix, so a longer header name can be taken for Content-Type
  (`ContentType.PrefixLookupExact`; example `ContentType.LongerNameShadows`).
* The user name is put between the quotes of the Authorization header as it is, so a server can accept a request only if
  the name has no double quote (`SignatureDecoding.AcceptedExact`).
* The key handle is put into the JSON body as it is (`Requests.KeyBodyExact`; examples `Requests.HandleWithQuote`,
  `Requests.HandleNotUtf8`), and the host into the URL (`Requests.HostExact`; examples `Requests.HostWithSlash`,
  `Requests.HostWithUser`).
* The Date header has the form of RFC 7231 until the end of the year 9999 (`DateHeader.DateExact`; example
  `DateHeader.YearTenThousand`).
* Debug log apart, `request_key` has no defined behaviour for exactly these answers (`Protocol.UndefinedExact`): an
  accepted PATCH without a body or with a NUL in front (example `Protocol.AcceptedWithoutBody`); an id that is no `int`
  (`Protocol.HugeId`); a content-type line of the POST answer that has one character where a value and a line end should
  be, if `malloc(0)` gives a block (`ContentType.LineEndNeeded`); one whose value has a byte from 0x80 to 0xFE, if
  `char` is signed (`Protocol.AccentedContentType`); and a POST answer that is not JSON, followed by a poll without a
  body, because the log then prints from the released POST answer (`Protocol.StaleErrorPosition`).
* `register_child_parser` ends without returning a value on its main path; its caller ignores the result, and the model
  has none.

## Model

| member | source | states |
|---|---|---|
| Signing.JoinHeaderNames | src/https-client.c:520-569 | NULL for a header without colon, and otherwise only when memory runs out; else a new block that is exactly the lower-cased names joined by single spaces and a NUL, and nothing else changed; for names that `tolower` is defined for |
| Signing.MeasureNames | src/https-client.c:537-547 | the first pass computes the length of the joined names plus one, or finds a header without colon |
| Signing.FillNames | src/https-client.c:548-565 | the second pass writes inside the measured block and fills it to the last byte |
| Signing.LowerRawNames | src/https-client.c:553-566 | lower-casing the joined buffer at the end is joining lower-cased names |
| Signing.StrToLower | src/https-client.c:576-581 | the string is lower-cased in place, up to its NUL and no further; where `char` is signed, only for bytes that `tolower` is defined for |
| Text.ToLowerExact | src/https-client.c:576-581 | each of the 26 capital letters becomes its small letter, and every other character stays |
| Text.HighByteExact | src/https-client.c:576-581 | the bytes that are negative and not EOF as a signed `char` |
| Signing.MeasureData | src/https-client.c:408-415 | the size is the length of the signed message plus one |
| Signing.FillData | src/https-client.c:423-432 | the run of `strcat`s keeps a terminated prefix of the message in the block, and ends with the whole message filling it |
| Signing.Signer.HmacSha512 | src/https-client.c:498-510 | the static buffer holds 128 upper-case hexadecimal digits and a NUL |
| Signing.Signer.Sign | src/https-client.c:408-434 | the digest in the buffer is that of the message over these headers and this body; the message's memory is released |
| Signing.Signer.AuthHeader | src/https-client.c:392-460 | the Authorization header over the listed headers and the body (NULL as empty), in a new block of exactly its size; with failing allocations NULL and nothing lost |
| SignatureDecoding.DecodeExact | src/https-client.c:403-433 | name list and message give back headers and body if and only if no header has a newline, no name a space, and the list is not one nameless header |
| SignatureDecoding.TakeLinesExact | src/https-client.c:423-432 | the lines of the message are the headers if and only if no header has a newline |
| SignatureDecoding.SplitNamesCount | src/https-client.c:553-565 | the name list has as many fields as headers if and only if no name has a space |
| SignatureDecoding.FieldsOfNameList | src/https-client.c:553-566 | the fields of the name list are the lower-cased names in order |
| SignatureDecoding.SignedMaterialInjective | src/https-client.c:403-433 | two different requests never share name list and message |
| SignatureDecoding.NamelessHeaderCollides | src/https-client.c:403-433 | a nameless header can be mistaken for the start of a body |
| SignatureDecoding.CredentialsExact | src/https-client.c:395-396 | a reader that knows nothing of the format string but quoted parameters finds scheme `hmac` with user name, algorithm `sha512`, names and signature, in this order, if and only if user name and names have no double quote |
| SignatureDecoding.AuthorizationExact | src/https-client.c:395-396 | looking the parameters up by name gives user name, algorithm, name list and digest if and only if neither name holds a double quote |
| SignatureDecoding.UnHexOfHex | src/https-client.c:503-507 | hex decoding inverts the digest text |
| SignatureDecoding.SignedRequestAccepted | src/https-client.c:153-165 | a server with the secrets of many users, among them this one, accepts the request, whatever headers follow the signed ones |
| SignatureDecoding.AcceptedExact | src/https-client.c:395-396 | a server with the secret of this user, which takes no algorithm but SHA-512, accepts the request if and only if the user name has no double quote |
| DateHeader.Gmtime | src/https-client.c:88 | broken-down time with every field in range, so that the name tables are indexed in bounds |
| DateHeader.GmtimeInverse | src/https-client.c:88-93 | the POSIX formula over the fields gives the time back |
| DateHeader.CivilExact | src/https-client.c:88-93 | the calendar agrees with a day count that starts its years in March and has no table of months |
| DateHeader.PrintDateHeader | src/https-client.c:70-112 | a new block of exactly the date text and its NUL |
| DateHeader.DateExact | src/https-client.c:73-80 | the text has 35 characters and is read back as the same time, by a reader with its own names and calendar, if and only if the year has four digits |
| DateHeader.LongDateRoundTrip | src/https-client.c:73-80 | a reader that takes the year up to the next space gets every time back |
| DateHeader.DateInjective | src/https-client.c:70-112 | distinct times give distinct headers, in any year |
| DateHeader.YearTenThousand | src/https-client.c:73-93 | the first header that is no IMF-fixdate, and that the reader of section 7.1.1.1 of RFC 7231 rejects |
| Responses.Response.constructor | src/https-client.c:44-56 | an empty response in one new block |
| Responses.Response.Free | src/https-client.c:58-68 | exactly the blocks of the response are released |
| Responses.Response.WriteCallback | src/https-client.c:586-610 | the payload grows by the chunk; the body is payload, newline and NUL in a block of just that size; the rest of the heap is untouched |
| Responses.Response.HeaderCallback | src/https-client.c:465-486 | a line with a colon is stored up to its first NUL; other lines are not |
| Responses.Response.Receive | src/https-client.c:229-234 | after any interleaving of callbacks the payload is the concatenation of the chunks, and the list is the colon lines |
| Responses.ChunkingIrrelevant | src/https-client.c:586-610 | body and headers do not depend on how the byte stream was cut |
| Responses.BodyTextExact | src/https-client.c:603-606 | the body reads as payload and newline if and only if it has no NUL, and as empty if and only if it starts with one |
| Responses.KeyExact | src/client.c:144-151 | the copied body without its last character is the payload if and only if the payload has no NUL |
| Responses.HeadersExact | src/https-client.c:472-483 | the stored headers are the received colon lines, whole and in order, if and only if none has a NUL |
| ContentType.GetContentType | src/https-client.c:114-146 | NULL if no stored header starts with the name, or if not even a line end follows it in the first that does; else a new block with its cleaned, lower-cased rest |
| ContentType.SkipColons | src/https-client.c:125-128 | the pointer stops at the first character that is no colon and no space |
| ContentType.CrlfIsMeasured | src/https-client.c:129-130 | in a line that ends in CR LF the length never wraps around |
| ContentType.ContentTypeRoundTrip | src/https-client.c:122-140 | a header of the form name, colon, spaces, value and two more characters gives the lower-cased value, however the name is capitalised, and is defined if and only if `tolower` is for the value |
| ContentType.PrefixLookupExact | src/https-client.c:116-124 | the line used is the Content-Type field if and only if no line before it starts with the prefix |
| ContentType.DefinedExact | src/https-client.c:125-138 | the lookup is undefined if and only if the first line with the prefix has one character behind colons and spaces, and `malloc(0)` gives a block, or a byte from 0x80 to 0xFE in its value, and `char` is signed |
| ContentType.LineEndNeeded | src/https-client.c:129-135 | with no character left there is no content type; with one there is none or the copy is undefined |
| ContentType.AccentedValue | src/https-client.c:576-581 | a value with an accented letter |
| ContentType.LongerNameShadows | src/https-client.c:122-124 | a longer header name in front is used instead |
| Dispatching.DispatchExact | src/mod/module.c:70-93 | on success every module with the callback was called exactly once, in order; on failure exactly those up to the first that failed, whose error is the result |
| Dispatching.CallsUpToExact | src/mod/module.c:74-90 | after n rounds exactly the eligible modules among the first n have been called, in order |
| Registry.ModuleRegistry.RegisterModule | src/mod/module.c:127-140 | the module is the new last of the array and is offered to the child parsers |
| Registry.RegisterAll | src/main.c:75-76 | after any sequence of registrations the array is that sequence |
| Registry.ModuleRegistry.HandleSuccess | src/mod/module.c:70-93 | exactly the enabled modules with a success callback got the key, in order, up to the first that failed, whose error is the result |
| Registry.ModuleRegistry.HandleFailure | src/mod/module.c:46-68 | the same for the enabled modules with a failure callback |
| Registry.ModuleRegistry.InitializeModules | src/mod/module.c:95-109 | the same for all modules with an init callback, enabled or not |
| Registry.ModuleRegistry.ParseConfig | src/mod/module.c:111-125 | the same for the modules with a configuration callback; those that were reached, and no others, take the flag that they find in the file |
| Registry.ModuleRegistry.CleanupModules | src/mod/module.c:27-44 | the same for the modules with a cleanup callback; the registry is emptied only if all succeed |
| Registry.KeyTakenExact | src/mod/module.c:74-90 | the dispatch over the slots is that statement about the fields |
| Registry.ReachedExact | src/mod/module.c:115-122 | a module with a callback was reached if and only if it is among the rounds made |
| Registry.ChildParsers.RegisterChildParser | src/cli.c:329-360 | both arrays stay aligned with the modules that have a parser, the sentinel stays behind the last, and only the newest arrays are allocated |
| Registry.ChildParsers.Children | src/cli.c:347-355 | argp finds as many children before the sentinel as there are inputs |
| Registry.ChildParsers.KeyInit | src/cli.c:146-150 | each child parser is given the module that it belongs to |
| Registry.ChildCountExact | src/cli.c:352-355 | the count that argp makes ends at the sentinel |
| Registry.WithParserConcat | src/cli.c:329-335 | the selection of modules with a parser keeps the order of registration |
| Registry.WithParserExact | src/cli.c:333-335 | the selection has exactly the modules that bring a parser |
| Registry.ChildParsers.FreeChildParsers | src/cli.c:387-392 | both arrays are released and the pointers stay; a later registration is excluded if and only if there were any child parsers |
| Cli.MergeConfig | src/cli.c:209-250 | base takes the values that the layer sets, the layer is unchanged, they share no block, and the rest of the heap is untouched |
| Cli.MergeString | src/cli.c:211-216 | the old string is released and a copy of the new one is kept |
| Cli.MergeMonoid | src/cli.c:209-250 | merging is associative, and the empty structure is its identity |
| Cli.LastLayerWins | src/cli.h:80-86 | over any number of layers each field has the value of the last layer that sets it |
| Cli.NoLayerNoValue | src/cli.h:92-94 | a string is set if and only if some layer sets it |
| Cli.Arguments.Free | src/cli.c:362-385 | exactly the blocks of the structure are released |
| Cli.ParseOpts | src/cli.c:113-158 | later options replace earlier ones; one block is lost for each text option beyond the fields that end up set |
| Cli.OptionsExact | src/cli.c:117-141 | each option reaches its own field: the last text or port of a kind counts, and the two switches |
| Cli.LastTextExact | src/cli.c:117-137 | the last option of a kind is the one behind which there is no other |
| Cli.ReadFields | src/cli.c:270-317 | each entry of the file reaches its own field if the file has it; port and validation are written in any case |
| Cli.ParseConfigFile | src/cli.c:252-327 | the same, or an error when the file cannot be loaded or a module rejects it |
| Cli.MergeLayers | src/cli.c:198-201 | file over given values, command line over both; both structures are released |
| Cli.HandleArgs | src/cli.c:165-207 | each field has the value of the options, else of the entry of its name in the file, else the given one; every module flag is what the file says, else on if it was or was asked for; with the exact number of lost blocks; on error the arguments are as before |
| Cli.LayerArgs | src/cli.c:165-207 | the same as a merge of three layers |
| Cli.LayersExact | src/cli.h:80-94 | the merge of the three layers, field by field |
| Cli.FlagOverridden | src/mod/mod_stdout.c:93-107 | `--stdout` with a file that says `use_stdout = 0` ends with the module disabled |
| Requests.GetKeyRequestBody | src/client.c:166-184 | a new block of exactly the JSON body and its NUL |
| Requests.GetKeyRequestUrl | src/client.c:194-212 | a new block of exactly the URL and its NUL |
| Requests.GetShowRequestUrl | src/client.c:331-349 | a new block of exactly the URL and its NUL |
| Requests.KeyUrlRoundTrip | src/client.c:194-212 | the host is read back from the key-request URL |
| Requests.ShowUrlRoundTrip | src/client.c:333-337 | host and id, negative ids included, are read back from the URL, for every host |
| Text.DecimalStart | src/client.c:333 | `%d` prints no leading zeros |
| Requests.ShowUrlInjective | src/client.c:331-349 | different hosts or ids give different URLs |
| Requests.KeyUrlIsParent | src/client.c:194-212 | the show URL is the key-request URL followed by a slash and the id, and no key-request URL is a show URL, whatever the hosts |
| Requests.HostExact | src/client.c:194-212 | every URL names the configured host if and only if that text is a host by itself: no slash, question mark, number sign or at sign, and no colon outside a literal address |
| Requests.AuthorityExact | src/client.c:333-337 | the URL's authority is the configured text if and only if that has no slash, question mark or number sign |
| Requests.HostWithSlash | src/client.c:333-337 | `a/b` sends the request to `a` |
| Requests.HostWithUser | src/client.c:333-337 | `a@b` sends the request to `b` |
| Requests.KeyBodyExact | src/client.c:170-177 | a JSON reader finds one member `key` with the text of the handle if and only if the handle is UTF-8 and has no quote, backslash or control character |
| Requests.MemberExact | src/client.c:170-177 | the same for any body of this form |
| Requests.HandleWithQuote | src/client.c:170-177 | a handle with a quote makes a body that is no JSON |
| Requests.HandleNotUtf8 | src/client.c:170-177 | so does a handle that is not UTF-8 |
| Requests.HandleWithAccent | src/client.c:170-177 | the same letter in UTF-8 is read as that letter |
| Json.FitsIntExact | src/client.c:257 | the conversion of the id is defined if and only if its integral part is an `int` |
| Json.TruncateExact | src/client.c:257 | the conversion of the id gives its integral part, and an integer unchanged |
| Json.IdExact | src/client.c:231-257 | the id is the integral part of the first member `id` if that is a number, and 0 without body, JSON, member or number |
| Json.StateExact | src/client.c:282-316 | the state is the first member `state` if that is a string, and missing without body, JSON, member or string |
| Protocol.RunPolls | src/client.c:100-112 | while every answer is PENDING the machine has sent the POST and that many GETs, paused in between, and goes on |
| Protocol.FirstSettledExact | src/client.c:112 | the first answer that is not PENDING |
| Protocol.RunSettles | src/client.c:65-155 | the complete event log and the outcome of a run, in closed form, given the first answer that is not PENDING |
| Protocol.OutcomeExact | src/client.c:65-155 | a run ends in an outcome if and only if the POST's answer, or the first answer that is not PENDING, says so |
| Protocol.HaltsExact | src/client.c:100-112 | the run ends if and only if the POST is refused or some answer is not PENDING |
| Protocol.UndefinedExact | src/client.c:90-151 | the behaviour is undefined if and only if the POST is accepted and its content-type line is cut short or not ASCII (each on the platforms where that matters), its id is no `int`, the log reads an old error position after it or after the first poll, or the accepted key is missing or starts with a NUL |
| Protocol.PostAcceptedExact | src/client.c:70-92 | the run goes on if and only if the status is 201 and nothing of this kind happens |
| Protocol.AcceptedWithoutBody | src/client.c:141-151 | an accepted request whose PATCH answer has no body |
| Protocol.AccentedContentType | src/client.c:357-379 | a POST answer whose content type has an accented letter, where `char` is signed |
| Protocol.HugeId | src/client.c:257 | an id beyond the range of `int` |
| Protocol.StaleErrorPosition | src/client.c:282-288 | a POST answer that is not JSON and a poll without a body |
| Protocol.IdIsInt | src/client.c:331-337 | every id that reaches a URL is an `int` |
| Protocol.ReturnsExact | src/client.c:65-155 | the run returns if and only if the POST is refused, or none of those answers comes and some answer is not PENDING |
| Protocol.DeniedExact | src/client.c:122-126 | the result is UL_DENIED if and only if the first answer that is not PENDING says so, or a module returns it |
| Protocol.ErrExact | src/client.c:115-133 | the result is UL_ERR if and only if the POST is refused, the first answer that is not PENDING has another state or none, or a module returns it |
| Protocol.OkExact | src/client.c:127-155 | the result is UL_OK if and only if the request was accepted, the key fetched, and every eligible module took it |
| Protocol.ModulesExact | src/mod/module.c:70-93 | in the log of every run that ends: if a key was fetched, each eligible module that no failure precedes was called exactly once, in order, with that key, no other was, and the first failure is the result; if not, none was called and the result is not UL_OK |
| Protocol.OrderKept | src/client.c:65-155 | in every run, finished or not, the events are a POST, GETs with one pause between any two, at most one PATCH, then deliveries |
| Protocol.PausesExact | src/client.c:100-112 | a settled run pauses exactly once for each PENDING answer |
| Protocol.PatchOnlyIfAccepted | src/client.c:115-141 | a PATCH or a delivery happens only if the POST was accepted and the first answer that is not PENDING is ACCEPTED |
| Protocol.RunNumbered | src/client.c:65-142 | the m-th request of a run reads the m-th time of the clock, and the state knows how many were made |
| Protocol.RunUniform | src/client.c:49-69 | every request of every run, finished or not, is the protocol's: URL and body follow from its verb, GETs sign no body, all GETs and the PATCH use one URL, the first header is the date of that request and the second its signature |
| Protocol.RunReads | src/client.c:49-142 | every request of every run as a server reads it: the time, the user, the algorithm and the signed bytes; the accepted and the sent type; a POST to the collection that names the key, a GET without body and a PATCH that sets the state to FULFILLED, both to the host and id |
| Protocol.PollsAskForId | src/client.c:91-137 | the number under `id` in the POST's answer is the id that every poll and the PATCH ask for |
| Protocol.FulfilledReads | src/client.c:136 | the body of the PATCH is one member `state` with the text FULFILLED |
| Protocol.OnlyDateSigned | src/https-client.c:203-214 | in every request of every run the digest is over the date line and the body, and the Authorization header says so to a reader if and only if the user name has no double quote |
| Protocol.EveryRequestAccepted | src/https-client.c:203-214 | a server that knows the secret accepts the signature of every request in the log of every run, if and only if the user name has no double quote |
| Protocol.KeyDelivered | src/client.c:141-152 | every delivery carries the same key, which is the PATCH's payload if that has no NUL |
| Client.Client.AddDateHeader | src/https-client.c:167-177 | the list gains the date line and the temporary string is released |
| Client.Client.AddAuthHeader | src/https-client.c:153-165 | the list gains the signature over what it held, and the temporary string is released |
| Client.Client.BuildHeaders | src/https-client.c:323-342 | date, signature, then the plain headers of the verb, in new memory |
| Client.Client.Exchange | src/https-client.c:313-376 | one request with these headers, one reply received into the response, and the request's headers released |
| Client.Client.GetRequestId | src/client.c:222-261 | the integral part of the first member `id` of the parsed body, if it is a number; else 0; the log prints only from live memory |
| Client.Client.GetRequestState | src/client.c:272-320 | a copy of the first member `state` of the parsed body, if it is a string; else NULL; the log prints only from live memory |
| Client.Client.ValidateContentType | src/client.c:357-379 | nothing is changed and nothing is lost |
| Client.Client.PostRequest | src/client.c:40-92 | the machine's first step, on the heap, with nothing left behind but cJSON's error position, which then points to released memory if it is set |
| Client.Client.Create | src/https-client.c:44-56 | a response is created only while none is alive |
| Client.Client.Release | src/https-client.c:58-68 | the one response that is alive is released |
| Client.Client.Poll | src/client.c:94-114 | the loop reads the first answer that is not PENDING and stops there; only the state is left behind |
| Client.Client.Fetch | src/client.c:135-145 | the PATCH, and a copy of its body |
| Client.Client.Deliver | src/client.c:151-153 | the modules get the copy without its last character, and the copy is released |
| Client.Client.RequestKey | src/client.c:37-156 | for every server that lets the run return: events and result are those of the machine; every request reads as made to the host, for the key, as the user and with the secret of the arguments; no disabled module is called, and the enabled ones get one key in order up to the first failure; the heap is as it was; no two responses are alive at once; and cJSON's error position ends as the machine says |

## Left out

- libcurl, TLS, OpenSSL, curl global initialisation and cleanup: a transfer is one reply of the server. Port and certificate validation are not part of the model.
- The internals of HMAC-SHA512, cJSON and iniparser: functions that are parameters. No cryptographic claim is made.
- Allocation failure outside `joinHeaderNames`, `authHeader` and `date_header`: some paths of the client lose memory then.
- Log output, except for the message that goes through cJSON's error position and the strings that error messages and warnings read. The messages of the debug log print a missing body with `%s` and the port, a `long`, with `%d`, which the C standard leaves undefined; `Protocol.UndefinedExact` does not count them.
- cJSON from release 1.7.13 on is assumed, where parsing without a body returns before the error position is reset. The vendored copy is not part of this model. The error position is the block that it points into, without its offset, and the trees that cJSON allocates and releases are not blocks.
- Widths of `size_t` and `long`: lengths are unbounded, except for the subtraction in `get_content_type`. `atol` is part of the port option. The `int` of the id is modelled.
- Platforms otherwise: `EOF` is -1, the locale is C, as the program never changes it, and `malloc` cannot serve the largest `size_t`.
- Times before 1970 and times whose year is no `int`: `DateHeader.Gmtime` takes a natural number, as `time` delivers, and always succeeds.
- The Output modules themselves (`src/mod/mod_stdout.c`, `src/mod/mod_sd_socket.c`) and `src/sockets.c`: a module is its callbacks as functions to their results. A callback cannot change the registry in the model.
- `validate_args` in `src/main.c`: its result, that no argument is missing, is the precondition `ArgsReady`.
- A node of `curl_slist` and its string are one block.
- The three request functions of `src/https-client.c` differ in their plain headers only, and are one method, `Client.Client.Exchange`.
- Client.Client.RequestKey: it is stated for servers that let the run return; `Protocol.ReturnsExact` says exactly which those are.
- Cli.HandleArgs: the dictionary that iniparser allocates is not a block of the model; the code loses it when a module rejects the file.
