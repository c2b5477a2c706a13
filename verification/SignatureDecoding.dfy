/**
 The receiving side of the signature: a server that reads `headers="..."`, the signed message and the Authorization
 header, and when it recovers exactly what the client signed.
 */
module SignatureDecoding {
  import opened Text
  import opened Signing

  // ----- The signed message -----

  function Fields(names: string): seq<string> {
    if names == "" then [] else Split(names, ' ')
  }

  /** The first `n` lines of the message, and what is left. */
  function TakeLines(n: nat, message: string): (r: Option<(seq<string>, string)>)
    ensures r.Some? ==> |r.value.0| == n
  {
    if n == 0 then Some(([], message))
    else
      var i := Find(message, '\n');
      if i == |message| then None
      else
        var (lines, body) :- TakeLines(n - 1, message[i + 1..]);
        Some(([message[..i]] + lines, body))
  }

  /** As many header lines as there are names; the rest is the body. */
  function Decode(names: string, message: string): Option<(seq<string>, string)> {
    TakeLines(|Fields(names)|, message)
  }

  /** The headers that a signature can carry without loss. */
  predicate Recoverable(hs: seq<string>) {
    && OneLiners(hs)
    && (forall i :: 0 <= i < |hs| ==> ' ' !in Name(hs[i]))
    && !(|hs| == 1 && Name(hs[0]) == "")
  }

  lemma FirstLine(h: string, rest: string)
    ensures '\n' !in h ==> Find(h + "\n" + rest, '\n') == |h|
    ensures '\n' in h ==> Find(h + "\n" + rest, '\n') < |h|
    ensures (h + "\n" + rest)[..|h|] == h && (h + "\n" + rest)[|h| + 1..] == rest
  {
    var message := h + "\n" + rest;
    assert message[|h|] == '\n' && message[..|h|] == h;
    if '\n' in h {
      var k :| 0 <= k < |h| && h[k] == '\n';
      assert message[k] == '\n';
    } else {
      FindUnique(message, '\n', |h|);
    }
  }

  lemma TakeOne(n: nat, h: string, rest: string)
    ensures var r := TakeLines(n + 1, h + "\n" + rest);
            var t := TakeLines(n, rest);
            && ('\n' in h && r.Some? ==> r.value.0[0] != h)
            && ('\n' !in h ==> (r.Some? <==> t.Some?))
            && ('\n' !in h && t.Some? ==> r.value == ([h] + t.value.0, t.value.1))
  {
    hide Find;
    FirstLine(h, rest);
  }

  predicate OneLiners(hs: seq<string>) {
    forall i :: 0 <= i < |hs| ==> '\n' !in hs[i]
  }

  lemma OneLinersCons(hs: seq<string>)
    requires hs != []
    ensures OneLiners(hs) <==> '\n' !in hs[0] && OneLiners(hs[1..])
  {
    assert forall i :: 0 < i < |hs| ==> hs[i] == hs[1..][i - 1];
  }

  /** `r` is what is taken from lines that start with `h`, `t` what is taken from the rest. */
  lemma ConsExact(hs: seq<string>, body: string, whole: bool, r: Option<(seq<string>, string)>,
                  t: Option<(seq<string>, string)>)
    requires hs != [] && (r.Some? ==> r.value.0 != [])
    requires !whole && r.Some? ==> r.value.0[0] != hs[0]
    requires whole ==> (r.Some? <==> t.Some?)
    requires whole && t.Some? ==> r.value == ([hs[0]] + t.value.0, t.value.1)
    ensures r == Some((hs, body)) <==> whole && t == Some((hs[1..], body))
  {
    assert hs == [hs[0]] + hs[1..];
    if whole && t.Some? {
      assert ([hs[0]] + t.value.0)[1..] == t.value.0;
    }
  }

  lemma MessageCons(hs: seq<string>, body: string)
    requires hs != []
    ensures Message(hs, body) == hs[0] + "\n" + Message(hs[1..], body)
  {
  }

  /** The lines come back exactly when none of them breaks in two. */
  lemma {:induction false} TakeLinesExact(hs: seq<string>, body: string)
    ensures TakeLines(|hs|, Message(hs, body)) == Some((hs, body)) <==> OneLiners(hs)
  {
    if hs != [] {
      MessageCons(hs, body);
      hide TakeLines, Message, OneLiners, Find;
      var rest := Message(hs[1..], body);
      TakeOne(|hs| - 1, hs[0], rest);
      TakeLinesExact(hs[1..], body);
      OneLinersCons(hs);
      ConsExact(hs, body, '\n' !in hs[0], TakeLines(|hs|, Message(hs, body)), TakeLines(|hs| - 1, rest));
    }
  }

  /** The number of fields is the number of headers exactly when no name brings spaces of its own. */
  lemma {:induction false} SplitNamesCount(hs: seq<string>)
    requires hs != []
    ensures |Split(NameList(hs), ' ')| >= |hs|
    ensures |Split(NameList(hs), ' ')| == |hs| <==> forall i :: 0 <= i < |hs| ==> ' ' !in Name(hs[i])
  {
    LowerKeeps(Name(hs[0]), ' ');
    if |hs| > 1 {
      SplitNamesCount(hs[1..]);
      SplitCount(Lower(Name(hs[0])), ' ', NameList(hs[1..]));
      assert forall i :: 0 < i < |hs| ==> hs[i] == hs[1..][i - 1];
    }
  }

  lemma NameListEmpty(hs: seq<string>)
    ensures NameList(hs) == "" <==> hs == [] || (|hs| == 1 && Name(hs[0]) == "")
  {
  }

  /** The decoder inverts the signer on exactly the recoverable headers, whatever the body. */
  lemma {:induction false} DecodeExact(hs: seq<string>, body: string)
    ensures Decode(NameList(hs), Message(hs, body)) == Some((hs, body)) <==> Recoverable(hs)
  {
    NameListEmpty(hs);
    TakeLinesExact(hs, body);
    if hs != [] {
      SplitNamesCount(hs);
    }
  }

  /** Two requests that differ in a covered header or in the body never share name list and message. */
  lemma {:induction false} SignedMaterialInjective(hs: seq<string>, body: string, hs': seq<string>, body': string)
    requires Recoverable(hs) && Recoverable(hs')
    requires NameList(hs) == NameList(hs') && Message(hs, body) == Message(hs', body')
    ensures hs == hs' && body == body'
  {
    DecodeExact(hs, body);
    DecodeExact(hs', body');
  }

  /** Without the condition they may: a nameless header reads as the start of the body. */
  lemma {:induction false} NamelessHeaderCollides()
    ensures var hs := [":x"];
            && AllNamed(hs) && !Recoverable(hs)
            && NameList(hs) == NameList([]) && Message(hs, "b") == Message([], ":x\nb")
  {
    assert Find(":x", ':') == 0;
    assert Message([":x"], "b") == ":x" + "\n" + Message([], "b");
  }

  // ----- The Authorization header -----

  datatype Parameter = Parameter(name: string, value: string)

  /** The scheme and its parameters in order (section 2.1 of RFC 7235, with quoted values). */
  datatype Credentials = Credentials(scheme: string, parameters: seq<Parameter>)

  /** `name="value"`, and what follows. */
  function ReadParameter(s: string): (r: Option<(Parameter, string)>)
    ensures r.Some? ==> |r.value.1| < |s| && '"' !in r.value.0.value
  {
    var i := Find(s, '=');
    if i + 1 >= |s| || s[i + 1] != '"' then None
    else
      var t := s[i + 2..];
      var j := Find(t, '"');
      if j == |t| then None else Some((Parameter(s[..i], t[..j]), t[j + 1..]))
  }

  /** Parameters with a comma and a space between them. */
  function ReadParameters(s: string): (r: Option<seq<Parameter>>)
    ensures r.Some? ==> r.value != [] && forall i :: 0 <= i < |r.value| ==> '"' !in r.value[i].value
    decreases |s|
  {
    var (first, rest) :- ReadParameter(s);
    if rest == "" then Some([first])
    else if |rest| < 2 || rest[0] != ',' || rest[1] != ' ' then None
    else
      var others :- ReadParameters(rest[2..]);
      Some([first] + others)
  }

  function ReadCredentials(text: string): Option<Credentials> {
    var colon := Find(text, ':');
    if colon + 2 > |text| || text[..colon] != "Authorization" || text[colon + 1] != ' ' then None
    else
      var rest := text[colon + 2..];
      var space := Find(rest, ' ');
      if space == |rest| then None
      else
        var parameters :- ReadParameters(rest[space + 1..]);
        Some(Credentials(rest[..space], parameters))
  }

  /** The first parameter of a name. */
  function Lookup(parameters: seq<Parameter>, name: string): Option<string> {
    if parameters == [] then None
    else if parameters[0].name == name then Some(parameters[0].value)
    else Lookup(parameters[1..], name)
  }

  datatype Authorization = Authorization(username: string, algorithm: string, names: string, digest: seq<Byte>)

  function ParseAuthorization(text: string): Option<Authorization> {
    var credentials :- ReadCredentials(text);
    if credentials.scheme != "hmac" then None
    else
      var username :- Lookup(credentials.parameters, "username");
      var algorithm :- Lookup(credentials.parameters, "algorithm");
      var names :- Lookup(credentials.parameters, "headers");
      var signature :- Lookup(credentials.parameters, "signature");
      var digest :- UnHex(signature);
      Some(Authorization(username, algorithm, names, digest))
  }

  function HexValue(c: char): Option<nat> {
    if '0' <= c <= '9' then Some(c as int - '0' as int)
    else if 'A' <= c <= 'F' then Some(c as int - 'A' as int + 10)
    else None
  }

  function UnHex(s: string): (r: Option<seq<Byte>>)
    decreases |s|
  {
    if s == "" then Some([])
    else if |s| == 1 then None
    else
      var high :- HexValue(s[0]);
      var low :- HexValue(s[1]);
      var rest :- UnHex(s[2..]);
      if high < 16 && low < 16 then Some([high * 16 + low] + rest) else None
  }

  lemma HexTail(d: seq<Byte>)
    requires d != []
    ensures Hex(d)[0] == HexDigit(d[0] / 16) && Hex(d)[1] == HexDigit(d[0] % 16)
    ensures Hex(d)[2..] == Hex(d[1..])
  {
    forall k | 0 <= k < 2 * |d| - 2 ensures HexChar(d, k + 2) == HexChar(d[1..], k) {
      assert (k + 2) / 2 == k / 2 + 1;
    }
    assert forall k :: 0 <= k < 2 * |d| - 2 ==> Hex(d)[2..][k] == HexChar(d, k + 2);
  }

  lemma {:induction false} UnHexOfHex(d: seq<Byte>)
    ensures UnHex(Hex(d)) == Some(d)
  {
    if d != [] {
      UnHexOfHex(d[1..]);
      HexTail(d);
      assert [d[0]] + d[1..] == d;
    }
  }

  lemma ParameterOf(name: string, value: string, rest: string)
    requires '=' !in name && '"' !in value && rest != "" && rest[0] == '"'
    ensures ReadParameter(name + "=\"" + (value + rest)) == Some((Parameter(name, value), rest[1..]))
  {
    var s, t := name + "=\"" + (value + rest), value + rest;
    assert s[..|name|] == name && s[|name|] == '=' && s[|name| + 1] == '"' && s[|name| + 2..] == t;
    FindUnique(s, '=', |name|);
    assert t[|value|] == '"' && t[..|value|] == value && t[|value| + 1..] == rest[1..];
    FindUnique(t, '"', |value|);
  }

  lemma OneParameter(name: string, value: string)
    requires '=' !in name && '"' !in value
    ensures ReadParameters(name + "=\"" + (value + "\"")) == Some([Parameter(name, value)])
  {
    hide ReadParameter;
    ParameterOf(name, value, "\"");
  }

  lemma NextParameter(name: string, value: string, others: string)
    requires '=' !in name && '"' !in value
    ensures var r := ReadParameters(name + "=\"" + (value + ("\", " + others)));
            var o := ReadParameters(others);
            && (r.Some? <==> o.Some?)
            && (r.Some? ==> r.value == [Parameter(name, value)] + o.value)
  {
    hide ReadParameter;
    var rest := "\", " + others;
    ParameterOf(name, value, rest);
    assert rest[1..][0] == ',' && rest[1..][1] == ' ' && rest[1..][2..] == others;
  }

  // The pieces of the format string.

  lemma PrefixPieces()
    ensures PREFIX == "Authorization" + ": " + "hmac" + " " + "username" + "=\""
  {
  }

  lemma AlgorithmPieces()
    ensures ALGORITHM == "\", " + "algorithm" + "=\"" + "sha512" + "\", " + "headers" + "=\""
  {
  }

  lemma SignaturePieces()
    ensures SIGNATURE == "\", " + "signature" + "=\""
  {
  }

  /** The parameters as they are printed. */
  function ParameterText(username: string, names: string, signature: string): string {
    "username" + "=\"" + (username + ("\", " + OtherParameters(names, signature)))
  }

  function OtherParameters(names: string, signature: string): string {
    "algorithm" + "=\"" + ("sha512" + ("\", " + ("headers" + "=\"" + (names + ("\", " + LastParameter(signature))))))
  }

  function LastParameter(signature: string): string {
    "signature" + "=\"" + (signature + "\"")
  }

  lemma TextInPieces(username: CString, names: CString, signature: CString)
    ensures AuthText(username, names, signature)
         == "Authorization" + ": " + "hmac" + " " + ParameterText(username, names, signature)
  {
    PrefixPieces();
    AlgorithmPieces();
    SignaturePieces();
    var head, open, close := "Authorization" + ": " + "hmac" + " ", "username" + "=\"", "\", ";
    var tail := names + (SIGNATURE + (signature + "\""));
    var algorithm := "algorithm" + "=\"" + "sha512" + "\", " + "headers" + "=\"";
    assert PREFIX == head + open && ALGORITHM == close + algorithm;
    assert SIGNATURE + (signature + "\"") == close + LastParameter(signature);
    assert algorithm + tail == OtherParameters(names, signature);
    assert ALGORITHM + tail == close + OtherParameters(names, signature);
    assert (head + open) + (username + (close + OtherParameters(names, signature)))
        == head + (open + (username + (close + OtherParameters(names, signature))));
  }

  lemma CredentialsOf(parameters: string)
    ensures var r := ReadCredentials("Authorization" + ": " + "hmac" + " " + parameters);
            var p := ReadParameters(parameters);
            r == if p.None? then None else Some(Credentials("hmac", p.value))
  {
    hide ReadParameters;
    var text := "Authorization" + ": " + "hmac" + " " + parameters;
    assert text[..13] == "Authorization" && text[13] == ':' && text[14] == ' ';
    FindUnique(text, ':', 13);
    var rest := "hmac" + " " + parameters;
    assert text[15..] == rest && rest[..4] == "hmac" && rest[4] == ' ' && rest[5..] == parameters;
    FindUnique(rest, ' ', 4);
  }

  /** A reader of the header finds these four parameters exactly when neither text brings a quote. */
  lemma {:induction false} CredentialsExact(username: CString, names: CString, digest: seq<Byte>)
    ensures ReadCredentials(AuthText(username, names, Hex(digest)))
            == Some(Credentials("hmac", [Parameter("username", username), Parameter("algorithm", "sha512"),
                                         Parameter("headers", names), Parameter("signature", Hex(digest))]))
            <==> '"' !in username && '"' !in names
  {
    hide ReadParameters, Hex, ParameterText;
    var parameters := ParameterText(username, names, Hex(digest));
    TextInPieces(username, names, Hex(digest));
    CredentialsOf(parameters);
    if '"' !in username && '"' !in names {
      FourParameters(username, names, digest);
    } else if ReadParameters(parameters).Some? {
      var read := ReadParameters(parameters).value;
      assert |read| == 4 ==> '"' !in read[0].value && '"' !in read[2].value;
    }
  }

  lemma FourParameters(username: string, names: string, digest: seq<Byte>)
    requires '"' !in username && '"' !in names
    ensures ReadParameters(ParameterText(username, names, Hex(digest)))
         == Some([Parameter("username", username), Parameter("algorithm", "sha512"), Parameter("headers", names),
                  Parameter("signature", Hex(digest))])
  {
    hide ReadParameters, Hex;
    HexHasNoQuote(digest);
    OneParameter("signature", Hex(digest));
    NextParameter("headers", names, LastParameter(Hex(digest)));
    NextParameter("algorithm", "sha512", "headers" + "=\"" + (names + ("\", " + LastParameter(Hex(digest)))));
    NextParameter("username", username, OtherParameters(names, Hex(digest)));
    var a, b, c, d := Parameter("username", username), Parameter("algorithm", "sha512"), Parameter("headers", names),
        Parameter("signature", Hex(digest));
    assert [a] + ([b] + ([c] + [d])) == [a, b, c, d];
  }

  /** The header is read back as it was meant exactly when neither the user name nor a header name has a quote. */
  lemma {:induction false} AuthorizationExact(username: CString, names: CString, digest: seq<Byte>)
    ensures ParseAuthorization(AuthText(username, names, Hex(digest)))
            == Some(Authorization(username, "sha512", names, digest))
            <==> '"' !in username && '"' !in names
  {
    hide ReadCredentials, UnHex, Hex, Lookup;
    var text := AuthText(username, names, Hex(digest));
    CredentialsExact(username, names, digest);
    UnHexOfHex(digest);
    if '"' !in username && '"' !in names {
      LookupFour(username, names, Hex(digest));
    } else if ReadCredentials(text).Some? {
      CredentialsQuoteFree(text, "username");
      CredentialsQuoteFree(text, "headers");
    }
  }

  lemma LookupFour(username: string, names: string, signature: string)
    ensures var ps := [Parameter("username", username), Parameter("algorithm", "sha512"), Parameter("headers", names),
                       Parameter("signature", signature)];
            && Lookup(ps, "username") == Some(username) && Lookup(ps, "algorithm") == Some("sha512")
            && Lookup(ps, "headers") == Some(names) && Lookup(ps, "signature") == Some(signature)
  {
    hide Lookup;
    var a, b, c, d := Parameter("username", username), Parameter("algorithm", "sha512"), Parameter("headers", names),
        Parameter("signature", signature);
    assert "signature"[0] == 's' && "algorithm"[0] == 'a';
    LookupStep(a, [b, c, d], "username");
    LookupStep(a, [b, c, d], "algorithm");
    LookupStep(b, [c, d], "algorithm");
    LookupStep(a, [b, c, d], "headers");
    LookupStep(b, [c, d], "headers");
    LookupStep(c, [d], "headers");
    LookupStep(a, [b, c, d], "signature");
    LookupStep(b, [c, d], "signature");
    LookupStep(c, [d], "signature");
    LookupStep(d, [], "signature");
    assert [a] + [b, c, d] == [a, b, c, d] && [b] + [c, d] == [b, c, d] && [c] + [d] == [c, d] && [d] + [] == [d];
  }

  lemma LookupStep(first: Parameter, others: seq<Parameter>, name: string)
    ensures Lookup([first] + others, name) == if first.name == name then Some(first.value) else Lookup(others, name)
  {
    assert ([first] + others)[1..] == others;
  }

  lemma CredentialsQuoteFree(text: string, name: string)
    requires ReadCredentials(text).Some?
    ensures var value := Lookup(ReadCredentials(text).value.parameters, name); value.Some? ==> '"' !in value.value
  {
    LookupQuoteFree(ReadCredentials(text).value.parameters, name);
  }

  lemma {:induction false} LookupQuoteFree(parameters: seq<Parameter>, name: string)
    requires forall i :: 0 <= i < |parameters| ==> '"' !in parameters[i].value
    ensures var value := Lookup(parameters, name); value.Some? ==> '"' !in value.value
  {
    if parameters != [] {
      LookupQuoteFree(parameters[1..], name);
    }
  }

  /** A user name with a quote is read as something else, if at all. */
  lemma QuotedUser(username: CString, names: CString, digest: seq<Byte>)
    requires '"' in username
    ensures var r := ParseAuthorization(AuthText(username, names, Hex(digest)));
            r.Some? ==> r.value.username != username
  {
    hide ReadCredentials, UnHex, Hex, Lookup, AuthText;
    var text := AuthText(username, names, Hex(digest));
    if ReadCredentials(text).Some? {
      CredentialsQuoteFree(text, "username");
    }
  }

  lemma HexHasNoQuote(d: seq<Byte>)
    ensures '"' !in Hex(d)
  {
    assert forall k :: 0 <= k < 2 * |d| ==> Hex(d)[k] == HexChar(d, k) && HexChar(d, k) != '"';
  }

  // ----- A verifying server -----

  /** The first received header of this name. */
  function Pick(received: seq<string>, name: string): Option<string> {
    if received == [] then None
    else if Named(received[0]) && Lower(Name(received[0])) == name then Some(received[0])
    else Pick(received[1..], name)
  }

  /** The message rebuilt from the received headers by name. */
  function Rebuild(received: seq<string>, names: seq<string>, body: string): Option<string> {
    if names == [] then Some(body)
    else
      var h :- Pick(received, names[0]);
      var rest :- Rebuild(received, names[1..], body);
      Some(h + "\n" + rest)
  }

  /** The server checks the algorithm, looks the secret up by user, rebuilds the message, hashes it and compares. */
  predicate Accepts(keys: map<CString, CString>, hmac: (CString, CString) -> Digest, received: seq<string>,
                    body: string, text: string)
  {
    var auth := ParseAuthorization(text);
    && auth.Some? && auth.value.algorithm == "sha512"
    && auth.value.username in keys
    && var message := Rebuild(received, Fields(auth.value.names), body);
       && message.Some? && '\0' !in message.value
       && auth.value.digest == hmac(keys[auth.value.username], message.value)
  }

  function NamesOf(hs: seq<string>): seq<string> {
    seq(|hs|, i requires 0 <= i < |hs| => Lower(Name(hs[i])))
  }

  predicate DistinctNames(hs: seq<string>) {
    forall i, j :: 0 <= i < j < |hs| ==> NamesOf(hs)[i] != NamesOf(hs)[j]
  }

  lemma {:induction false} FieldsOfNameList(hs: seq<string>)
    requires Recoverable(hs)
    ensures Fields(NameList(hs)) == NamesOf(hs)
  {
    NameListEmpty(hs);
    if hs != [] {
      SplitNames(hs);
    }
  }

  lemma {:induction false} SplitNames(hs: seq<string>)
    requires hs != [] && forall i :: 0 <= i < |hs| ==> ' ' !in Name(hs[i])
    ensures Split(NameList(hs), ' ') == NamesOf(hs)
  {
    hide Find;
    LowerKeeps(Name(hs[0]), ' ');
    NamesOfCons(hs);
    if |hs| > 1 {
      assert forall i :: 0 < i < |hs| ==> hs[i] == hs[1..][i - 1];
      SplitNames(hs[1..]);
      SplitAt(Lower(Name(hs[0])), ' ', NameList(hs[1..]));
    }
  }

  lemma NamesOfCons(hs: seq<string>)
    requires hs != []
    ensures NamesOf(hs) == [Lower(Name(hs[0]))] + NamesOf(hs[1..])
  {
  }

  lemma {:induction false} PickCovered(hs: seq<string>, extra: seq<string>, i: nat)
    requires i < |hs| && AllNamed(hs) && DistinctNames(hs)
    ensures Pick(hs + extra, NamesOf(hs)[i]) == Some(hs[i])
  {
    assert (hs + extra)[0] == hs[0];
    if i > 0 {
      assert NamesOf(hs)[0] != NamesOf(hs)[i];
      assert (hs + extra)[1..] == hs[1..] + extra;
      assert NamesOf(hs)[1..] == NamesOf(hs[1..]);
      assert AllNamed(hs[1..]) && DistinctNames(hs[1..]) by {
        forall a, b | 0 <= a < b < |hs| - 1 ensures NamesOf(hs[1..])[a] != NamesOf(hs[1..])[b] {
          assert NamesOf(hs)[a + 1] != NamesOf(hs)[b + 1];
        }
      }
      PickCovered(hs[1..], extra, i - 1);
    }
  }

  lemma {:induction false} RebuildCovered(hs: seq<string>, extra: seq<string>, body: string, i: nat)
    requires i <= |hs| && AllNamed(hs) && DistinctNames(hs)
    ensures Rebuild(hs + extra, NamesOf(hs)[i..], body) == Some(Message(hs[i..], body))
    decreases |hs| - i
  {
    if i < |hs| {
      RebuildCovered(hs, extra, body, i + 1);
      PickCovered(hs, extra, i);
      assert NamesOf(hs)[i..][0] == NamesOf(hs)[i] && NamesOf(hs)[i..][1..] == NamesOf(hs)[i + 1..];
      assert hs[i..][0] == hs[i] && hs[i..][1..] == hs[i + 1..];
    }
  }

  /**
   What signing is for: a server that holds the secret of this user alone accepts the request, whichever headers were
   appended after the signed ones, exactly if the user name has no quote.
   */
  lemma {:induction false} AcceptedExact(hmac: (CString, CString) -> Digest, hs: seq<CString>, extra: seq<string>,
                                         user: CString, secret: CString, body: CString)
    requires '"' !in NameList(hs) && AllNamed(hs) && Recoverable(hs) && DistinctNames(hs)
    ensures Accepts(map[user := secret], hmac, hs + extra, body, SignedText(hmac, hs, user, secret, body))
            <==> '"' !in user
  {
    hide ParseAuthorization, AuthText, Hex, Recoverable, DistinctNames, AllNamed, NameList, Rebuild, Fields, NameText,
         MessageText;
    if '"' in user {
      QuotedUser(user, NameText(hs), hmac(secret, MessageText(hs, body)));
    } else {
      SignedRequestAccepted(map[user := secret], hmac, hs, extra, user, body);
    }
  }

  /**
   A server that holds more users accepts it too.
   */
  lemma {:induction false} SignedRequestAccepted(keys: map<CString, CString>, hmac: (CString, CString) -> Digest,
                                                 hs: seq<CString>, extra: seq<string>, user: CString, body: CString)
    requires user in keys && '"' !in user && '"' !in NameList(hs)
    requires AllNamed(hs) && Recoverable(hs) && DistinctNames(hs)
    ensures Accepts(keys, hmac, hs + extra, body, SignedText(hmac, hs, user, keys[user], body))
  {
    AuthorizationExact(user, NameText(hs), hmac(keys[user], MessageText(hs, body)));
    FieldsOfNameList(hs);
    RebuildCovered(hs, extra, body, 0);
    assert NamesOf(hs)[0..] == NamesOf(hs) && hs[0..] == hs;
  }
}
