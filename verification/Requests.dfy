/** The URLs and the body that `src/client.c` builds, and what a server reads from them. */
module Requests {
  import opened Text
  import opened Memory

  const SCHEME: CString := "https://"
  const PATH: CString := "/api/requests"

  function KeyRequestUrl(host: CString): CString {
    SCHEME + (host + PATH)
  }

  function ShowRequestUrl(host: CString, id: int): (url: CString) {
    SCHEME + (host + (PATH + ("/" + IdText(id))))
  }

  function IdText(id: int): CString {
    DecimalInt(id)
  }

  function KeyRequestBody(handle: CString): CString {
    "{\"key\": \"" + (handle + "\"}")
  }

  /** `get_key_request_body`. */
  method GetKeyRequestBody(heap: Heap, handle: Ptr) returns (body: Ptr)
    requires heap.Valid() && heap.reliable && IsString(heap.mem, handle)
    modifies heap
    ensures heap.Valid() && heap.next >= old(heap.next) && old(heap.next) <= body < heap.next && body !in heap.statics
    ensures heap.mem == old(heap.mem)[body := KeyRequestBody(StringAt(old(heap.mem), handle)) + "\0"]
    ensures IsString(heap.mem, body) && StringAt(heap.mem, body) == KeyRequestBody(StringAt(old(heap.mem), handle))
  {
    body := PrintToBlock(heap, KeyRequestBody(StringAt(heap.mem, handle)));
  }

  /** `get_key_request_url`. */
  method GetKeyRequestUrl(heap: Heap, host: Ptr) returns (url: Ptr)
    requires heap.Valid() && heap.reliable && IsString(heap.mem, host)
    modifies heap
    ensures heap.Valid() && heap.next >= old(heap.next) && old(heap.next) <= url < heap.next && url !in heap.statics
    ensures heap.mem == old(heap.mem)[url := KeyRequestUrl(StringAt(old(heap.mem), host)) + "\0"]
    ensures IsString(heap.mem, url) && StringAt(heap.mem, url) == KeyRequestUrl(StringAt(old(heap.mem), host))
  {
    url := PrintToBlock(heap, KeyRequestUrl(StringAt(heap.mem, host)));
  }

  /** `get_show_request_url`. */
  method GetShowRequestUrl(heap: Heap, host: Ptr, id: int) returns (url: Ptr)
    requires heap.Valid() && heap.reliable && IsString(heap.mem, host)
    modifies heap
    ensures heap.Valid() && heap.next >= old(heap.next) && old(heap.next) <= url < heap.next && url !in heap.statics
    ensures heap.mem == old(heap.mem)[url := ShowRequestUrl(StringAt(old(heap.mem), host), id) + "\0"]
    ensures IsString(heap.mem, url) && StringAt(heap.mem, url) == ShowRequestUrl(StringAt(old(heap.mem), host), id)
  {
    url := PrintToBlock(heap, ShowRequestUrl(StringAt(heap.mem, host), id));
  }

  // ----- Reading the URL -----

  function FindLast(s: string, c: char): (i: Option<nat>)
    ensures i.Some? ==> i.value < |s| && s[i.value] == c && forall k :: i.value < k < |s| ==> s[k] != c
    ensures i.None? ==> c !in s
  {
    if s == "" then None
    else if s[|s| - 1] == c then Some(|s| - 1)
    else FindLast(s[..|s| - 1], c)
  }

  /** The text before and after the last slash. */
  function CutLast(s: string): Option<(string, string)> {
    var slash :- FindLast(s, '/');
    Some((s[..slash], s[slash + 1..]))
  }

  function DropEnd(s: string, end: string): Option<string> {
    if |end| <= |s| && s[|s| - |end|..] == end then Some(s[..|s| - |end|]) else None
  }

  function DropStart(s: string, start: string): Option<string> {
    if start <= s then Some(s[|start|..]) else None
  }

  /** The host of a key-request URL. */
  function ParseKeyUrl(url: string): Option<string> {
    var rest :- DropStart(url, "https://");
    DropEnd(rest, "/api/requests")
  }

  /** The host and the id of a show-request URL: the id is what follows the last slash. */
  function ParseShowUrl(url: string): Option<(string, int)> {
    var rest :- DropStart(url, "https://");
    var (front, digits) :- CutLast(rest);
    var id :- ParseInt(digits);
    var host :- DropEnd(front, "/api/requests");
    Some((host, id))
  }

  lemma Literals()
    ensures SCHEME == "https://" && PATH == "/api/requests"
  {
  }

  lemma DropStartOf(start: string, s: string)
    ensures DropStart(start + s, start) == Some(s)
  {
  }

  lemma KeyUrlRoundTrip(host: CString)
    ensures ParseKeyUrl(KeyRequestUrl(host)) == Some(host)
  {
    hide DropStart, DropEnd;
    Literals();
    DropStartOf(SCHEME, host + PATH);
    DropEndOf(host, PATH);
  }

  lemma CutLastOf(front: string, tail: string)
    requires '/' !in tail
    ensures CutLast(front + ("/" + tail)) == Some((front, tail))
  {
    var s := front + ("/" + tail);
    assert s[|front|] == '/' && s[..|front|] == front && s[|front| + 1..] == tail;
    assert forall k :: |front| < k < |s| ==> s[k] == tail[k - |front| - 1] && s[k] in tail;
  }

  lemma DropEndOf(s: string, end: string)
    ensures DropEnd(s + end, end) == Some(s)
  {
    assert (s + end)[|s|..] == end && (s + end)[..|s|] == s;
  }

  /** Whatever the host, host and id can be read back; so two different requests never have the same URL. */
  lemma ShowUrlRoundTrip(host: CString, id: int)
    ensures ParseShowUrl(ShowRequestUrl(host, id)) == Some((host, id))
  {
    hide CutLast, DropStart, DropEnd, DecimalInt, ParseInt;
    Literals();
    var tail := "/" + IdText(id);
    assert host + (PATH + tail) == (host + PATH) + tail;
    DropStartOf(SCHEME, host + (PATH + tail));
    CutLastOf(host + PATH, IdText(id));
    ParseIntOfDecimal(id);
    DropEndOf(host, PATH);
  }

  lemma ShowUrlInjective(host: CString, id: int, host': CString, id': int)
    requires ShowRequestUrl(host, id) == ShowRequestUrl(host', id')
    ensures host == host' && id == id'
  {
    ShowUrlRoundTrip(host, id);
    ShowUrlRoundTrip(host', id');
  }

  /** The request for a key goes to the collection that the show URLs are members of, and never to a member. */
  lemma KeyUrlIsParent(host: CString, host': CString, id: int)
    ensures ShowRequestUrl(host, id) == KeyRequestUrl(host) + "/" + IdText(id)
    ensures KeyRequestUrl(host) != ShowRequestUrl(host', id)
  {
    var key, show := KeyRequestUrl(host), ShowRequestUrl(host', id);
    assert ShowRequestUrl(host, id) == KeyRequestUrl(host) + "/" + IdText(id);
    assert key[|key| - 1] == PATH[|PATH| - 1] == 's';
    assert show[|show| - 1] == IdText(id)[|IdText(id)| - 1] && show[|show| - 1] in IdText(id);
  }

  predicate EndsAuthority(c: char) {
    c == '/' || c == '?' || c == '#'
  }

  /** The authority of a URL: it ends at the first slash, question mark or number sign (section 3.2 of RFC 3986). */
  function AuthorityLength(s: string): (n: nat)
    ensures n <= |s| && (forall k :: 0 <= k < n ==> !EndsAuthority(s[k])) && (n < |s| ==> EndsAuthority(s[n]))
  {
    if s == "" || EndsAuthority(s[0]) then 0 else 1 + AuthorityLength(s[1..])
  }

  /** The authority of the URL is the configured text exactly when that text cannot end an authority by itself. */
  lemma AuthorityExact(host: CString, tail: string)
    ensures var rest := host + (PATH + tail);
            && (rest[..AuthorityLength(rest)] == host <==> forall k :: 0 <= k < |host| ==> !EndsAuthority(host[k]))
            && AuthorityLength(rest) <= |host|
  {
    var rest := host + (PATH + tail);
    assert rest[|host|] == '/' && rest[..|host|] == host;
    var n := AuthorityLength(rest);
    if k :| 0 <= k < |host| && EndsAuthority(host[k]) {
      assert rest[k] == host[k];
    } else {
      assert forall k :: 0 <= k < |host| ==> rest[k] == host[k];
      assert n == |host|;
    }
  }

  /**
   The host that an authority names: what is left without user information, which ends at an at sign, and without the
   port. A literal address stands in brackets (sections 3.2.1 to 3.2.3 of RFC 3986).
   */
  function HostIn(authority: string): (r: Option<string>)
    ensures r.Some? ==> |r.value| <= |authority|
  {
    var at := FindLast(authority, '@');
    var rest := if at.None? then authority else authority[at.value + 1..];
    if rest != "" && rest[0] == '[' then
      var end := Find(rest, ']');
      if end == |rest| || (end + 1 < |rest| && rest[end + 1] != ':') then None else Some(rest[..end + 1])
    else Some(rest[..Find(rest, ':')])
  }

  function HostOf(url: string): Option<string> {
    var rest :- DropStart(url, "https://");
    HostIn(rest[..AuthorityLength(rest)])
  }

  /** A host by itself: nothing that ends or divides an authority, except for a literal address in brackets. */
  predicate PlainHost(host: string) {
    && (forall k :: 0 <= k < |host| ==> !EndsAuthority(host[k]) && host[k] != '@')
    && (if host != "" && host[0] == '[' then Find(host, ']') == |host| - 1 else ':' !in host)
  }

  lemma HostInExact(host: string)
    requires forall k :: 0 <= k < |host| ==> !EndsAuthority(host[k])
    ensures HostIn(host) == Some(host) <==> PlainHost(host)
  {
    var at := FindLast(host, '@');
    assert host[..|host|] == host && forall k :: 0 <= k < |host| ==> host[k] in host;
    if at.Some? {
      assert host[at.value] == '@';
    } else if host != "" && host[0] == '[' {
      assert Find(host, ']') == |host| - 1 ==> host[..Find(host, ']') + 1] == host;
    } else {
      assert ':' in host <==> Find(host, ':') < |host|;
    }
  }

  /** Every request goes to the configured host exactly when that text is a host by itself. */
  lemma HostExact(host: CString, id: int)
    ensures HostOf(KeyRequestUrl(host)) == Some(host) <==> PlainHost(host)
    ensures HostOf(ShowRequestUrl(host, id)) == Some(host) <==> PlainHost(host)
  {
    hide HostIn, PlainHost, AuthorityLength, DropStart;
    Literals();
    HostExactFor(host, "");
    HostExactFor(host, "/" + IdText(id));
    assert host + (PATH + "") == host + PATH;
    DropStartOf(SCHEME, host + PATH);
    DropStartOf(SCHEME, host + (PATH + ("/" + IdText(id))));
  }

  lemma HostExactFor(host: CString, tail: string)
    ensures var rest := host + (PATH + tail); HostIn(rest[..AuthorityLength(rest)]) == Some(host) <==> PlainHost(host)
  {
    hide HostIn, AuthorityLength;
    AuthorityExact(host, tail);
    var rest := host + (PATH + tail);
    assert rest[..|host|] == host;
    if forall k :: 0 <= k < |host| ==> !EndsAuthority(host[k]) {
      HostInExact(host);
    }
  }

  lemma OtherHost(host: CString, n: nat, id: int)
    requires n <= |host| && (forall k :: 0 <= k < n ==> !EndsAuthority(host[k]))
    requires n < |host| ==> EndsAuthority(host[n])
    ensures HostOf(ShowRequestUrl(host, id)) == HostIn(host[..n])
  {
    hide HostIn, IdText, DropStart;
    Literals();
    DropStartOf(SCHEME, host + (PATH + ("/" + IdText(id))));
    AuthorityEnds(host, PATH + ("/" + IdText(id)), n);
  }

  lemma AuthorityEnds(host: string, tail: string, n: nat)
    requires n <= |host| && (forall k :: 0 <= k < n ==> !EndsAuthority(host[k])) && tail != "" && tail[0] == '/'
    requires n < |host| ==> EndsAuthority(host[n])
    ensures AuthorityLength(host + tail) == n && (host + tail)[..n] == host[..n]
  {
    hide AuthorityLength;
    var rest := host + tail;
    assert forall k :: 0 <= k < n ==> rest[k] == host[k];
    assert EndsAuthority(rest[n]);
  }

  /** A host with a slash: the request goes to the part before it. */
  lemma HostWithSlash(id: int)
    ensures HostOf(ShowRequestUrl("a/b", id)) == Some("a")
  {
    hide HostOf, HostIn;
    OtherHost("a/b", 1, id);
    HostInExact("a");
    assert "a/b"[..1] == "a" && PlainHost("a");
  }

  /** An at sign: the request goes to what is behind it, with the part before as user information. */
  lemma HostWithUser(id: int)
    ensures HostOf(ShowRequestUrl("a@b", id)) == Some("b")
  {
    hide HostOf, ShowRequestUrl;
    OtherHost("a@b", 3, id);
    assert "a@b"[..3] == "a@b" && FindLast("a@b", '@') == Some(1) && "a@b"[2..] == "b";
    assert "b"[..Find("b", ':')] == "b";
  }

  // ----- UTF-8 -----

  predicate ByteIn(s: string, i: nat, low: int, high: int) {
    i < |s| && low <= s[i] as int <= high
  }

  predicate Tail(s: string, i: nat) {
    ByteIn(s, i, 0x80, 0xBF)
  }

  /** The length of the well-formed sequence that `s` starts with (section 4 of RFC 3629); 0 when there is none. */
  function SequenceLength(s: string): (n: nat)
    ensures n <= |s| && (n == 1 ==> s[0] as int < 0x80)
    ensures n > 1 ==> forall i :: 0 <= i < n ==> s[i] as int >= 0x80
  {
    if ByteIn(s, 0, 0, 0x7F) then 1
    else if ByteIn(s, 0, 0xC2, 0xDF) && Tail(s, 1) then 2
    else if ByteIn(s, 0, 0xE0, 0xEF) && Tail(s, 2)
            && ByteIn(s, 1, if s[0] == '\U{E0}' then 0xA0 else 0x80, if s[0] == '\U{ED}' then 0x9F else 0xBF) then 3
    else if ByteIn(s, 0, 0xF0, 0xF4) && Tail(s, 2) && Tail(s, 3)
            && ByteIn(s, 1, if s[0] == '\U{F0}' then 0x90 else 0x80, if s[0] == '\U{F4}' then 0x8F else 0xBF) then 4
    else 0
  }

  /** The character that a well-formed sequence stands for. */
  function CodePoint(s: string): (p: nat)
    requires SequenceLength(s) > 0
    ensures p < 0x80 <==> SequenceLength(s) == 1
    ensures p < 0x80 ==> p == s[0] as nat
  {
    var n := SequenceLength(s);
    if n == 1 then s[0] as nat
    else if n == 2 then 0x40 * (s[0] as nat - 0xC0) + (s[1] as nat - 0x80)
    else if n == 3 then 0x1000 * (s[0] as nat - 0xE0) + 0x40 * (s[1] as nat - 0x80) + (s[2] as nat - 0x80)
    else
      0x4_0000 * (s[0] as nat - 0xF0) + 0x1000 * (s[1] as nat - 0x80) + 0x40 * (s[2] as nat - 0x80)
      + (s[3] as nat - 0x80)
  }

  function DecodeUtf8(s: string): Option<seq<nat>>
    decreases |s|
  {
    if s == "" then Some([])
    else if SequenceLength(s) == 0 then None
    else
      var rest :- DecodeUtf8(s[SequenceLength(s)..]);
      Some([CodePoint(s)] + rest)
  }

  predicate Ascii(s: string) {
    forall i :: 0 <= i < |s| ==> s[i] as int < 0x80
  }

  lemma DecodeFirst(s: string)
    ensures s == "" ==> DecodeUtf8(s) == Some([])
    ensures s != "" ==>
              var n := SequenceLength(s);
              DecodeUtf8(s) == if n == 0 || DecodeUtf8(s[n..]).None? then None
                               else Some([CodePoint(s)] + DecodeUtf8(s[n..]).value)
  {
  }

  lemma {:induction false} AsciiPrefix(a: string, b: string)
    requires Ascii(a)
    ensures DecodeUtf8(a + b).Some? <==> DecodeUtf8(b).Some?
    ensures DecodeUtf8(b).Some? ==> DecodeUtf8(a + b) == Some(Units(a) + DecodeUtf8(b).value)
  {
    hide DecodeUtf8;
    if a == "" {
      assert a + b == b;
      assert DecodeUtf8(b).Some? ==> Units(a) + DecodeUtf8(b).value == DecodeUtf8(b).value;
    } else {
      AsciiPrefix(a[1..], b);
      AsciiFirst(a + b);
      assert (a + b)[1..] == a[1..] + b && Units(a) == [a[0] as nat] + Units(a[1..]);
      if DecodeUtf8(b).Some? {
        var rest := DecodeUtf8(b).value;
        assert Units(a) + rest == [a[0] as nat] + (Units(a[1..]) + rest);
      }
    }
  }

  lemma AsciiFirst(s: string)
    requires s != "" && s[0] as int < 0x80
    ensures DecodeUtf8(s)
         == if DecodeUtf8(s[1..]).None? then None else Some([s[0] as nat] + DecodeUtf8(s[1..]).value)
  {
    hide DecodeUtf8;
    DecodeFirst(s);
    assert SequenceLength(s) == 1;
  }

  lemma SequenceLocal(a: string, b: string)
    requires a != "" && (b == "" || b[0] as int < 0x80)
    ensures SequenceLength(a + b) == SequenceLength(a)
    ensures SequenceLength(a) > 0 ==> CodePoint(a + b) == CodePoint(a)
  {
    assert forall i :: 0 <= i < |a| ==> (a + b)[i] == a[i];
    assert b != "" ==> (a + b)[|a|] == b[0];
  }

  /** No sequence reaches over an ASCII character. */
  lemma {:induction false} AsciiSuffix(a: string, b: string)
    requires b == "" || b[0] as int < 0x80
    ensures DecodeUtf8(a + b).Some? <==> DecodeUtf8(a).Some? && DecodeUtf8(b).Some?
    ensures DecodeUtf8(a + b).Some? ==> DecodeUtf8(a + b) == Some(DecodeUtf8(a).value + DecodeUtf8(b).value)
    decreases |a|
  {
    hide SequenceLength, CodePoint, DecodeUtf8;
    DecodeFirst(a);
    if a == "" {
      assert a + b == b;
      assert DecodeUtf8(b).Some? ==> [] + DecodeUtf8(b).value == DecodeUtf8(b).value;
    } else {
      DecodeFirst(a + b);
      SequenceLocal(a, b);
      var n := SequenceLength(a);
      if n > 0 {
        AsciiSuffix(a[n..], b);
        assert (a + b)[n..] == a[n..] + b;
        if DecodeUtf8(a + b).Some? {
          var x, y := DecodeUtf8(a[n..]).value, DecodeUtf8(b).value;
          assert [CodePoint(a)] + (x + y) == ([CodePoint(a)] + x) + y;
        }
      }
    }
  }

  // ----- Reading the body -----

  function HexNibble(c: nat): Option<nat> {
    if '0' as nat <= c <= '9' as nat then Some(c - '0' as nat)
    else if 'A' as nat <= c <= 'F' as nat then Some(c - 'A' as nat + 10)
    else if 'a' as nat <= c <= 'f' as nat then Some(c - 'a' as nat + 10)
    else None
  }

  const QUOTE: nat := 34
  const BACKSLASH: nat := 92

  /** The code unit that a two-character escape stands for. */
  function Unescape(c: nat): Option<nat> {
    if c == QUOTE || c == BACKSLASH || c == '/' as nat then Some(c)
    else if c == 'b' as nat then Some(8)
    else if c == 'f' as nat then Some(12)
    else if c == 'n' as nat then Some(10)
    else if c == 'r' as nat then Some(13)
    else if c == 't' as nat then Some(9)
    else None
  }

  /** The rest of a JSON string behind its opening quote (section 7 of RFC 8259); and what follows it. */
  function JsonString(s: seq<nat>): Option<(seq<nat>, seq<nat>)>
    decreases |s|
  {
    if s == [] || s[0] < 0x20 then None
    else if s[0] == QUOTE then Some(([], s[1..]))
    else if s[0] != BACKSLASH then
      var (units, rest) :- JsonString(s[1..]);
      Some(([s[0]] + units, rest))
    else if |s| >= 6 && s[1] == 'u' as nat then
      var a :- HexNibble(s[2]);
      var b :- HexNibble(s[3]);
      var c :- HexNibble(s[4]);
      var d :- HexNibble(s[5]);
      var (units, rest) :- JsonString(s[6..]);
      var unit: nat := 4096 * a + 256 * b + 16 * c + d;
      Some(([unit] + units, rest))
    else if |s| >= 2 then
      var unit :- Unescape(s[1]);
      var (units, rest) :- JsonString(s[2..]);
      Some(([unit] + units, rest))
    else None
  }

  function SkipSpace(s: seq<nat>): seq<nat> {
    if s != [] && (s[0] == 0x20 || s[0] == 0x09 || s[0] == 0x0A || s[0] == 0x0D) then SkipSpace(s[1..]) else s
  }

  /** The given character, with white space around it. */
  function Token(c: char, s: seq<nat>): Option<seq<nat>> {
    var t := SkipSpace(s);
    if t != [] && t[0] == c as nat then Some(SkipSpace(t[1..])) else None
  }

  /** The end of the object behind the value. */
  function Closed(name: seq<nat>, value: Option<(seq<nat>, seq<nat>)>): Option<(seq<nat>, seq<nat>)> {
    var (text, s) :- value;
    var s :- Token('}', s);
    if s == [] then Some((name, text)) else None
  }

  /** An object with one member whose value is a string: the name and the value. */
  function ReadObject(s: seq<nat>): Option<(seq<nat>, seq<nat>)> {
    var s :- Token('{', s);
    if s == [] || s[0] != QUOTE then None
    else
      var (name, s) :- JsonString(s[1..]);
      var s :- Token(':', s);
      if s == [] || s[0] != QUOTE then None else Closed(name, JsonString(s[1..]))
  }

  /** The one member of a body, which must be UTF-8 (section 8.1 of RFC 8259). */
  function ReadMember(body: string): Option<(seq<nat>, seq<nat>)> {
    var s :- DecodeUtf8(body);
    ReadObject(s)
  }

  function Units(s: string): (r: seq<nat>)
    ensures |r| == |s| && forall i :: 0 <= i < |s| ==> r[i] == s[i] as nat
  {
    seq(|s|, i requires 0 <= i < |s| => s[i] as nat)
  }

  /** A character that stands for itself in a JSON string. */
  predicate Plain(c: nat) {
    c >= 0x20 && c != QUOTE && c != BACKSLASH
  }

  predicate AllPlain(s: seq<nat>) {
    forall i :: 0 <= i < |s| ==> Plain(s[i])
  }

  lemma {:induction false} PlainReads(s: seq<nat>, rest: seq<nat>)
    requires AllPlain(s)
    ensures JsonString(s + [QUOTE] + rest) == Some((s, rest))
  {
    var t := s + [QUOTE] + rest;
    if s == [] {
      assert t[0] == QUOTE && t[1..] == rest;
    } else {
      PlainReads(s[1..], rest);
      assert t[0] == s[0] && t[1..] == s[1..] + [QUOTE] + rest;
      assert [s[0]] + s[1..] == s;
    }
  }

  /** Reading never lengthens, and keeps the length only where every character stands for itself. */
  lemma {:induction false} ReadingShrinks(s: seq<nat>)
    requires JsonString(s).Some?
    ensures var (units, rest) := JsonString(s).value;
            && |units| + |rest| < |s|
            && (|units| + |rest| + 1 == |s| ==> AllPlain(s[..|units|]))
    decreases |s|
  {
    if s[0] == QUOTE {
    } else if s[0] != BACKSLASH {
      ReadingShrinks(s[1..]);
      var units := JsonString(s).value.0;
      assert forall i :: 0 < i < |units| ==> s[..|units|][i] == s[1..][..|units| - 1][i - 1];
    } else if |s| >= 6 && s[1] == 'u' as nat {
      ReadingShrinks(s[6..]);
    } else {
      ReadingShrinks(s[2..]);
    }
  }

  lemma FirstPlain(s: string)
    requires SequenceLength(s) > 0
    ensures AllPlain(Units(s[..SequenceLength(s)])) <==> AllPlain([CodePoint(s)])
  {
    var n, p := SequenceLength(s), CodePoint(s);
    hide SequenceLength, CodePoint;
    var first := Units(s[..n]);
    assert forall i :: 0 <= i < n ==> first[i] == s[i] as nat;
    if n == 1 {
      assert first == [p];
    }
  }

  lemma UnitsSplit(s: string, n: nat)
    requires n <= |s|
    ensures Units(s) == Units(s[..n]) + Units(s[n..])
  {
  }

  /** Quotes, backslashes and control characters are single bytes. */
  lemma {:induction false} PlainBytes(s: string)
    requires DecodeUtf8(s).Some?
    ensures AllPlain(Units(s)) <==> AllPlain(DecodeUtf8(s).value)
    decreases |s|
  {
    if s == "" {
      assert Units(s) == [] && DecodeUtf8(s).value == [];
    } else {
      hide SequenceLength, CodePoint, AllPlain, DecodeUtf8, Units;
      DecodeFirst(s);
      var n := SequenceLength(s);
      PlainBytes(s[n..]);
      FirstPlain(s);
      UnitsSplit(s, n);
      PlainConcat(Units(s[..n]), Units(s[n..]));
      PlainConcat([CodePoint(s)], DecodeUtf8(s[n..]).value);
    }
  }

  lemma PlainConcat(a: seq<nat>, b: seq<nat>)
    ensures AllPlain(a + b) <==> AllPlain(a) && AllPlain(b)
  {
    assert forall i :: 0 <= i < |a| ==> (a + b)[i] == a[i];
    assert forall i :: 0 <= i < |b| ==> (a + b)[|a| + i] == b[i];
  }

  /** A body of this form, with a plain name. */
  function BodyOf(name: CString, value: CString): CString {
    "{\"" + (name + ("\": \"" + (value + "\"}")))
  }

  predicate PlainName(name: string) {
    Ascii(name) && AllPlain(Units(name))
  }

  lemma ReadOpened(name: seq<nat>, rest: seq<nat>)
    requires AllPlain(name)
    ensures ReadObject(['{' as nat, QUOTE] + (name + ([QUOTE, ':' as nat, ' ' as nat, QUOTE] + rest)))
         == Closed(name, JsonString(rest))
  {
    hide JsonString, Closed, Token, AllPlain;
    var t := [':' as nat, ' ' as nat, QUOTE] + rest;
    var inner := name + ([QUOTE, ':' as nat, ' ' as nat, QUOTE] + rest);
    OpeningToken(inner);
    ColonToken(rest);
    PlainReads(name, t);
    assert inner == name + [QUOTE] + t;
    assert ([QUOTE] + inner)[1..] == inner && ([QUOTE] + rest)[1..] == rest;
  }

  lemma OpeningToken(s: seq<nat>)
    ensures Token('{', ['{' as nat, QUOTE] + s) == Some([QUOTE] + s)
  {
    assert (['{' as nat, QUOTE] + s)[1..] == [QUOTE] + s;
  }

  lemma ColonToken(s: seq<nat>)
    ensures Token(':', [':' as nat, ' ' as nat, QUOTE] + s) == Some([QUOTE] + s)
  {
    var t := [':' as nat, ' ' as nat, QUOTE] + s;
    assert t[1..] == [' ' as nat, QUOTE] + s && t[1..][1..] == [QUOTE] + s;
    OneSpace(t[1..]);
  }

  lemma OneSpace(s: seq<nat>)
    requires |s| >= 2 && s[0] == 0x20 && s[1] == QUOTE
    ensures SkipSpace(s) == s[1..]
  {
    assert s[1..][0] == QUOTE;
  }

  /** The value is read as the text that was meant exactly when it is UTF-8 and plain. */
  lemma {:induction false} MemberExact(name: CString, value: CString)
    requires PlainName(name)
    ensures var read, text := ReadMember(BodyOf(name, value)), DecodeUtf8(value);
            && (text.None? ==> read == None)
            && (text.Some? ==> (read == Some((Units(name), text.value)) <==> AllPlain(Units(value))))
  {
    hide DecodeUtf8, JsonString, ReadObject, Units, BodyOf;
    DecodedBody(name, value);
    if DecodeUtf8(value).Some? {
      var text := DecodeUtf8(value).value;
      var s := text + [QUOTE] + ['}' as nat];
      ReadOpened(Units(name), s);
      PlainBytes(value);
      if AllPlain(text) {
        PlainReads(text, ['}' as nat]);
        JustClosed();
      } else if Closed(Units(name), JsonString(s)).Some? {
        ClosedMeans(Units(name), JsonString(s));
        ReadingShrinks(s);
        assert s[..|text|] == text;
      }
    }
  }

  lemma JustClosed()
    ensures Token('}', ['}' as nat]) == Some([])
  {
    assert ['}' as nat][1..] == [];
  }

  lemma ClosedMeans(name: seq<nat>, value: Option<(seq<nat>, seq<nat>)>)
    requires Closed(name, value).Some?
    ensures value.Some? && value.value.1 != [] && Closed(name, value).value == (name, value.value.0)
  {
  }

  lemma DecodedBody(name: CString, value: CString)
    requires PlainName(name)
    ensures DecodeUtf8(BodyOf(name, value)).Some? <==> DecodeUtf8(value).Some?
    ensures DecodeUtf8(value).Some? ==>
              DecodeUtf8(BodyOf(name, value))
              == Some(['{' as nat, QUOTE] + (Units(name) + ([QUOTE, ':' as nat, ' ' as nat, QUOTE]
                                                            + (DecodeUtf8(value).value + [QUOTE] + ['}' as nat]))))
  {
    hide DecodeUtf8;
    var opening, middle, closing := "{\"", "\": \"", "\"}";
    AsciiPrefix(opening, name + (middle + (value + closing)));
    AsciiPrefix(name, middle + (value + closing));
    AsciiPrefix(middle, value + closing);
    AsciiSuffix(value, closing);
    AsciiPrefix(closing, "");
    NoBytes();
    assert closing + "" == closing && Units(closing) + [] == [QUOTE, '}' as nat];
    assert Units(opening) == ['{' as nat, QUOTE] && Units(middle) == [QUOTE, ':' as nat, ' ' as nat, QUOTE];
    if DecodeUtf8(value).Some? {
      assert DecodeUtf8(value).value + [QUOTE, '}' as nat] == DecodeUtf8(value).value + [QUOTE] + ['}' as nat];
    }
  }

  lemma NoBytes()
    ensures DecodeUtf8("") == Some([])
  {
  }

  /**
   The handle is put between the quotes as it is. The server reads a member `key` with the text that was meant exactly
   when the handle is UTF-8 and contains no quote, no backslash and no control character.
   */
  lemma {:induction false} KeyBodyExact(handle: CString)
    ensures var read, text := ReadMember(KeyRequestBody(handle)), DecodeUtf8(handle);
            text.Some? && read == Some((Units("key"), text.value)) <==> text.Some? && AllPlain(Units(handle))
    ensures DecodeUtf8(handle) == None ==> ReadMember(KeyRequestBody(handle)) == None
  {
    hide DecodeUtf8, ReadMember;
    MemberExact("key", handle);
    assert KeyRequestBody(handle) == BodyOf("key", handle);
  }

  /** A handle with a quote ends the string early, and what follows is no JSON. */
  lemma HandleWithQuote()
    ensures ReadMember(KeyRequestBody("a\"b")) == None
  {
    hide DecodeUtf8, BodyOf, ReadObject, KeyRequestBody;
    NoBytes();
    AsciiPrefix("a\"b", "");
    assert "a\"b" + "" == "a\"b" && Units("a\"b") + [] == [97, QUOTE, 98];
    BodyIsBodyOf("a\"b");
    DecodedBody("key", "a\"b");
    var s := [97, QUOTE, 98, QUOTE, '}' as nat];
    assert [97, QUOTE, 98] + [QUOTE] + ['}' as nat] == s;
    ReadOpened(Units("key"), s);
    assert s[1..] == [QUOTE, 98, QUOTE, '}' as nat];
    assert JsonString(s[1..]).value.1 == s[1..][1..] == [98, QUOTE, '}' as nat];
  }

  lemma BodyIsBodyOf(handle: CString)
    ensures KeyRequestBody(handle) == BodyOf("key", handle) && PlainName("key")
  {
  }

  /** A single byte 0xE9 is no UTF-8, so the body is no JSON. */
  lemma HandleNotUtf8()
    ensures ReadMember(KeyRequestBody("\U{E9}")) == None
  {
    hide ReadMember, KeyRequestBody;
    KeyBodyExact("\U{E9}");
  }

  /** The two bytes of the same letter are read as the letter. */
  lemma HandleWithAccent()
    ensures ReadMember(KeyRequestBody("\U{C3}\U{A9}")) == Some((Units("key"), [0xE9]))
  {
    hide ReadMember, KeyRequestBody;
    TwoBytes("\U{C3}\U{A9}");
    assert Units("\U{C3}\U{A9}") == [0xC3, 0xA9];
    KeyBodyExact("\U{C3}\U{A9}");
  }

  lemma TwoBytes(s: string)
    requires |s| == 2 && s[0] as int == 0xC3 && s[1] as int == 0xA9
    ensures DecodeUtf8(s) == Some([0xE9])
  {
    assert SequenceLength(s) == 2 && s[2..] == "";
    assert [CodePoint(s)] + [] == [0xE9];
  }
}
