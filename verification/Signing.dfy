/** The signed message and the Authorization header of `src/https-client.c`: what they are, and how they are built. */
module Signing {
  import opened Text
  import opened Memory
  import opened HeaderLists

  // ----- What is built -----

  predicate Named(h: string) {
    ':' in h
  }

  predicate AllNamed(hs: seq<string>) {
    forall i :: 0 <= i < |hs| ==> Named(hs[i])
  }

  /** The name of a header: the text before the first colon. */
  function Name(h: string): string {
    h[..Find(h, ':')]
  }

  /** The value of `headers="..."`: the names in lower case, separated by single spaces. */
  function NameList(hs: seq<string>): string {
    if hs == [] then ""
    else if |hs| == 1 then Lower(Name(hs[0]))
    else Lower(Name(hs[0])) + " " + NameList(hs[1..])
  }

  /** The message that is authenticated: one line for each header, then the body. */
  function Message(hs: seq<string>, body: string): string {
    if hs == [] then body else hs[0] + "\n" + Message(hs[1..], body)
  }

  type Byte = n: nat | n < 256

  /** An HMAC-SHA512 digest: 64 bytes. */
  type Digest = d: seq<Byte> | |d| == 64 witness seq(64, _ => 0)

  function HexDigit(n: nat): (c: char)
    requires n < 16
    ensures '0' <= c <= '9' || 'A' <= c <= 'F'
  {
    if n < 10 then (n + '0' as int) as char else (n - 10 + 'A' as int) as char
  }

  function HexChar(d: seq<Byte>, k: nat): char
    requires k < 2 * |d|
  {
    HexDigit(if k % 2 == 0 then d[k / 2] / 16 else d[k / 2] % 16)
  }

  /** Two upper-case hexadecimal digits for each byte. */
  function Hex(d: seq<Byte>): (s: CString)
    ensures |s| == 2 * |d|
    ensures forall k :: 0 <= k < |s| ==> s[k] == HexChar(d, k)
  {
    seq(2 * |d|, k requires 0 <= k < 2 * |d| => HexChar(d, k))
  }

  const PREFIX: CString := "Authorization: hmac username=\""
  const ALGORITHM: CString := "\", algorithm=\"sha512\", headers=\""
  const SIGNATURE: CString := "\", signature=\""

  function AuthText(username: CString, names: CString, signature: CString): CString {
    PREFIX + (username + (ALGORITHM + (names + (SIGNATURE + (signature + "\"")))))
  }

  /** What `joinHeaderNames` has assembled before it lower-cases the whole buffer. */
  function RawNames(hs: seq<string>): string {
    if hs == [] then ""
    else if |hs| == 1 then Name(hs[0])
    else Name(hs[0]) + " " + RawNames(hs[1..])
  }

  lemma {:induction false} LowerRawNames(hs: seq<string>)
    ensures Lower(RawNames(hs)) == NameList(hs)
  {
    if |hs| > 1 {
      LowerRawNames(hs[1..]);
      LowerConcat(Name(hs[0]) + " ", RawNames(hs[1..]));
      LowerConcat(Name(hs[0]), " ");
      assert Lower(" ") == " ";
    }
  }

  lemma {:induction false} RawNamesIsString(hs: seq<CString>)
    ensures '\0' !in RawNames(hs) && '\0' !in NameList(hs)
  {
    LowerRawNames(hs);
    if |hs| > 1 {
      RawNamesIsString(hs[1..]);
    }
    LowerKeeps(RawNames(hs), '\0');
  }

  lemma {:induction false} MessageIsString(hs: seq<CString>, body: CString)
    ensures '\0' !in Message(hs, body)
  {
    if hs != [] {
      MessageIsString(hs[1..], body);
    }
  }

  /** The lines come first, then the body. */
  lemma {:induction false} MessageSplits(hs: seq<string>, body: string)
    ensures Message(hs, body) == Message(hs, "") + body
  {
    if hs != [] {
      MessageSplits(hs[1..], body);
    }
  }

  function NameText(hs: seq<CString>): (t: CString)
    ensures t == NameList(hs)
  {
    RawNamesIsString(hs);
    NameList(hs)
  }

  /** The message over C strings is a C string. */
  function MessageText(hs: seq<CString>, body: CString): (t: CString)
    ensures t == Message(hs, body)
  {
    MessageIsString(hs, body);
    Message(hs, body)
  }

  // ----- How it is built -----

  /** `tolower` of a plain `char`. */
  function CharToLower(platform: Platform, c: char): char
    requires LowerDefined(platform, [c])
  {
    ToLower(c)
  }

  /** `strToLower`: `tolower` must be defined for every character of the string. */
  method StrToLower(heap: Heap, p: Ptr)
    requires heap.Valid() && heap.Owned(p) && IsString(heap.mem, p)
    requires LowerDefined(heap.platform, StringAt(heap.mem, p))
    modifies heap
    ensures heap.Valid() && heap.next == old(heap.next)
    ensures var s := StringAt(old(heap.mem), p);
            heap.mem == old(heap.mem)[p := Overwrite(old(heap.mem[p]), 0, Lower(s))]
  {
    ghost var b := heap.mem[p];
    ghost var s := CStr(b);
    assert forall k :: 0 <= k < |s| ==> b[k] == s[k] && s[k] in s;
    var i := 0;
    while heap.mem[p][i] != '\0'
      invariant 0 <= i <= |s| < |b| && p in heap.mem && |heap.mem[p]| == |b|
      invariant heap.Valid() && heap.next == old(heap.next)
      invariant heap.mem == old(heap.mem)[p := heap.mem[p]]
      invariant forall k :: 0 <= k < |b| ==> heap.mem[p][k] == if k < i then ToLower(s[k]) else b[k]
      decreases |s| - i
    {
      heap.Put(p, i, CharToLower(heap.platform, heap.mem[p][i]));
      i := i + 1;
    }
    assert i == |s|;
    assert heap.mem[p] == Overwrite(b, 0, Lower(s));
  }

  /** The names that reach `tolower`, which are none if one is missing. */
  predicate NamesLowerable(platform: Platform, hs: seq<string>) {
    AllNamed(hs) ==> forall i :: 0 <= i < |hs| ==> LowerDefined(platform, Name(hs[i]))
  }

  lemma {:induction false} RawNamesLowerable(platform: Platform, hs: seq<string>)
    requires forall i :: 0 <= i < |hs| ==> LowerDefined(platform, Name(hs[i]))
    ensures LowerDefined(platform, RawNames(hs))
  {
    if |hs| > 1 {
      RawNamesLowerable(platform, hs[1..]);
    }
  }

  /** `joinHeaderNames`. */
  method JoinHeaderNames(heap: Heap, headerList: SList) returns (headers: Ptr)
    requires heap.Valid() && Readable(heap.mem, headerList)
    requires NamesLowerable(heap.platform, Lines(heap.mem, headerList))
    modifies heap
    ensures heap.Valid() && heap.next >= old(heap.next)
    ensures !AllNamed(Lines(old(heap.mem), headerList)) ==> headers == NULL
    ensures heap.reliable && AllNamed(Lines(old(heap.mem), headerList)) ==> headers != NULL
    ensures headers == NULL ==> heap.mem == old(heap.mem)
    ensures headers != NULL ==>
              && old(heap.next) <= headers < heap.next && headers !in heap.statics
              && heap.mem == old(heap.mem)[headers := NameList(Lines(old(heap.mem), headerList)) + "\0"]
  {
    hide CStr, RawNames, Blocks, Lower, IsString;
    ghost var hs := Lines(heap.mem, headerList);
    if headerList.Nil? {
      headers := heap.Malloc(1);
      if headers == NULL {
        return;
      }
      heap.Put(headers, 0, '\0');
      assert heap.mem[headers] == NameList(hs) + "\0";
      return;
    }
    var size := MeasureNames(heap, headerList);
    if size.None? {
      return NULL;
    }
    headers := JoinMeasured(heap, headerList, size.value);
  }

  /** What follows the first pass: the block, the second pass, and the lower-casing. */
  method JoinMeasured(heap: Heap, headerList: SList, size: nat) returns (headers: Ptr)
    requires heap.Valid() && headerList.Node? && Readable(heap.mem, headerList)
    requires AllNamed(Lines(heap.mem, headerList)) && size == |RawNames(Lines(heap.mem, headerList))| + 1
    requires NamesLowerable(heap.platform, Lines(heap.mem, headerList))
    modifies heap
    ensures heap.Valid() && heap.next >= old(heap.next)
    ensures heap.reliable ==> headers != NULL
    ensures headers == NULL ==> heap.mem == old(heap.mem)
    ensures headers != NULL ==>
              && old(heap.next) <= headers < heap.next && headers !in heap.statics
              && heap.mem == old(heap.mem)[headers := NameList(Lines(old(heap.mem), headerList)) + "\0"]
  {
    hide CStr, RawNames, Blocks, Lower, IsString, NameList, LowerDefined;
    ghost var hs := Lines(heap.mem, headerList);
    headers := heap.Malloc(size);
    if headers == NULL {
      return;
    }
    BlocksLive(old(heap.mem), headerList);
    LinesFrame(old(heap.mem), heap.mem, headerList);
    FillNames(heap, headerList, headers);
    RawNamesLowerable(heap.platform, hs);
    LowerRawNames(hs);
    RawNamesIsString(hs);
    CStrOfString(RawNames(hs));
    StrToLower(heap, headers);
    assert heap.mem[headers] == NameList(hs) + "\0";
  }

  /** The first pass of `joinHeaderNames`; None stands for its early return. */
  method MeasureNames(heap: Heap, headerList: SList) returns (size: Option<nat>)
    requires headerList.Node? && Readable(heap.mem, headerList)
    ensures size.Some? <==> AllNamed(Lines(heap.mem, headerList))
    ensures size.Some? ==> size.value == |RawNames(Lines(heap.mem, headerList))| + 1
  {
    var iter := headerList;
    var headersSize := 1;
    ghost var hs := Lines(heap.mem, headerList);
    while iter.Node?
      invariant Readable(heap.mem, iter)
      invariant AllNamed(hs) <==> AllNamed(Lines(heap.mem, iter))
      invariant headersSize + |RawNames(Lines(heap.mem, iter))| == 1 + |RawNames(hs)|
      decreases iter
    {
      ghost var rest := Lines(heap.mem, iter);
      assert rest[1..] == Lines(heap.mem, iter.next);
      var line := StringAt(heap.mem, iter.data);
      assert line == rest[0];
      var separator := Find(line, ':');
      if separator == |line| {
        return None;
      }
      assert forall i :: 0 < i < |rest| ==> rest[i] == rest[1..][i - 1];
      headersSize := headersSize + separator;
      iter := iter.next;
      if iter.Node? {
        headersSize := headersSize + 1;
      }
    }
    size := Some(headersSize);
  }

  /** The second pass of `joinHeaderNames`: every write is inside the block, and together they fill it. */
  method FillNames(heap: Heap, headerList: SList, headers: Ptr)
    requires heap.Valid() && headerList.Node? && Readable(heap.mem, headerList)
    requires AllNamed(Lines(heap.mem, headerList))
    requires heap.Owned(headers) && headers !in Blocks(headerList)
    requires |heap.mem[headers]| == |RawNames(Lines(heap.mem, headerList))| + 1
    modifies heap
    ensures heap.Valid() && heap.next == old(heap.next)
    ensures heap.mem == old(heap.mem)[headers := RawNames(Lines(old(heap.mem), headerList)) + "\0"]
  {
    var iter := headerList;
    var offset := 0;
    hide CStr, RawNames, AllNamed;
    ghost var m, block := heap.mem, heap.mem[headers];
    ghost var whole := Terminated(Lines(m, headerList));
    assert block[..0] + whole == whole;
    while iter.Node?
      invariant heap.Valid() && heap.next == old(heap.next)
      invariant heap.mem == m[headers := block] && |block| == |whole| && offset <= |whole|
      invariant Readable(m, iter) && headers !in Blocks(iter) && AllNamed(Lines(m, iter))
      invariant block[..offset] + Terminated(Lines(m, iter)) == whole
      decreases iter
    {
      TerminatedStep(block[..offset], Lines(m, iter), Lines(m, iter.next));
      var line := StringAt(heap.mem, iter.data);
      var separator := Find(line, ':');
      iter := iter.next;
      PlaceName(heap, headers, offset, line[..separator], if iter.Node? then ' ' else '\0');
      offset := offset + separator + 1;
      block := heap.mem[headers];
    }
    assert block[..offset] == whole;
    assert block == block[..offset];
  }

  /** One round of the second pass: the name and the separator behind it. */
  method PlaceName(heap: Heap, p: Ptr, offset: nat, name: string, separator: char)
    requires heap.Valid() && heap.Owned(p) && offset + |name| < |heap.mem[p]|
    modifies heap
    ensures heap.Valid() && heap.next == old(heap.next) && p in heap.mem
    ensures heap.mem == old(heap.mem)[p := heap.mem[p]] && |heap.mem[p]| == |old(heap.mem[p])|
    ensures heap.mem[p][..offset + |name| + 1] == old(heap.mem[p])[..offset] + name + [separator]
  {
    heap.Memcpy(p, offset, name);
    heap.Put(p, offset + |name|, separator);
  }

  /** What the second pass still has to write when `hs` are the headers that are left. */
  function Terminated(hs: seq<string>): string {
    if hs == [] then "" else RawNames(hs) + "\0"
  }

  lemma TerminatedStep(done: string, hs: seq<string>, next: seq<string>)
    requires hs != [] && next == hs[1..]
    ensures done + Terminated(hs) == (done + Name(hs[0]) + [if next == [] then '\0' else ' ']) + Terminated(next)
    ensures AllNamed(hs) ==> AllNamed(next)
  {
    assert forall i :: 0 <= i < |next| ==> next[i] == hs[i + 1];
    assert Terminated(hs) == Name(hs[0]) + [if next == [] then '\0' else ' '] + Terminated(next);
  }

  /** The state of the signing code: the heap, the keyed hash, and the static digest buffer of `hmac_sha512`. */
  class Signer {
    const heap: Heap
    const hmac: (CString, CString) -> Digest
    const hexDigest: array<char>

    ghost predicate Valid()
      reads this, heap
    {
      heap.Valid() && hexDigest.Length == 129
    }

    constructor (heap: Heap, hmac: (CString, CString) -> Digest)
      requires heap.Valid()
      ensures Valid() && this.heap == heap && this.hmac == hmac && fresh(hexDigest)
    {
      this.heap, this.hmac := heap, hmac;
      hexDigest := new char[129](_ => '\0');
    }

    /** `hmac_sha512`: hex-encodes the digest into the static buffer, two digits and a NUL at a time. */
    method HmacSha512(key: CString, message: CString)
      requires Valid()
      modifies hexDigest
      ensures hexDigest[..] == Hex(hmac(key, message)) + "\0"
    {
      var digest := hmac(key, message);
      var i := 0;
      while i < 64
        invariant 0 <= i <= 64
        invariant forall k :: 0 <= k < 2 * i ==> hexDigest[k] == HexChar(digest, k)
        invariant i > 0 ==> hexDigest[2 * i] == '\0'
      {
        hexDigest[i * 2] := HexDigit(digest[i] / 16);
        hexDigest[i * 2 + 1] := HexDigit(digest[i] % 16);
        hexDigest[i * 2 + 2] := '\0';
        i := i + 1;
      }
      assert hexDigest[..] == Hex(digest) + "\0";
    }

    /** `authHeader`; `body` may be NULL. */
    method AuthHeader(headers: SList, username: Ptr, key: Ptr, body: Ptr) returns (auth: Ptr)
      requires Valid() && Readable(heap.mem, headers) && NamesLowerable(heap.platform, Lines(heap.mem, headers))
      requires IsString(heap.mem, username) && IsString(heap.mem, key)
      requires body == NULL || IsString(heap.mem, body)
      modifies heap, hexDigest
      ensures Valid() && heap.next >= old(heap.next)
      ensures !AllNamed(Lines(old(heap.mem), headers)) ==> auth == NULL
      ensures heap.reliable && AllNamed(Lines(old(heap.mem), headers)) ==> auth != NULL
      ensures auth == NULL ==> heap.mem == old(heap.mem)
      ensures auth != NULL ==>
                var m, hs := old(heap.mem), Lines(old(heap.mem), headers);
                var text := SignedText(hmac, hs, StringAt(m, username), StringAt(m, key), TextAt(m, body));
                && old(heap.next) <= auth < heap.next && auth !in heap.statics
                && heap.mem == m[auth := text + "\0"]
                && IsString(heap.mem, auth) && StringAt(heap.mem, auth) == text
    {
      hide CStr, Readable, Lines, Blocks, Message, MessageText, NameList, AllNamed, AuthText, Hex, NamesLowerable;
      ghost var m, hs := heap.mem, Lines(heap.mem, headers);
      BlocksLive(m, headers);
      var headerNames := JoinHeaderNames(heap, headers);
      if headerNames == NULL {
        return NULL;
      }
      LinesFrame(m, heap.mem, headers);
      var signed := Sign(headers, key, body);
      if !signed {
        heap.Free(headerNames);
        assert heap.mem == m;
        return NULL;
      }
      CStrOfString(NameText(hs));
      CStrOfString(Hex(hmac(StringAt(m, key), Message(hs, TextAt(m, body)))));
      var authText := AuthText(StringAt(heap.mem, username), StringAt(heap.mem, headerNames), CStr(hexDigest[..]));
      auth := PrintToBlock(heap, authText);
      heap.Free(headerNames);
      assert auth == NULL ==> heap.mem == m;
      assert auth != NULL ==> heap.mem == m[auth := authText + "\0"];
    }

    /** The part of `authHeader` between the two buffers: assemble the message, hash it, release it. */
    method Sign(headers: SList, key: Ptr, body: Ptr) returns (signed: bool)
      requires Valid() && Readable(heap.mem, headers)
      requires IsString(heap.mem, key) && (body == NULL || IsString(heap.mem, body))
      modifies heap, hexDigest
      ensures Valid() && heap.next >= old(heap.next) && heap.mem == old(heap.mem)
      ensures heap.reliable ==> signed
      ensures var message := MessageText(Lines(heap.mem, headers), TextAt(heap.mem, body));
              signed ==> hexDigest[..] == Hex(hmac(StringAt(heap.mem, key), message)) + "\0"
    {
      hide CStr, Readable, Lines, Message, MessageText, Hex;
      ghost var m := heap.mem;
      var data := DataToSign(headers, body);
      if data == NULL {
        return false;
      }
      CStrOfString(MessageText(Lines(m, headers), TextAt(m, body)));
      HmacSha512(StringAt(heap.mem, key), StringAt(heap.mem, data));
      heap.Free(data);
      assert heap.mem == m;
      signed := true;
    }

    /** The measured allocation and the run of `strcat`s in `authHeader`. */
    method DataToSign(headers: SList, body: Ptr) returns (data: Ptr)
      requires Valid() && Readable(heap.mem, headers) && (body == NULL || IsString(heap.mem, body))
      modifies heap
      ensures Valid() && heap.next >= old(heap.next)
      ensures heap.reliable ==> data != NULL
      ensures data == NULL ==> heap.mem == old(heap.mem)
      ensures data != NULL ==>
                var message := Message(Lines(old(heap.mem), headers), TextAt(old(heap.mem), body));
                old(heap.next) <= data < heap.next && data !in heap.statics
                && heap.mem == old(heap.mem)[data := message + "\0"]
    {
      hide CStr, Readable, Lines, Blocks, Message;
      ghost var m := heap.mem;
      var size := MeasureData(heap, headers, body);
      data := heap.Malloc(size);
      if data == NULL {
        return;
      }
      BlocksLive(m, headers);
      LinesFrame(m, heap.mem, headers);
      FillData(heap, headers, body, data);
    }
  }

  /** The sizes added up before `data_to_sign` is allocated. */
  method MeasureData(heap: Heap, headers: SList, body: Ptr) returns (size: nat)
    requires Readable(heap.mem, headers) && (body == NULL || IsString(heap.mem, body))
    ensures size == |Message(Lines(heap.mem, headers), TextAt(heap.mem, body))| + 1
  {
    ghost var hs := Lines(heap.mem, headers);
    MessageSplits(hs, TextAt(heap.mem, body));
    size := 1;
    if body != NULL {
      size := size + |StringAt(heap.mem, body)|;
    }
    var iter := headers;
    while iter.Node?
      invariant Readable(heap.mem, iter)
      invariant size + |Message(Lines(heap.mem, iter), "")| == |Message(hs, TextAt(heap.mem, body))| + 1
      decreases iter
    {
      assert Lines(heap.mem, iter)[1..] == Lines(heap.mem, iter.next);
      size := size + |StringAt(heap.mem, iter.data)| + 1;
      iter := iter.next;
    }
  }

  /** The concatenations: each keeps a NUL-terminated prefix of the message inside the block, the last fills it. */
  method FillData(heap: Heap, headers: SList, body: Ptr, data: Ptr)
    requires heap.Valid() && Readable(heap.mem, headers) && (body == NULL || IsString(heap.mem, body))
    requires heap.Owned(data) && data !in Blocks(headers) && data != body
    requires |heap.mem[data]| == |Message(Lines(heap.mem, headers), TextAt(heap.mem, body))| + 1
    modifies heap
    ensures heap.Valid() && heap.next == old(heap.next)
    ensures var message := Message(Lines(old(heap.mem), headers), TextAt(old(heap.mem), body));
            heap.mem == old(heap.mem)[data := message + "\0"]
  {
    hide CStr, Message, Starts;
    ghost var m, text := heap.mem, TextAt(heap.mem, body);
    ghost var message := Message(Lines(m, headers), text);
    heap.Put(data, 0, '\0');
    ghost var block, sofar: CString := heap.mem[data], "";
    StartsFacts(block, "");
    var iter := headers;
    while iter.Node?
      invariant heap.Valid() && heap.next == old(heap.next)
      invariant Readable(m, iter) && data !in Blocks(iter)
      invariant heap.mem == m[data := block] && |block| == |message| + 1 && Starts(block, sofar)
      invariant sofar + Message(Lines(m, iter), text) == message
      decreases iter
    {
      MessageStep(sofar, Lines(m, iter), Lines(m, iter.next), text);
      ghost var line := StringAt(m, iter.data);
      AppendLine(heap, data, StringAt(heap.mem, iter.data), sofar);
      block, sofar := heap.mem[data], sofar + line + "\n";
      iter := iter.next;
    }
    MessageStep(sofar, [], [], text);
    StartsFacts(block, sofar);
    assert sofar + text == message;
    if body != NULL {
      heap.Strcat(data, StringAt(heap.mem, body));
    }
    StartsFacts(heap.mem[data], message);
  }

  lemma MessageStep(sofar: string, hs: seq<string>, next: seq<string>, body: string)
    requires hs != [] ==> next == hs[1..]
    ensures hs != [] ==> sofar + Message(hs, body) == (sofar + hs[0] + "\n") + Message(next, body)
    ensures hs == [] ==> Message(hs, body) == body
  {
    if hs != [] {
      assert sofar + (hs[0] + "\n" + Message(next, body)) == (sofar + hs[0] + "\n") + Message(next, body);
    }
  }

  /** One round of the loop of `strcat`s. */
  method AppendLine(heap: Heap, data: Ptr, line: CString, ghost sofar: CString)
    requires heap.Valid() && heap.Owned(data) && Starts(heap.mem[data], sofar)
    requires |sofar| + |line| + 1 < |heap.mem[data]|
    modifies heap
    ensures heap.Valid() && heap.next == old(heap.next) && data in heap.mem
    ensures heap.mem == old(heap.mem)[data := heap.mem[data]] && |heap.mem[data]| == |old(heap.mem[data])|
    ensures Starts(heap.mem[data], sofar + line + "\n")
  {
    hide CStr;
    StartsFacts(heap.mem[data], sofar);
    heap.Strcat(data, line);
    heap.Strcat(data, "\n");
    StartsFacts(heap.mem[data], sofar + line + "\n");
  }

  /** The block starts with this text and its NUL. */
  predicate Starts(block: string, s: string) {
    s + "\0" <= block
  }

  lemma StartsFacts(block: string, s: CString)
    ensures Starts(block, s) <==> '\0' in block && CStr(block) == s
    ensures block != "" && block[0] == '\0' ==> Starts(block, "")
    ensures Starts(block, s) && |block| == |s| + 1 ==> block == s + "\0"
  {
    if Starts(block, s) {
      assert block == s + "\0" + block[|s| + 1..];
      CStrOf(s, block[|s| + 1..]);
      assert block[|s|] == '\0';
    } else if '\0' in block {
      var i := Find(block, '\0');
      assert block == block[..i] + "\0" + block[i + 1..];
    }
  }

  /** The Authorization header over the lines `hs` and the body, given the keyed hash. */
  function SignedText(hmac: (CString, CString) -> Digest, hs: seq<CString>, user: CString, secret: CString,
                      body: CString): (text: CString)
  {
    AuthText(user, NameText(hs), Hex(hmac(secret, MessageText(hs, body))))
  }
}
