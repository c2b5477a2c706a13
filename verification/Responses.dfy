/** `struct Response` and the libcurl callbacks that fill it. */
module Responses {
  import opened Text
  import opened Memory
  import opened HeaderLists

  /** One call of libcurl into the client during a transfer. */
  datatype Callback = HeaderLine(line: string) | BodyChunk(chunk: string)

  function ChunksOf(calls: seq<Callback>): seq<string> {
    if calls == [] then []
    else if calls[0].BodyChunk? then [calls[0].chunk] + ChunksOf(calls[1..])
    else ChunksOf(calls[1..])
  }

  /** The stored headers: the lines with a colon, each cut at its first NUL. */
  function HeadersOf(calls: seq<Callback>): seq<CString> {
    if calls == [] then []
    else if calls[0].HeaderLine? then StoredLine(calls[0].line) + HeadersOf(calls[1..])
    else HeadersOf(calls[1..])
  }

  function StoredLine(line: string): seq<CString> {
    if Find(line, ':') < |line| then [CStr(line + "\0")] else []
  }

  const RESPONSE_SIZE: nat := 32

  class Response {
    /** The block of the structure itself. */
    const self: Ptr
    var body: Ptr
    var bodyLen: nat
    var headers: SList
    var status: int

    /** The blocks that the response owns. */
    ghost function Repr(): set<Ptr>
      reads this
    {
      {self} + BodyBlock() + Blocks(headers)
    }

    ghost function BodyBlock(): set<Ptr>
      reads this
    {
      if body == NULL then {} else {body}
    }

    ghost predicate Valid(heap: Heap)
      reads this, heap
    {
      && heap.Valid() && heap.Owned(self)
      && ListValid(heap, headers)
      && self !in Blocks(headers) && self != body && body !in Blocks(headers)
      && (body == NULL ==> bodyLen == 0)
      && (body != NULL ==> heap.Owned(body) && |heap.mem[body]| == bodyLen + 2
                           && heap.mem[body][bodyLen] == '\n' && heap.mem[body][bodyLen + 1] == '\0')
    }

    /** The bytes received so far. */
    ghost function Payload(heap: Heap): string
      requires Valid(heap)
      reads this, heap
    {
      if body == NULL then "" else heap.mem[body][..bodyLen]
    }

    ghost function Headers(heap: Heap): seq<CString>
      requires Valid(heap)
      reads this, heap
    {
      Lines(heap.mem, headers)
    }

    /** `create_response`. */
    constructor (heap: Heap)
      requires heap.Valid() && heap.reliable
      modifies heap
      ensures Valid(heap) && heap.next >= old(heap.next)
      ensures body == NULL && headers == Nil && status == 0
      ensures heap.mem - Repr() == old(heap.mem)
    {
      var p := heap.Malloc(RESPONSE_SIZE);
      self := p;
      body, bodyLen, headers, status := NULL, 0, Nil, 0;
      new;
      assert heap.mem - {p} == old(heap.mem);
    }

    /** `free_response`. */
    method Free(heap: Heap)
      requires Valid(heap)
      modifies heap
      ensures heap.Valid() && heap.next == old(heap.next)
      ensures heap.mem == old(heap.mem) - old(Repr())
    {
      hide Lines, CStr;
      ListSurvives(heap.mem, headers, body);
      if body != NULL {
        heap.Free(body);
      }
      SlistFreeAll(heap, headers);
      heap.Free(self);
    }

    /** `write_callback`: the body stays the payload followed by a newline and a NUL, in a block of just that size. */
    method WriteCallback(heap: Heap, chunk: string) returns (length: nat)
      requires Valid(heap) && heap.reliable
      modifies heap, `body, `bodyLen
      ensures Valid(heap) && heap.next >= old(heap.next) && length == |chunk|
      ensures body != NULL && bodyLen == old(bodyLen) + |chunk|
      ensures Payload(heap) == old(Payload(heap)) + chunk
      ensures Headers(heap) == old(Headers(heap))
      ensures heap.mem - Repr() == old(heap.mem - Repr())
    {
      hide Lines, Readable, CStr;
      ghost var m, payload := heap.mem, Payload(heap);
      BlocksLive(m, headers);
      length := |chunk|;
      body := AppendChunk(heap, body, bodyLen, chunk);
      bodyLen := bodyLen + length;
      LinesFrame(m, heap.mem, headers);
      assert heap.mem[body][..bodyLen] == payload + chunk;
    }

    /** `header_callback`. */
    method HeaderCallback(heap: Heap, line: string) returns (length: nat)
      requires Valid(heap) && heap.reliable
      modifies heap, `headers
      ensures Valid(heap) && heap.next >= old(heap.next) && length == |line|
      ensures Headers(heap) == old(Headers(heap)) + StoredLine(line)
      ensures body == old(body) && Payload(heap) == old(Payload(heap))
      ensures heap.mem - Repr() == old(heap.mem - Repr())
    {
      hide Lines, Readable, CStr, Find;
      BlocksLive(heap.mem, headers);
      length := |line|;
      if Find(line, ':') == |line| {
        return;
      }
      headers := StoreLine(heap, headers, line);
    }

    /** What happens to the blocks of others does not touch the response. */
    twostate lemma Kept(heap: Heap)
      requires old(Valid(heap)) && heap.Valid() && unchanged(this)
      requires forall p :: p in Repr() ==> p in old(heap.mem) && p in heap.mem && heap.mem[p] == old(heap.mem)[p]
      ensures Valid(heap) && Payload(heap) == old(Payload(heap)) && Headers(heap) == old(Headers(heap))
    {
      BlocksLive(old(heap.mem), headers);
      LinesFrame(old(heap.mem), heap.mem, headers);
    }

    lemma ReprLive(heap: Heap)
      requires Valid(heap)
      ensures Repr() <= heap.mem.Keys && Repr() !! heap.statics
    {
      BlocksLive(heap.mem, headers);
    }

    /** A whole transfer: libcurl calls back in any order, then the status is read. */
    method Receive(heap: Heap, calls: seq<Callback>, status: int)
      requires Valid(heap) && heap.reliable && body == NULL && headers == Nil
      modifies heap, `body, `bodyLen, `headers, `status
      ensures Valid(heap) && heap.next >= old(heap.next) && this.status == status
      ensures body == NULL <==> ChunksOf(calls) == []
      ensures Payload(heap) == Flatten(ChunksOf(calls))
      ensures Headers(heap) == HeadersOf(calls)
      ensures heap.mem - Repr() == old(heap.mem - Repr())
    {
      hide ChunksOf, HeadersOf, StoredLine, Flatten, Lines, Readable, CStr;
      var i := 0;
      assert calls[0..] == calls && Payload(heap) == "" && Headers(heap) == [] by {
        NoLines(heap.mem);
      }
      while i < |calls|
        invariant 0 <= i <= |calls|
        invariant Valid(heap) && heap.next >= old(heap.next)
        invariant body == NULL ==> ChunksOf(calls) == ChunksOf(calls[i..])
        invariant body != NULL ==> ChunksOf(calls) != []
        invariant Payload(heap) + Flatten(ChunksOf(calls[i..])) == Flatten(ChunksOf(calls))
        invariant Headers(heap) + HeadersOf(calls[i..]) == HeadersOf(calls)
        invariant heap.mem - Repr() == old(heap.mem - Repr())
      {
        StepOf(calls[i..], calls[i + 1..], Payload(heap), Headers(heap));
        Dispatch(heap, calls[i]);
        i := i + 1;
      }
      assert calls[i..] == [];
      NoCalls();
      this.status := status;
    }

    /** One callback. */
    method Dispatch(heap: Heap, call: Callback)
      requires Valid(heap) && heap.reliable
      modifies heap, `body, `bodyLen, `headers
      ensures Valid(heap) && heap.next >= old(heap.next)
      ensures Payload(heap) == old(Payload(heap)) + (if call.BodyChunk? then call.chunk else "")
      ensures Headers(heap) == old(Headers(heap)) + (if call.HeaderLine? then StoredLine(call.line) else [])
      ensures body == NULL <==> old(body) == NULL && call.HeaderLine?
      ensures heap.mem - Repr() == old(heap.mem - Repr())
    {
      match call
      case HeaderLine(line) => var length := HeaderCallback(heap, line);
      case BodyChunk(chunk) => var length := WriteCallback(heap, chunk);
    }
  }

  lemma NoLines(m: Mem)
    ensures Lines(m, Nil) == []
  {
  }

  lemma NoCalls()
    ensures ChunksOf([]) == [] && HeadersOf([]) == [] && Flatten([]) == ""
  {
  }

  lemma Associative<T>(a: seq<T>, b: seq<T>, c: seq<T>)
    ensures a + (b + c) == (a + b) + c
  {
  }

  lemma StepOf(calls: seq<Callback>, next: seq<Callback>, payload: string, headers: seq<CString>)
    requires calls != [] && next == calls[1..]
    ensures calls[0].HeaderLine? ==>
              && ChunksOf(calls) == ChunksOf(next)
              && headers + HeadersOf(calls) == (headers + StoredLine(calls[0].line)) + HeadersOf(next)
    ensures calls[0].BodyChunk? ==>
              && HeadersOf(calls) == HeadersOf(next) && ChunksOf(calls) != []
              && payload + Flatten(ChunksOf(calls)) == (payload + calls[0].chunk) + Flatten(ChunksOf(next))
  {
    hide CStr, StoredLine;
    match calls[0]
    case HeaderLine(line) =>
      Associative(headers, StoredLine(line), HeadersOf(next));
    case BodyChunk(chunk) =>
      assert ChunksOf(calls)[0] == chunk && ChunksOf(calls)[1..] == ChunksOf(next);
      Associative(payload, chunk, Flatten(ChunksOf(next)));
  }

  /** Allocates the body, or moves it into a larger block. */
  method GrowBlock(heap: Heap, p: Ptr, size: nat) returns (q: Ptr)
    requires heap.Valid() && heap.reliable && size > 0
    requires p != NULL ==> heap.Owned(p) && |heap.mem[p]| <= size
    modifies heap
    ensures heap.Valid() && heap.next >= old(heap.next) && old(heap.next) <= q < heap.next && q !in heap.statics
    ensures q in heap.mem && |heap.mem[q]| == size && heap.mem == (old(heap.mem) - {p})[q := heap.mem[q]]
    ensures p != NULL ==> heap.mem[q][..|old(heap.mem[p])|] == old(heap.mem[p])
  {
    if p == NULL {
      q := heap.Malloc(size);
      assert old(heap.mem) - {p} == old(heap.mem);
    } else {
      q := heap.Realloc(p, size);
    }
  }

  /** The work of `write_callback` on the block: grow, append, terminate. */
  method AppendChunk(heap: Heap, p: Ptr, length: nat, chunk: string) returns (q: Ptr)
    requires heap.Valid() && heap.reliable
    requires p == NULL ==> length == 0
    requires p != NULL ==> heap.Owned(p) && |heap.mem[p]| == length + 2
    modifies heap
    ensures heap.Valid() && heap.next >= old(heap.next) && old(heap.next) <= q < heap.next && q !in heap.statics
    ensures var payload := if p == NULL then "" else old(heap.mem[p])[..length];
            heap.mem == (old(heap.mem) - {p})[q := payload + chunk + "\n\0"]
  {
    ghost var payload := if p == NULL then "" else heap.mem[p][..length];
    q := GrowBlock(heap, p, length + |chunk| + 2);
    assert heap.mem[q][..length] == payload;
    heap.Memcpy(q, length, chunk);
    heap.Put(q, length + |chunk|, '\n');
    heap.Put(q, length + |chunk| + 1, '\0');
    assert heap.mem[q] == payload + chunk + "\n\0";
  }

  /** The body of `header_callback` behind its filter: a terminated copy, appended, and released again. */
  method StoreLine(heap: Heap, l: SList, line: string) returns (l': SList)
    requires heap.Valid() && heap.reliable && ListValid(heap, l)
    modifies heap
    ensures heap.Valid() && heap.next >= old(heap.next) && ListValid(heap, l')
    ensures Lines(heap.mem, l') == Lines(old(heap.mem), l) + [CStr(line + "\0")]
    ensures exists p :: old(heap.next) <= p < heap.next && Blocks(l') == Blocks(l) + {p}
                        && heap.mem == old(heap.mem)[p := CStr(line + "\0") + "\0"]
  {
    hide Lines, CStr;
    ghost var m := heap.mem;
    BlocksLive(m, l);
    var header := CopyLine(heap, line);
    LinesFrame(m, heap.mem, l);
    ghost var m1 := heap.mem;
    l' := SlistAppend(heap, l, StringAt(heap.mem, header));
    ghost var p :| header < p < heap.next && Blocks(l') == Blocks(l) + {p}
                   && heap.mem == m1[p := StringAt(m1, header) + "\0"];
    ghost var m2 := heap.mem;
    heap.Free(header);
    LinesFrame(m2, heap.mem, l');
    assert heap.mem == m[p := CStr(line + "\0") + "\0"];
  }

  method CopyLine(heap: Heap, line: string) returns (header: Ptr)
    requires heap.Valid() && heap.reliable
    modifies heap
    ensures heap.Valid() && heap.next >= old(heap.next)
    ensures old(heap.next) <= header < heap.next && header !in heap.statics
    ensures heap.mem == old(heap.mem)[header := line + "\0"]
  {
    header := heap.Malloc(|line| + 1);
    heap.Memcpy(header, 0, line);
    heap.Put(header, |line|, '\0');
    assert heap.mem[header] == line + "\0";
  }

  lemma ListSurvives(m: Mem, l: SList, p: Ptr)
    requires Readable(m, l) && p !in Blocks(l)
    ensures Readable(m - {p}, l)
  {
    BlocksLive(m, l);
    LinesFrame(m, m - {p}, l);
  }

  // ----- What a transfer leaves behind -----

  /** The body as a C program reads it; None when no chunk ever came and the pointer is still NULL. */
  function BodyText(calls: seq<Callback>): Option<CString> {
    if ChunksOf(calls) == [] then None else Some(CStr(Flatten(ChunksOf(calls)) + "\n\0"))
  }

  /** The text that remains when the last character of the copied body is overwritten. */
  function WithoutLast(s: CString): CString
    requires s != ""
  {
    var t := s[..|s| - 1];
    t
  }

  lemma BodyTextExact(calls: seq<Callback>)
    requires ChunksOf(calls) != []
    ensures BodyText(calls) == Some(Flatten(ChunksOf(calls)) + "\n") <==> '\0' !in Flatten(ChunksOf(calls))
    ensures BodyText(calls) == Some("") <==> Flatten(ChunksOf(calls)) != "" && Flatten(ChunksOf(calls))[0] == '\0'
  {
    var payload := Flatten(ChunksOf(calls));
    assert payload + "\n\0" == (payload + "\n") + "\0";
    CutAtNul(payload + "\n");
    assert (payload + "\n")[|payload|] == '\n';
    assert forall k :: 0 <= k < |payload| ==> (payload + "\n")[k] == payload[k];
  }

  /**
   Key fidelity: the newline that `write_callback` maintains is the character that `request_key` removes, so the key
   that is handed on is what the server sent, however it was cut into chunks; exactly for keys without NUL.
   */
  lemma KeyExact(calls: seq<Callback>)
    requires BodyText(calls).Some? && BodyText(calls).value != ""
    ensures WithoutLast(BodyText(calls).value) == Flatten(ChunksOf(calls)) <==> '\0' !in Flatten(ChunksOf(calls))
  {
    var payload := Flatten(ChunksOf(calls));
    BodyTextExact(calls);
    if '\0' in payload {
      var k :| 0 <= k < |payload| && payload[k] == '\0';
      assert (payload + "\n\0")[k] == '\0';
      assert |BodyText(calls).value| <= k;
    }
  }

  /** Cutting one chunk in two, or putting two together, changes nothing that is kept. */
  lemma ChunkingIrrelevant(before: seq<Callback>, a: string, b: string, after: seq<Callback>)
    ensures var joined := before + [BodyChunk(a + b)] + after;
            var split := before + [BodyChunk(a), BodyChunk(b)] + after;
            && BodyText(split) == BodyText(joined) && HeadersOf(split) == HeadersOf(joined)
            && Flatten(ChunksOf(split)) == Flatten(ChunksOf(joined))
  {
    var joined := before + [BodyChunk(a + b)] + after;
    var split := before + [BodyChunk(a), BodyChunk(b)] + after;
    CallsConcat(before + [BodyChunk(a + b)], after);
    CallsConcat(before, [BodyChunk(a + b)]);
    CallsConcat(before + [BodyChunk(a), BodyChunk(b)], after);
    CallsConcat(before, [BodyChunk(a), BodyChunk(b)]);
    CallsConcat([BodyChunk(a)], [BodyChunk(b)]);
    assert [BodyChunk(a)] + [BodyChunk(b)] == [BodyChunk(a), BodyChunk(b)];
    SingleChunk(a);
    SingleChunk(b);
    SingleChunk(a + b);
  }

  lemma SingleChunk(a: string)
    ensures ChunksOf([BodyChunk(a)]) == [a] && HeadersOf([BodyChunk(a)]) == [] && Flatten([a]) == a
  {
  }

  lemma {:induction false} CallsConcat(a: seq<Callback>, b: seq<Callback>)
    ensures ChunksOf(a + b) == ChunksOf(a) + ChunksOf(b)
    ensures HeadersOf(a + b) == HeadersOf(a) + HeadersOf(b)
    ensures Flatten(ChunksOf(a + b)) == Flatten(ChunksOf(a)) + Flatten(ChunksOf(b))
  {
    hide CStr, Flatten, StoredLine;
    if a == [] {
      assert a + b == b;
    } else {
      assert (a + b)[0] == a[0] && (a + b)[1..] == a[1..] + b;
      CallsConcat(a[1..], b);
    }
    FlattenConcat(ChunksOf(a), ChunksOf(b));
  }

  /** The stored list keeps a transfer's colon lines, in order and whole, exactly when they carry no NUL. */
  lemma {:induction false} HeadersExact(calls: seq<Callback>)
    ensures |HeadersOf(calls)| == |ColonLines(calls)|
    ensures HeadersOf(calls) == ColonLines(calls)
            <==> forall i :: 0 <= i < |ColonLines(calls)| ==> '\0' !in ColonLines(calls)[i]
  {
    if calls != [] {
      HeadersExact(calls[1..]);
      var rest := ColonLines(calls[1..]);
      if calls[0].HeaderLine? && ':' in calls[0].line {
        CutAtNul(calls[0].line);
        assert ColonLines(calls)[0] == calls[0].line && ColonLines(calls)[1..] == rest;
        assert HeadersOf(calls)[1..] == HeadersOf(calls[1..]);
        assert forall i :: 0 <= i < |rest| ==> rest[i] == ColonLines(calls)[i + 1];
      } else {
        assert ColonLines(calls) == rest && HeadersOf(calls) == HeadersOf(calls[1..]);
      }
    }
  }

  /** The header lines of a transfer that contain a colon. */
  function ColonLines(calls: seq<Callback>): seq<string> {
    if calls == [] then []
    else if calls[0].HeaderLine? && ':' in calls[0].line then [calls[0].line] + ColonLines(calls[1..])
    else ColonLines(calls[1..])
  }
}
