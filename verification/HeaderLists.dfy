/** `struct curl_slist`: a linked list whose nodes each own a copy of their string. */
module HeaderLists {
  import opened Text
  import opened Memory

  datatype SList = Nil | Node(data: Ptr, next: SList)

  function Blocks(l: SList): set<Ptr> {
    match l
    case Nil => {}
    case Node(data, next) => {data} + Blocks(next)
  }

  predicate Distinct(l: SList) {
    l.Node? ==> l.data !in Blocks(l.next) && Distinct(l.next)
  }

  predicate Readable(m: Mem, l: SList) {
    l.Node? ==> IsString(m, l.data) && Readable(m, l.next)
  }

  /** The strings of the list in order. */
  function Lines(m: Mem, l: SList): seq<CString>
    requires Readable(m, l)
  {
    match l
    case Nil => []
    case Node(data, next) => [StringAt(m, data)] + Lines(m, next)
  }

  function Append(l: SList, p: Ptr): SList {
    match l
    case Nil => Node(p, Nil)
    case Node(data, next) => Node(data, Append(next, p))
  }

  lemma {:induction false} LinesFrame(m: Mem, m': Mem, l: SList)
    requires Readable(m, l)
    requires forall p :: p in Blocks(l) ==> p in m && p in m' && m'[p] == m[p]
    ensures Readable(m', l) && Lines(m', l) == Lines(m, l)
  {
    if l.Node? {
      LinesFrame(m, m', l.next);
    }
  }

  lemma {:induction false} BlocksLive(m: Mem, l: SList)
    requires Readable(m, l)
    ensures Blocks(l) <= m.Keys
  {
    if l.Node? {
      BlocksLive(m, l.next);
    }
  }

  lemma {:induction false} AppendFacts(m: Mem, l: SList, p: Ptr)
    requires Readable(m, l) && IsString(m, p) && p !in Blocks(l) && Distinct(l)
    ensures Blocks(Append(l, p)) == Blocks(l) + {p} && Distinct(Append(l, p))
    ensures Readable(m, Append(l, p)) && Lines(m, Append(l, p)) == Lines(m, l) + [StringAt(m, p)]
  {
    if l.Node? {
      AppendFacts(m, l.next, p);
    }
  }

  /** A list in memory: readable, owned block by block, no block twice. */
  ghost predicate ListValid(heap: Heap, l: SList)
    reads heap
  {
    Readable(heap.mem, l) && Distinct(l) && Blocks(l) !! heap.statics
  }

  /** `curl_slist_append`: stores a copy of the string at the end. */
  method SlistAppend(heap: Heap, l: SList, s: CString) returns (l': SList)
    requires heap.Valid() && heap.reliable && ListValid(heap, l)
    modifies heap
    ensures heap.Valid() && heap.next >= old(heap.next)
    ensures ListValid(heap, l') && l'.Node?
    ensures Lines(heap.mem, l') == Lines(old(heap.mem), l) + [s]
    ensures exists p :: old(heap.next) <= p < heap.next && Blocks(l') == Blocks(l) + {p}
                        && heap.mem == old(heap.mem)[p := s + "\0"]
    ensures heap.mem - Blocks(l') == old(heap.mem) - Blocks(l)
  {
    BlocksLive(heap.mem, l);
    var p := heap.Strdup(s);
    LinesFrame(old(heap.mem), heap.mem, l);
    AppendFacts(heap.mem, l, p);
    l' := Append(l, p);
    assert heap.mem - Blocks(l') == old(heap.mem) - Blocks(l);
  }

  /** `curl_slist_free_all`. */
  method SlistFreeAll(heap: Heap, l: SList)
    requires heap.Valid() && ListValid(heap, l)
    modifies heap
    ensures heap.Valid() && heap.next == old(heap.next)
    ensures heap.mem == old(heap.mem) - Blocks(l)
  {
    var iter := l;
    BlocksLive(heap.mem, l);
    while iter.Node?
      invariant heap.Valid() && heap.next == old(heap.next) && Distinct(iter)
      invariant Blocks(iter) <= Blocks(l) <= old(heap.mem).Keys
      invariant heap.mem == old(heap.mem) - (Blocks(l) - Blocks(iter))
      decreases iter
    {
      heap.Free(iter.data);
      iter := iter.next;
    }
  }
}
