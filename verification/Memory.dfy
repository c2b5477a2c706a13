/** The C heap: blocks of characters, their life time, and the libc calls that the client makes on them. */
module Memory {
  import opened Text

  type Ptr = nat
  const NULL: Ptr := 0

  /** The live blocks and their contents; the length of a block is what was asked of `malloc`. */
  type Mem = map<Ptr, string>

  predicate IsString(m: Mem, p: Ptr) {
    p in m && '\0' in m[p]
  }

  function StringAt(m: Mem, p: Ptr): CString
    requires p in m
  {
    CStr(m[p])
  }

  /** What a pointer stands for that may be NULL. */
  function Contents(m: Mem, p: Ptr): Option<CString> {
    if p !in m then None else Some(StringAt(m, p))
  }

  /** The text of an optional string: NULL reads as the empty text. */
  function TextAt(m: Mem, p: Ptr): CString
    requires p == NULL || p in m
  {
    if p == NULL then "" else StringAt(m, p)
  }

  function Overwrite(b: string, at: nat, s: string): (r: string)
    requires at + |s| <= |b|
    ensures |r| == |b|
    ensures r[..at + |s|] == b[..at] + s
  {
    b[..at] + s + b[at + |s|..]
  }

  /**
   A pointer is never handed out twice, so a use or a second free of a dead block always shows as a pointer outside
   `mem`, which every operation excludes.
   The fields of Dafny objects are not in the heap: what guards them is the object's own `Valid`, which needs its block.
   */
  class Heap {
    var mem: Mem
    var next: Ptr
    /** Blocks of the program image (string literals): readable, never written, never freed. */
    const statics: set<Ptr>
    /** Whether every allocation succeeds. */
    const reliable: bool
    const platform: Platform

    ghost predicate Valid()
      reads this
    {
      && NULL < next
      && statics <= mem.Keys
      && forall p :: p in mem ==> NULL < p < next
    }

    ghost predicate Owned(p: Ptr)
      reads this
    {
      p in mem && p !in statics
    }

    constructor (image: Mem, reliable: bool, platform: Platform)
      requires NULL !in image
      ensures Valid() && mem == image && statics == image.Keys
      ensures this.reliable == reliable && this.platform == platform
    {
      mem, statics, this.reliable, this.platform := image, image.Keys, reliable, platform;
      new;
      var rest := image.Keys;
      next := 1;
      while rest != {}
        invariant NULL < next && mem == image && statics == image.Keys
        invariant this.reliable == reliable && this.platform == platform
        invariant forall p :: p in image ==> NULL < p && (p in rest || p < next)
        decreases |rest|
      {
        var p :| p in rest;
        rest := rest - {p};
        next := if p < next then next else p + 1;
      }
    }

    method Malloc(size: nat) returns (p: Ptr)
      requires Valid()
      modifies this
      ensures Valid() && next >= old(next)
      ensures reliable && (size > 0 || platform.emptyBlocks) ==> p != NULL
      ensures size == 0 && !platform.emptyBlocks ==> p == NULL
      ensures p == NULL ==> mem == old(mem)
      ensures p != NULL ==> old(next) <= p < next && p in mem && |mem[p]| == size && p !in statics
                            && mem == old(mem)[p := mem[p]]
    {
      var lucky: bool := *;
      var junk: char := *;
      if (!reliable && !lucky) || (size == 0 && !platform.emptyBlocks) {
        return NULL;
      }
      p := next;
      mem := mem[p := seq(size, _ => junk)];
      next := next + 1;
    }

    method Realloc(p: Ptr, size: nat) returns (q: Ptr)
      requires Valid() && reliable && Owned(p) && |mem[p]| <= size && size > 0
      modifies this
      ensures Valid() && next >= old(next)
      ensures old(next) <= q < next && q in mem && |mem[q]| == size && q !in statics
      ensures mem[q][..|old(mem[p])|] == old(mem[p])
      ensures mem == (old(mem) - {p})[q := mem[q]]
    {
      var b := mem[p];
      q := Malloc(size);
      Memcpy(q, 0, b);
      Free(p);
    }

    /** `free`, which accepts NULL. */
    method Free(p: Ptr)
      requires Valid() && (p == NULL || Owned(p))
      modifies this
      ensures Valid() && next == old(next) && mem == old(mem) - {p}
    {
      mem := mem - {p};
    }

    method Put(p: Ptr, i: nat, c: char)
      requires Valid() && Owned(p) && i < |mem[p]|
      modifies this
      ensures Valid() && next == old(next) && mem == old(mem)[p := old(mem[p])[i := c]]
    {
      mem := mem[p := mem[p][i := c]];
    }

    method Memcpy(p: Ptr, at: nat, s: string)
      requires Valid() && Owned(p) && at + |s| <= |mem[p]|
      modifies this
      ensures Valid() && next == old(next) && mem == old(mem)[p := Overwrite(old(mem[p]), at, s)]
    {
      mem := mem[p := Overwrite(mem[p], at, s)];
    }

    /** `strcat`: the destination must hold a string with room for the source and its NUL. */
    method Strcat(p: Ptr, s: CString)
      requires Valid() && Owned(p) && IsString(mem, p)
      requires |StringAt(mem, p)| + |s| < |mem[p]|
      modifies this
      ensures Valid() && next == old(next)
      ensures mem == old(mem)[p := Overwrite(old(mem[p]), |StringAt(old(mem), p)|, s + "\0")]
      ensures IsString(mem, p) && StringAt(mem, p) == StringAt(old(mem), p) + s
    {
      var t := StringAt(mem, p);
      var b := mem[p];
      mem := mem[p := Overwrite(b, |t|, s + "\0")];
      var rest := b[|t| + |s| + 1..];
      assert mem[p] == (t + s) + "\0" + rest;
      CStrOf(t + s, rest);
      assert mem[p][|t + s|] == '\0';
    }

    /** `snprintf` of the text `s` into `size` bytes; `s` is what the format produces. */
    method Snprintf(p: Ptr, size: nat, s: CString) returns (length: nat)
      requires Valid() && (size > 0 ==> Owned(p) && size <= |mem[p]|)
      modifies this
      ensures Valid() && next == old(next) && length == |s|
      ensures size == 0 ==> mem == old(mem)
      ensures 0 < size <= |s| ==> mem == old(mem)[p := Overwrite(old(mem[p]), 0, s[..size - 1] + "\0")]
      ensures size > |s| ==> mem == old(mem)[p := Overwrite(old(mem[p]), 0, s + "\0")]
    {
      length := |s|;
      if size > 0 {
        var t := if size <= |s| then s[..size - 1] else s;
        mem := mem[p := Overwrite(mem[p], 0, t + "\0")];
      }
    }

    /** Reads a string, to compare it or to print it. */
    method Load(p: Ptr) returns (s: CString)
      requires IsString(mem, p)
      ensures s == StringAt(mem, p)
    {
      s := StringAt(mem, p);
    }

    method Strdup(s: CString) returns (p: Ptr)
      requires Valid() && reliable
      modifies this
      ensures Valid() && next >= old(next)
      ensures old(next) <= p < next && p !in statics && mem == old(mem)[p := s + "\0"]
      ensures IsString(mem, p) && StringAt(mem, p) == s
    {
      hide CStr;
      p := Malloc(|s| + 1);
      Memcpy(p, 0, s + "\0");
      assert mem[p] == s + "\0";
      CStrOfString(s);
    }
  }

  /**
   The idiom `length = snprintf(NULL, 0, ...); p = malloc(length + 1); snprintf(p, length + 1, ...)`: the block is
   exactly as long as the text and its NUL.
   */
  method PrintToBlock(heap: Heap, s: CString) returns (p: Ptr)
    requires heap.Valid()
    modifies heap
    ensures heap.Valid() && heap.next >= old(heap.next)
    ensures heap.reliable ==> p != NULL
    ensures p == NULL ==> heap.mem == old(heap.mem)
    ensures p != NULL ==> old(heap.next) <= p < heap.next && p !in heap.statics
                          && heap.mem == old(heap.mem)[p := s + "\0"]
                          && IsString(heap.mem, p) && StringAt(heap.mem, p) == s
  {
    hide CStr;
    var length := heap.Snprintf(NULL, 0, s);
    p := heap.Malloc(length + 1);
    if p == NULL {
      return;
    }
    var printed := heap.Snprintf(p, length + 1, s);
    assert printed < length + 1 && heap.mem[p] == s + "\0";
    CStrOfString(s);
  }
}
