/** `get_content_type`: the first stored header that starts with `content-type`, cleaned and lower-cased. */
module ContentType {
  import opened Text
  import opened Memory
  import opened HeaderLists
  import opened Signing

  const NEEDLE: CString := "content-type"

  /** `iter->data == strcasestr(iter->data, needle)`. */
  predicate StartsWithNeedle(line: string) {
    |line| >= |NEEDLE| && Lower(line[..|NEEDLE|]) == NEEDLE
  }

  /** The text behind the leading colons and spaces. */
  function Skip(s: string): (r: string)
    ensures |r| <= |s| && r == s[|s| - |r|..]
    ensures r != "" ==> r[0] != ':' && r[0] != ' '
  {
    if s != "" && (s[0] == ':' || s[0] == ' ') then Skip(s[1..]) else s
  }

  /** The part of a content-type line that is measured before its last two characters are dropped. */
  function Source(line: string): string
    requires StartsWithNeedle(line)
  {
    Skip(line[|NEEDLE|..])
  }

  /** The position of the line that is used; the number of lines when there is none. */
  function Selected(lines: seq<string>): (i: nat)
    ensures i <= |lines|
    ensures i < |lines| ==> StartsWithNeedle(lines[i])
    ensures forall k :: 0 <= k < i ==> !StartsWithNeedle(lines[k])
  {
    if lines == [] || StartsWithNeedle(lines[0]) then 0 else 1 + Selected(lines[1..])
  }

  /**
   What has a defined result. The subtraction `strlen(source) - 2` is meant for a line that ends in CR LF; with one
   character left it wraps around to the largest `size_t`, and as many bytes are copied into what `malloc(0)` gives. The
   value is lower-cased character by character.
   */
  predicate LineDefined(platform: Platform, line: string)
    requires StartsWithNeedle(line)
  {
    var source := Source(line);
    if |source| < 2 then |source| == 0 || !platform.emptyBlocks else LowerDefined(platform, source[..|source| - 2])
  }

  predicate Defined(platform: Platform, lines: seq<string>) {
    Selected(lines) < |lines| ==> LineDefined(platform, lines[Selected(lines)])
  }

  /**
   The value in a content-type line. With nothing left the size wraps around to more than `malloc` can serve; with one
   character left it is 0, and there is no value when that gives no block.
   */
  function ValueOf(line: string): Option<string>
    requires StartsWithNeedle(line)
  {
    var source := Source(line);
    if |source| < 2 then None else Some(Lower(source[..|source| - 2]))
  }

  function ContentTypeOf(lines: seq<string>): Option<string> {
    var i := Selected(lines);
    if i == |lines| then None else ValueOf(lines[i])
  }

  /** What a result of `get_content_type` is: NULL, or a new block with the value. */
  ghost predicate IsValue(m: Mem, p: Ptr, found: Option<string>, m0: Mem) {
    if found.None? then p == NULL && m == m0
    else p !in m0 && p != NULL && m == m0[p := found.value + "\0"] && IsString(m, p)
  }

  /** `get_content_type`. */
  method GetContentType(heap: Heap, headers: SList) returns (contentType: Ptr)
    requires heap.Valid() && heap.reliable && Readable(heap.mem, headers)
    requires Defined(heap.platform, Lines(heap.mem, headers))
    modifies heap
    ensures heap.Valid() && heap.next >= old(heap.next) && contentType !in heap.statics
    ensures IsValue(heap.mem, contentType, ContentTypeOf(Lines(old(heap.mem), headers)), old(heap.mem))
  {
    hide CStr, StartsWithNeedle, Source, ValueOf, LineDefined, Defined, ContentTypeOf, IsValue, Selected;
    ghost var lines := Lines(heap.mem, headers);
    var iter := headers;
    ghost var i := 0;
    assert lines[0..] == lines;
    while iter.Node?
      invariant unchanged(heap)
      invariant Readable(heap.mem, iter) && i <= |lines| && Lines(heap.mem, iter) == lines[i..]
      invariant forall k :: 0 <= k < i ==> !StartsWithNeedle(lines[k])
      decreases iter
    {
      assert lines[i..][0] == lines[i] && lines[i..][1..] == lines[i + 1..];
      var line := heap.Load(iter.data);
      assert line == lines[i];
      if StartsWithNeedle(line) {
        SelectedIs(heap.platform, lines, i);
        contentType := CopySource(heap, iter.data);
        return;
      }
      iter := iter.next;
      i := i + 1;
    }
    SelectedIs(heap.platform, lines, i);
    NoValue(heap);
    contentType := NULL;
  }

  lemma NoValue(heap: Heap)
    requires heap.Valid()
    ensures IsValue(heap.mem, NULL, None, heap.mem) && NULL !in heap.statics
  {
  }

  lemma SelectedIs(platform: Platform, lines: seq<string>, i: nat)
    requires Defined(platform, lines) && i <= |lines| && forall k :: 0 <= k < i ==> !StartsWithNeedle(lines[k])
    requires i < |lines| ==> StartsWithNeedle(lines[i])
    ensures i < |lines| ==> LineDefined(platform, lines[i]) && ContentTypeOf(lines) == ValueOf(lines[i])
    ensures i == |lines| ==> ContentTypeOf(lines) == None
  {
    SelectedUnique(lines, i);
  }

  lemma SelectedUnique(lines: seq<string>, i: nat)
    requires i <= |lines| && forall k :: 0 <= k < i ==> !StartsWithNeedle(lines[k])
    requires i < |lines| ==> StartsWithNeedle(lines[i])
    ensures Selected(lines) == i
  {
  }

  /** The branch of `get_content_type` for the line at `data`. */
  method CopySource(heap: Heap, data: Ptr) returns (contentType: Ptr)
    requires heap.Valid() && heap.reliable && IsString(heap.mem, data) && StartsWithNeedle(StringAt(heap.mem, data))
    requires LineDefined(heap.platform, StringAt(heap.mem, data))
    modifies heap
    ensures heap.Valid() && heap.next >= old(heap.next) && contentType !in heap.statics
    ensures IsValue(heap.mem, contentType, ValueOf(StringAt(old(heap.mem), data)), old(heap.mem))
  {
    hide CStr, StartsWithNeedle, Skip, Source, LowerDefined;
    var line := heap.Load(data);
    var source := SkipColons(line);
    if source == |line| {
      // `strlen(source) - 2` is SIZE_MAX - 1, and `malloc(SIZE_MAX)` fails.
      return NULL;
    }
    if source == |line| - 1 {
      // `strlen(source) - 2` is SIZE_MAX, and one more is 0.
      contentType := heap.Malloc(0);
      return;
    }
    var text: CString := line[source..|line| - 2];
    assert text == Source(line)[..|Source(line)| - 2];
    contentType := CopyLowered(heap, text);
  }

  method CopyLowered(heap: Heap, text: CString) returns (p: Ptr)
    requires heap.Valid() && heap.reliable && LowerDefined(heap.platform, text)
    modifies heap
    ensures heap.Valid() && heap.next >= old(heap.next) && p !in heap.statics
    ensures IsValue(heap.mem, p, Some(Lower(text)), old(heap.mem))
  {
    hide CStr, LowerDefined;
    p := heap.Malloc(|text| + 1);
    CopyText(heap, p, text);
    StrToLower(heap, p);
    assert heap.mem[p] == Lower(text) + "\0";
    assert heap.mem[p][|text|] == '\0';
  }

  /** The `memcpy` and the terminator. */
  method CopyText(heap: Heap, p: Ptr, text: CString)
    requires heap.Valid() && heap.Owned(p) && |heap.mem[p]| == |text| + 1
    modifies heap
    ensures heap.Valid() && heap.next == old(heap.next) && heap.mem == old(heap.mem)[p := text + "\0"]
    ensures IsString(heap.mem, p) && StringAt(heap.mem, p) == text
  {
    hide CStr;
    heap.Memcpy(p, 0, text);
    heap.Put(p, |text|, '\0');
    assert heap.mem[p] == text + "\0";
    CStrOfString(text);
  }

  /** The loop that moves `source` behind the colons and spaces. */
  method SkipColons(line: CString) returns (source: nat)
    requires StartsWithNeedle(line)
    ensures source <= |line| && Source(line) == line[source..]
  {
    hide Lower, Skip, Source, StartsWithNeedle;
    SourceStart(line);
    source := |NEEDLE|;
    while source < |line| && (line[source] == ':' || line[source] == ' ')
      invariant |NEEDLE| <= source <= |line| && Skip(line[source..]) == Source(line)
    {
      SkipStep(line, source);
      source := source + 1;
    }
    SkipStep(line, source);
  }

  lemma SourceStart(line: string)
    requires StartsWithNeedle(line)
    ensures |NEEDLE| <= |line| && Source(line) == Skip(line[|NEEDLE|..])
  {
  }

  lemma SkipStep(line: string, source: nat)
    requires source <= |line|
    ensures source < |line| && Filler(line[source]) ==> Skip(line[source..]) == Skip(line[source + 1..])
    ensures source == |line| || !Filler(line[source]) ==> Skip(line[source..]) == line[source..]
  {
    if source < |line| {
      assert line[source..][0] == line[source] && line[source..][1..] == line[source + 1..];
    }
  }

  // ----- What the lookup means -----

  /** In a line that ends in CR LF, as HTTP delivers it, the length never wraps around. */
  lemma {:induction false} CrlfIsMeasured(line: string)
    requires StartsWithNeedle(line) && |line| >= |NEEDLE| + 2 && line[|line| - 2..] == "\r\n"
    ensures |Source(line)| >= 2 && ValueOf(line).Some?
  {
    var rest := line[|NEEDLE|..];
    assert rest[|rest| - 2..] == "\r\n";
    SkipStopsAtCr(rest);
  }

  lemma {:induction false} SkipStopsAtCr(s: string)
    requires |s| >= 2 && s[|s| - 2..] == "\r\n"
    ensures |Skip(s)| >= 2 && Skip(s)[|Skip(s)| - 2..] == "\r\n"
  {
    assert s[|s| - 2] == s[|s| - 2..][0];
    if s[0] == ':' || s[0] == ' ' {
      assert s[1..][|s| - 3..] == s[|s| - 2..];
      SkipStopsAtCr(s[1..]);
    }
  }

  /** The blanks between the colon and the value. */
  predicate Blank(s: string) {
    forall i :: 0 <= i < |s| ==> s[i] == ' '
  }

  lemma {:induction false} SkipBlanks(colons: string, value: string)
    requires forall i :: 0 <= i < |colons| ==> colons[i] == ':' || colons[i] == ' '
    requires value == "" || (value[0] != ':' && value[0] != ' ')
    ensures Skip(colons + value) == value
  {
    if colons == "" {
      assert colons + value == value;
    } else {
      assert (colons + value)[1..] == colons[1..] + value;
      SkipBlanks(colons[1..], value);
    }
  }

  /**
   A Content-Type header is read as its value in lower case, however its name is capitalised, and without its last two
   characters, whatever they are; and reading it is defined exactly when `tolower` is for the value.
   */
  lemma ContentTypeRoundTrip(platform: Platform, before: seq<string>, name: string, blanks: string, value: string,
                             end: string, after: seq<string>)
    requires Lower(name) == "content-type" && Blank(blanks) && |end| == 2 && !Filler((value + end)[0])
    requires forall i :: 0 <= i < |before| ==> !StartsWithNeedle(before[i])
    ensures var lines := before + [name + ":" + blanks + value + end] + after;
            ContentTypeOf(lines) == Some(Lower(value))
            && (Defined(platform, lines) <==> LowerDefined(platform, value))
  {
    hide StartsWithNeedle, Source, ValueOf, LineDefined, LowerDefined;
    NeedleText();
    var line := name + ":" + blanks + value + end;
    var lines := before + [line] + after;
    assert forall i :: 0 <= i < |before| ==> lines[i] == before[i];
    assert lines[|before|] == line;
    LineReads(platform, name, blanks, value, end);
    SelectedUnique(lines, |before|);
  }

  lemma NeedleText()
    ensures NEEDLE == "content-type"
  {
  }

  lemma LineReads(platform: Platform, name: string, blanks: string, value: string, end: string)
    requires Lower(name) == NEEDLE && Blank(blanks) && |end| == 2 && !Filler((value + end)[0])
    ensures var line := name + ":" + blanks + value + end;
            StartsWithNeedle(line) && ValueOf(line) == Some(Lower(value))
            && (LineDefined(platform, line) <==> LowerDefined(platform, value))
  {
    hide Skip, LowerDefined;
    var line := name + ":" + blanks + value + end;
    assert |name| == |NEEDLE| && line[..|NEEDLE|] == name;
    assert line[|NEEDLE|..] == (":" + blanks) + (value + end);
    SkipBlanks(":" + blanks, value + end);
    assert (value + end)[..|value|] == value;
  }

  /** The field that a server means: the first header whose whole name is Content-Type. */
  function FieldIndex(lines: seq<string>): (i: nat)
    ensures i <= |lines|
    ensures i < |lines| ==> Lower(Name(lines[i])) == "content-type"
    ensures forall k :: 0 <= k < i ==> Lower(Name(lines[k])) != "content-type"
  {
    if lines == [] || Lower(Name(lines[0])) == "content-type" then 0 else 1 + FieldIndex(lines[1..])
  }

  lemma NameIsNeedle(line: string)
    requires Named(line)
    ensures Lower(Name(line)) == NEEDLE <==> StartsWithNeedle(line) && |line| > |NEEDLE| && line[|NEEDLE|] == ':'
  {
    if StartsWithNeedle(line) && |line| > |NEEDLE| && line[|NEEDLE|] == ':' {
      LowerKeeps(line[..|NEEDLE|], ':');
      FindUnique(line, ':', |NEEDLE|);
    }
    if Lower(Name(line)) == NEEDLE {
      assert Find(line, ':') == |NEEDLE| && line[..|NEEDLE|] == Name(line);
    }
  }

  /**
   The code compares a prefix, not a name. It uses the line that is meant exactly when no line before that one starts
   with the prefix.
   */
  lemma PrefixLookupExact(lines: seq<string>)
    requires AllNamed(lines)
    ensures Selected(lines) == FieldIndex(lines)
            <==> forall k :: 0 <= k < FieldIndex(lines) ==> !StartsWithNeedle(lines[k])
  {
    var i, j := Selected(lines), FieldIndex(lines);
    if j < |lines| {
      NameIsNeedle(lines[j]);
    }
    if forall k :: 0 <= k < j ==> !StartsWithNeedle(lines[k]) {
      SelectedUnique(lines, j);
    }
  }

  predicate Filler(c: char) {
    c == ':' || c == ' '
  }

  /** Only colons and spaces, and then one last character. */
  predicate OneLeft(s: string) {
    s != "" && !Filler(s[|s| - 1]) && forall k :: 0 <= k < |s| - 1 ==> Filler(s[k])
  }

  predicate CutShort(line: string) {
    StartsWithNeedle(line) && OneLeft(line[|NEEDLE|..])
  }

  lemma OneLeftCons(s: string)
    requires s != ""
    ensures Filler(s[0]) ==> (OneLeft(s) <==> OneLeft(s[1..]))
    ensures !Filler(s[0]) ==> (OneLeft(s) <==> |s| == 1)
  {
    assert forall k :: 0 < k < |s| ==> s[k] == s[1..][k - 1];
    assert forall k :: 0 <= k < |s| - 1 ==> s[1..][k] == s[k + 1];
  }

  lemma {:induction false} SkipLeavesOne(s: string)
    ensures |Skip(s)| == 1 <==> OneLeft(s)
  {
    if s != "" {
      hide OneLeft;
      OneLeftCons(s);
      if Filler(s[0]) {
        SkipLeavesOne(s[1..]);
      }
    }
  }

  lemma CutShortExact(line: string)
    requires StartsWithNeedle(line)
    ensures |Source(line)| == 1 <==> CutShort(line)
  {
    hide Skip, OneLeft;
    SkipLeavesOne(line[|NEEDLE|..]);
  }

  /** A high byte before the last two characters. */
  predicate HighValue(line: string) {
    exists i :: 0 <= i < |line| - 2 && HighByte(line[i])
  }

  /** What is skipped in front of the value has no high byte. */
  lemma {:induction false} SkippedLow(s: string, i: nat)
    requires i < |s| && HighByte(s[i])
    ensures |s| - |Skip(s)| <= i
  {
    if Filler(s[0]) {
      SkippedLow(s[1..], i - 1);
    }
  }

  lemma NeedleLow(line: string, i: nat)
    requires StartsWithNeedle(line) && i < |NEEDLE|
    ensures !HighByte(line[i])
  {
    assert ToLower(line[i]) == Lower(line[..|NEEDLE|])[i] == NEEDLE[i];
    assert NEEDLE[i] <= 'y';
  }

  lemma HighValueExact(line: string)
    requires StartsWithNeedle(line)
    ensures HighValue(line)
            <==> |Source(line)| >= 2 && !LowerDefined(Platform(true, true), Source(line)[..|Source(line)| - 2])
  {
    hide Lower, Skip;
    var rest, source := line[|NEEDLE|..], Source(line);
    var skipped := |rest| - |source|;
    assert source == rest[skipped..];
    if i: nat :| i < |line| - 2 && HighByte(line[i]) {
      if i < |NEEDLE| {
        NeedleLow(line, i);
        assert false;
      } else {
        SkippedLow(rest, i - |NEEDLE|);
        assert source[i - |NEEDLE| - skipped] == line[i];
        assert source[..|source| - 2][i - |NEEDLE| - skipped] == line[i];
      }
    }
    if |source| >= 2 {
      var value := source[..|source| - 2];
      assert forall k :: 0 <= k < |value| ==> value[k] == line[k + skipped + |NEEDLE|];
    }
  }

  /** The line behaves badly: it is cut short and `malloc(0)` gives a block, or its value has a high byte. */
  predicate Crashes(platform: Platform, line: string) {
    (platform.emptyBlocks && CutShort(line)) || (platform.signedChar && HighValue(line))
  }

  lemma LineDefinedExact(platform: Platform, line: string)
    requires StartsWithNeedle(line)
    ensures LineDefined(platform, line) <==> !Crashes(platform, line)
  {
    hide StartsWithNeedle, Skip, CutShort, HighValue;
    CutShortExact(line);
    HighValueExact(line);
  }

  /** The lookup is undefined exactly when the first line with the prefix is such a line. */
  lemma DefinedExact(platform: Platform, lines: seq<string>)
    ensures !Defined(platform, lines)
            <==> exists i :: 0 <= i < |lines| && StartsWithNeedle(lines[i]) && Crashes(platform, lines[i])
                             && forall k :: 0 <= k < i ==> !StartsWithNeedle(lines[k])
  {
    hide Source, Selected, LineDefined, Crashes, StartsWithNeedle;
    var i := Selected(lines);
    if i < |lines| {
      LineDefinedExact(platform, lines[i]);
    }
    if j :| 0 <= j < |lines| && StartsWithNeedle(lines[j]) && Crashes(platform, lines[j])
            && forall k :: 0 <= k < j ==> !StartsWithNeedle(lines[k]) {
      SelectedUnique(lines, j);
    }
  }

  lemma NeedleIsLower()
    ensures Lower(NEEDLE) == NEEDLE
  {
  }

  /** The same header without a line end, with no character and with one character left. */
  lemma LineEndNeeded(platform: Platform)
    ensures Defined(platform, [NEEDLE + ":"]) && ContentTypeOf([NEEDLE + ":"]) == None
    ensures Defined(platform, [NEEDLE + ":" + "x"]) <==> !platform.emptyBlocks
    ensures ContentTypeOf([NEEDLE + ":" + "x"]) == None
  {
    hide Lower, StartsWithNeedle, Source;
    ColonLeaves("");
    ColonLeaves("x");
    assert NEEDLE + ":" + "" == NEEDLE + ":";
    SelectedUnique([NEEDLE + ":"], 0);
    SelectedUnique([NEEDLE + ":" + "x"], 0);
  }

  /** A value with the bytes 0xC3 0xA9, an accented letter in UTF-8: undefined where `char` is signed. */
  lemma AccentedValue(platform: Platform)
    ensures Defined(platform, [NEEDLE + ":" + "\U{C3}\U{A9}\r\n"]) <==> !platform.signedChar
  {
    hide Lower, StartsWithNeedle, Source;
    var rest := "\U{C3}\U{A9}\r\n";
    ColonLeaves(rest);
    assert rest[..2][0] == '\U{C3}';
    SelectedUnique([NEEDLE + ":" + rest], 0);
  }

  lemma ColonLeaves(rest: string)
    requires rest == "" || !Filler(rest[0])
    ensures var line := NEEDLE + ":" + rest; StartsWithNeedle(line) && Source(line) == rest
  {
    hide Lower;
    NeedleIsLower();
    var line := NEEDLE + ":" + rest;
    assert line[..|NEEDLE|] == NEEDLE;
    assert line[|NEEDLE|..] == ":" + rest;
    SkipBlanks(":", rest);
  }

  /** A longer header name in front is taken instead. */
  lemma LongerNameShadows()
    ensures var lines := [NEEDLE + "-options: x\r\n", NEEDLE + ": a/b\r\n"];
            AllNamed(lines) && Selected(lines) == 0 && FieldIndex(lines) == 1
  {
    hide Lower, Find;
    NeedleIsLower();
    var first, second := NEEDLE + "-options: x\r\n", NEEDLE + ": a/b\r\n";
    assert first[..|NEEDLE|] == NEEDLE && first[20] == ':';
    NameIsNeedle(first);
    assert second[..|NEEDLE|] == NEEDLE && second[12] == ':';
    NameIsNeedle(second);
    assert [first, second][1..] == [second];
  }
}
