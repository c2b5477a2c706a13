/**
 Strings as values: the vocabulary in which the buffers of the client are specified. A character stands for a byte,
 `\U{00}` to `\U{FF}`; no encoding is assumed where a text is only copied, compared or cut.
 */
module Text {

  datatype Option<+T> = None | Some(value: T) {
    predicate IsFailure() {
      None?
    }

    function PropagateFailure<U>(): Option<U>
      requires None?
    {
      None
    }

    function Extract(): T
      requires Some?
    {
      value
    }
  }

  /** The text of a C string: no NUL inside. */
  type CString = s: string | '\0' !in s

  /** The position of the first `c` in `s`, or the length of `s`: `strstr` and `memchr` for one character. */
  function Find(s: string, c: char): (i: nat)
    ensures i <= |s|
    ensures forall k :: 0 <= k < i ==> s[k] != c
    ensures i < |s| ==> s[i] == c
  {
    FindFrom(s, c, 0)
  }

  function FindFrom(s: string, c: char, at: nat): (i: nat)
    requires at <= |s|
    ensures at <= i <= |s|
    ensures forall k :: at <= k < i ==> s[k] != c
    ensures i < |s| ==> s[i] == c
    decreases |s| - at
  {
    if at == |s| || s[at] == c then at else FindFrom(s, c, at + 1)
  }

  lemma FindUnique(s: string, c: char, i: nat)
    requires i <= |s| && c !in s[..i]
    requires i < |s| ==> s[i] == c
    ensures Find(s, c) == i
  {
    assert forall k :: 0 <= k < i ==> s[..i][k] == s[k];
  }

  /** What a C program reads from a block: everything before the first NUL. */
  function CStr(b: string): CString {
    b[..Find(b, '\0')]
  }

  lemma CStrOf(s: CString, rest: string)
    ensures CStr(s + "\0" + rest) == s
  {
    var b := s + "\0" + rest;
    assert b[..|s|] == s && b[|s|] == '\0';
    FindUnique(b, '\0', |s|);
  }

  lemma CStrOfString(s: CString)
    ensures CStr(s + "\0") == s
    ensures '\0' in s + "\0"
  {
    CStrOf(s, "");
    assert s + "\0" + "" == s + "\0";
    assert (s + "\0")[|s|] == '\0';
  }

  /** Cutting a text at the first NUL keeps it whole exactly when it has none. */
  lemma CutAtNul(s: string)
    ensures CStr(s + "\0") <= s
    ensures CStr(s + "\0") == s <==> '\0' !in s
  {
    var i := Find(s, '\0');
    var b := s + "\0";
    assert b[..i] == s[..i];
    FindUnique(b, '\0', i);
  }

  /**
   What the C standard leaves to the implementation and the client depends on: whether `char` is signed, and whether
   `malloc(0)` gives a block rather than NULL.
   */
  datatype Platform = Platform(signedChar: bool, emptyBlocks: bool)

  /** As a signed `char` such a byte is negative and not EOF, which is -1 and is the byte 0xFF. */
  predicate HighByte(c: char) {
    '\U{80}' <= c <= '\U{FE}'
  }

  lemma HighByteExact(c: char)
    requires c as int < 0x100
    ensures var value := if c as int < 0x80 then c as int else c as int - 0x100;
            HighByte(c) <==> value < 0 && value != -1
  {
  }

  /** `tolower` is applied to plain `char`s: it must get the value of an `unsigned char`, or EOF (section 7.4 of C). */
  predicate LowerDefined(platform: Platform, s: string) {
    platform.signedChar ==> forall i :: 0 <= i < |s| ==> !HighByte(s[i])
  }

  /** `tolower` of the C locale. */
  function ToLower(c: char): char {
    if 'A' <= c <= 'Z' then (c as int + 32) as char else c
  }

  const CAPITALS := "ABCDEFGHIJKLMNOPQRSTUVWXYZ"
  const SMALLS := "abcdefghijklmnopqrstuvwxyz"

  /** The capital letters become the small ones, and everything else stays. */
  lemma ToLowerExact(c: char, i: nat)
    requires i < 26
    ensures ToLower(CAPITALS[i]) == SMALLS[i]
    ensures c !in CAPITALS ==> ToLower(c) == c
  {
    Letters(i);
    if 'A' <= c <= 'Z' {
      Letters(c as int - 'A' as int);
    }
  }

  lemma Letters(i: nat)
    requires i < 26
    ensures CAPITALS[i] as int == 'A' as int + i && SMALLS[i] as int == 'a' as int + i
  {
  }

  function Lower(s: string): (r: string)
    ensures |r| == |s|
    ensures forall i :: 0 <= i < |s| ==> r[i] == ToLower(s[i])
  {
    seq(|s|, i requires 0 <= i < |s| => ToLower(s[i]))
  }

  lemma LowerConcat(a: string, b: string)
    ensures Lower(a + b) == Lower(a) + Lower(b)
  {
  }

  /** Lower-casing neither makes nor removes a character that is not a letter. */
  lemma LowerKeeps(s: string, c: char)
    requires !('A' <= c <= 'Z') && !('a' <= c <= 'z')
    ensures c in Lower(s) <==> c in s
  {
    if c in s {
      var i :| 0 <= i < |s| && s[i] == c;
      assert Lower(s)[i] == c;
    }
  }

  /** The pieces of `s` between the occurrences of `c`; always at least one. */
  function Split(s: string, c: char): (r: seq<string>)
    ensures |r| >= 1
    ensures c !in s <==> |r| == 1
    decreases |s|
  {
    var i := Find(s, c);
    if i == |s| then [s] else [s[..i]] + Split(s[i + 1..], c)
  }

  lemma SplitAt(a: string, c: char, b: string)
    requires c !in a
    ensures Split(a + [c] + b, c) == [a] + Split(b, c)
  {
    var s := a + [c] + b;
    assert s[..|a|] == a && s[|a|] == c && s[|a| + 1..] == b;
    FindUnique(s, c, |a|);
  }

  lemma {:induction false} SplitCount(a: string, c: char, b: string)
    ensures |Split(a + [c] + b, c)| == |Split(a, c)| + |Split(b, c)|
    decreases |a|
  {
    var i := Find(a, c);
    if i == |a| {
      SplitAt(a, c, b);
    } else {
      var rest := a[i + 1..];
      assert a == a[..i] + [c] + rest;
      assert a + [c] + b == a[..i] + [c] + (rest + [c] + b);
      SplitAt(a[..i], c, rest + [c] + b);
      SplitAt(a[..i], c, rest);
      SplitCount(rest, c, b);
    }
  }

  /** The concatenation of all pieces. */
  function Flatten(ss: seq<string>): string {
    if ss == [] then "" else ss[0] + Flatten(ss[1..])
  }

  lemma {:induction false} FlattenConcat(a: seq<string>, b: seq<string>)
    ensures Flatten(a + b) == Flatten(a) + Flatten(b)
  {
    if a == [] {
      assert a + b == b;
    } else {
      assert (a + b)[0] == a[0] && (a + b)[1..] == a[1..] + b;
      FlattenConcat(a[1..], b);
    }
  }

  // Decimal notation, as `%d` prints it.

  function Digit(n: nat): (c: char)
    requires n < 10
    ensures '0' <= c <= '9'
  {
    (n + '0' as int) as char
  }

  function Decimal(n: nat): (s: string)
    ensures s != "" && IsDecimal(s) && Value(s) == n
  {
    if n < 10 then
      [Digit(n)]
    else
      var front := Decimal(n / 10);
      var s := front + [Digit(n % 10)];
      assert s[..|s| - 1] == front;
      s
  }

  /** No leading zeros. */
  lemma {:induction false} DecimalStart(n: nat)
    ensures if n == 0 then Decimal(n) == "0" else Decimal(n)[0] != '0'
  {
    if n >= 10 {
      DecimalStart(n / 10);
      assert Decimal(n)[0] == Decimal(n / 10)[0];
    }
  }

  predicate IsDecimal(s: string) {
    forall i :: 0 <= i < |s| ==> '0' <= s[i] <= '9'
  }

  function Value(s: string): nat
    requires IsDecimal(s)
  {
    if s == "" then 0
    else
      10 * Value(s[..|s| - 1]) + (s[|s| - 1] as int - '0' as int)
  }

  function DecimalInt(n: int): (s: string)
    ensures s != "" && forall c :: c in s ==> c == '-' || '0' <= c <= '9'
  {
    if n < 0 then "-" + Decimal(-n) else Decimal(n)
  }

  /** Reads what `%d` prints. */
  function ParseInt(s: string): Option<int> {
    if s != "" && IsDecimal(s) then Some(Value(s))
    else if |s| > 1 && s[0] == '-' && IsDecimal(s[1..]) then Some(-(Value(s[1..]) as int))
    else None
  }

  lemma ParseIntOfDecimal(n: int)
    ensures ParseInt(DecimalInt(n)) == Some(n)
  {
    if n < 0 {
      var s := DecimalInt(n);
      assert s[0] == '-' && s[0] in s && s[1..] == Decimal(-n);
    }
  }
}
