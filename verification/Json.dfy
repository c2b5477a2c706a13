/**
 What the client reads with cJSON: the first member of a name, its number or its text, and the conversion of a `double`
 to an `int`.
 */
module Json {
  import opened Text

  /** A `double`; a literal beyond the range of the type is read as infinite. */
  datatype Double = Finite(value: real) | Infinite

  /** `valuestring` of a string may be NULL. */
  datatype Element = Number(number: Double) | Chars(text: Option<CString>) | Other

  /** The members of an object in order; a document that is no object has none. */
  datatype Document = Document(members: seq<(CString, Element)>)

  /** `cJSON_Parse`, which fails on a text that is not JSON. */
  type Parser = CString -> Option<Document>

  /** The position of the first member with a name; the number of members when there is none. */
  function FirstMember(members: seq<(CString, Element)>, name: CString): (i: nat)
    ensures i <= |members|
    ensures i < |members| ==> members[i].0 == name
    ensures forall k :: 0 <= k < i ==> members[k].0 != name
  {
    if members == [] || members[0].0 == name then 0 else 1 + FirstMember(members[1..], name)
  }

  /** `cJSON_GetObjectItemCaseSensitive`. */
  function Member(members: seq<(CString, Element)>, name: CString): Option<Element> {
    var i := FirstMember(members, name);
    if i == |members| then None else Some(members[i].1)
  }

  // ----- Doubles and integers -----

  const INT_MAX := 0x7FFF_FFFF
  const INT_MIN := -0x8000_0000

  /** Conversion to an integer type drops the fraction. */
  function Truncate(x: real): int {
    if x >= 0.0 then x.Floor else -((-x).Floor)
  }

  /** The integral part of a number: the fraction that is dropped has the sign of the number. */
  predicate IntegralPart(n: int, x: real) {
    if x >= 0.0 then n >= 0 && n as real <= x < n as real + 1.0 else n <= 0 && n as real - 1.0 < x <= n as real
  }

  lemma TruncateExact(x: real, n: int)
    ensures IntegralPart(n, x) <==> n == Truncate(x)
    ensures Truncate(n as real) == n
  {
    assert x.Floor as real <= x < x.Floor as real + 1.0;
    assert (-x).Floor as real <= -x < (-x).Floor as real + 1.0;
  }

  /** The conversion to `int` has a defined result (section 6.3.1.4 of the C standard). */
  predicate FitsInt(d: Double) {
    d.Finite? && -2147483649.0 < d.value < 2147483648.0
  }

  lemma FitsIntExact(x: real)
    ensures FitsInt(Finite(x)) <==> INT_MIN <= Truncate(x) <= INT_MAX
  {
  }

  // ----- The two reads -----

  /** The number under `id`. */
  function IdIn(json: Parser, body: Option<CString>): Option<Double> {
    if body.None? || json(body.value).None? then None
    else
      match Member(json(body.value).value.members, "id")
      case Some(Number(number)) => Some(number)
      case _ => None
  }

  predicate IdFits(json: Parser, body: Option<CString>) {
    IdIn(json, body).Some? ==> FitsInt(IdIn(json, body).value)
  }

  /** `get_request_id`, for an id that fits: 0 when there is none. */
  function IdFrom(json: Parser, body: Option<CString>): int {
    match IdIn(json, body)
    case Some(Finite(value)) => Truncate(value)
    case _ => 0
  }

  /** `get_request_state`: the text under `state`. */
  function StateFrom(json: Parser, body: Option<CString>): Option<CString> {
    if body.None? || json(body.value).None? then None
    else
      match Member(json(body.value).value.members, "state")
      case Some(Chars(text)) => text
      case _ => None
  }

  // ----- The error position that cJSON keeps -----

  /**
   Whether the position is set once `cJSON_Parse` has been given a body: it resets the position before it parses, but
   not when there is no body.
   */
  predicate StaleAfter(json: Parser, stale: bool, body: Option<CString>) {
    if body.None? then stale else json(body.value).None?
  }

  /** The log prints through a position that an earlier, released body has left. */
  predicate ReadsStale(stale: bool, body: Option<CString>) {
    body.None? && stale
  }

  /** The first member of a name. */
  predicate IsFirst(document: Document, name: CString, i: nat) {
    && i < |document.members| && document.members[i].0 == name
    && forall k :: 0 <= k < i ==> document.members[k].0 != name
  }

  /** The id: the first member `id` if it is a number, in its integral part; 0 without body, JSON, member or number. */
  lemma IdExact(json: Parser, text: CString, document: Document, i: nat)
    ensures IdIn(json, None) == None && IdFrom(json, None) == 0
    ensures json(text) == None ==> IdIn(json, Some(text)) == None && IdFrom(json, Some(text)) == 0
    ensures json(text) == Some(document)
            && (forall k :: 0 <= k < |document.members| ==> document.members[k].0 != "id") ==>
              IdIn(json, Some(text)) == None && IdFrom(json, Some(text)) == 0
    ensures json(text) == Some(document) && IsFirst(document, "id", i) ==>
              match document.members[i].1
              case Number(number) =>
                IdIn(json, Some(text)) == Some(number)
                && (number.Finite? ==> IntegralPart(IdFrom(json, Some(text)), number.value))
              case _ => IdIn(json, Some(text)) == None && IdFrom(json, Some(text)) == 0
  {
    if json(text) == Some(document) && IsFirst(document, "id", i) {
      assert FirstMember(document.members, "id") == i;
      match document.members[i].1 {
        case Number(Finite(value)) => TruncateExact(value, Truncate(value));
        case _ =>
      }
    }
  }

  /** The state: the first member `state` if it is a string; nothing without body, JSON, member or string. */
  lemma StateExact(json: Parser, text: CString, document: Document, i: nat)
    ensures StateFrom(json, None) == None
    ensures json(text) == None ==> StateFrom(json, Some(text)) == None
    ensures json(text) == Some(document)
            && (forall k :: 0 <= k < |document.members| ==> document.members[k].0 != "state") ==>
              StateFrom(json, Some(text)) == None
    ensures json(text) == Some(document) && IsFirst(document, "state", i) ==>
              StateFrom(json, Some(text))
              == match document.members[i].1 case Chars(found) => found case _ => None
  {
    if json(text) == Some(document) && IsFirst(document, "state", i) {
      assert FirstMember(document.members, "state") == i;
    }
  }
}
