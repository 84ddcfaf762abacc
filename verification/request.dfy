/** `parse_request_input` of main.py: the positional decoding of a request
    body. JSON values are a datatype, and Python's subscript and `len` are
    modelled with the exceptions they raise. */
module Request {
  import opened Wrappers

  datatype Json =
    | JNull
    | JBool(b: bool)
    | JNum(n: real)
    | JStr(s: string)
    | JArr(items: seq<Json>)
    | JObj(fields: map<string, Json>)

  /** The dict `parse_request_input` returns, one field per key. */
  datatype Input = Input(geoid: Json, demand: Json, score: Json, nparts: Json, tolerance: Json, gridType: Json)

  /** `v[key]` with a string key: only an object has members. */
  function Member(v: Json, key: string): (r: Result<Json>)
    ensures r.Success? <==> v.JObj? && key in v.fields
    ensures r.Success? ==> r.value == v.fields[key]
    ensures v.JObj? && key !in v.fields ==> r == Failure(KeyMissing(key))
    ensures !v.JObj? ==> r == Failure(NotIndexable)
  {
    match v
    case JObj(fields) => if key in fields then Success(fields[key]) else Failure(KeyMissing(key))
    case _ => Failure(NotIndexable)
  }

  /** `len(v)`: defined on lists, strings and objects. */
  function Len(v: Json): (r: Result<nat>)
    ensures r.Success? <==> v.JArr? || v.JStr? || v.JObj?
    ensures r.Failure? ==> r.error == NotIndexable
  {
    match v
    case JArr(items) => Success(|items|)
    case JStr(s) => Success(|s|)
    case JObj(fields) => Success(|fields.Keys|)
    case _ => Failure(NotIndexable)
  }

  /** `v[i]` with an int index: a list item, a one-character string, or a
      failed lookup, since the keys of a JSON object are strings. */
  function Item(v: Json, i: nat): (r: Result<Json>)
    ensures v.JArr? && i < |v.items| ==> r == Success(v.items[i])
    ensures v.JArr? && i >= |v.items| ==> r == Failure(IndexOutOfRange(i))
    ensures v.JStr? && i < |v.s| ==> r == Success(JStr([v.s[i]]))
    ensures v.JStr? && i >= |v.s| ==> r == Failure(IndexOutOfRange(i))
    ensures v.JObj? ==> r == Failure(IntKeyMissing(i))
    ensures !(v.JArr? || v.JStr? || v.JObj?) ==> r == Failure(NotIndexable)
  {
    match v
    case JArr(items) => if i < |items| then Success(items[i]) else Failure(IndexOutOfRange(i))
    case JStr(s) => if i < |s| then Success(JStr([s[i]])) else Failure(IndexOutOfRange(i))
    case JObj(_) => Failure(IntKeyMissing(i))
    case _ => Failure(NotIndexable)
  }

  /** `parse_request_input`: print the number of calls, take the first call,
      and read its positions 0 to 5 in order; the first failing step raises. */
  function ParseRequestInput(req: Json): (r: Result<Input>)
    ensures !req.JObj? ==> r == Failure(NotIndexable)
    ensures req.JObj? && "calls" !in req.fields ==> r == Failure(KeyMissing("calls"))
    ensures req.JObj? && "calls" in req.fields && req.fields["calls"] == JArr([]) ==> r == Failure(IndexOutOfRange(0))
  {
    var calls :- Member(req, "calls");
    var count :- Len(calls);
    var call :- Item(calls, 0);
    var geoid :- Item(call, 0);
    var demand :- Item(call, 1);
    var score :- Item(call, 2);
    var nparts :- Item(call, 3);
    var tolerance :- Item(call, 4);
    var gridType :- Item(call, 5);
    Success(Input(geoid, demand, score, nparts, tolerance, gridType))
  }

  /** The first call of a request whose calls are a non-empty list, when that
      call is itself a list. */
  ghost predicate FirstCallIsList(req: Json) {
    && req.JObj? && "calls" in req.fields
    && req.fields["calls"].JArr? && |req.fields["calls"].items| > 0
    && req.fields["calls"].items[0].JArr?
  }

  function FirstCall(req: Json): (call: seq<Json>)
    requires FirstCallIsList(req)
  {
    req.fields["calls"].items[0].items
  }

  /** A list-shaped first call decodes exactly when it has six positions, to
      those positions; a shorter one fails at its length. */
  lemma ParseListCall(req: Json)
    requires FirstCallIsList(req)
    ensures var call := FirstCall(req);
            && (ParseRequestInput(req).Success? <==> |call| >= 6)
            && (|call| >= 6 ==> ParseRequestInput(req).value == Input(call[0], call[1], call[2], call[3], call[4], call[5]))
            && (|call| < 6 ==> ParseRequestInput(req) == Failure(IndexOutOfRange(|call|)))
  {
  }

  /** Only the first call is read: two requests whose first calls agree
      decode alike, whatever else they hold. */
  lemma ParseReadsFirstCallOnly(a: Json, b: Json)
    requires a.JObj? && "calls" in a.fields && a.fields["calls"].JArr? && |a.fields["calls"].items| > 0
    requires b.JObj? && "calls" in b.fields && b.fields["calls"].JArr? && |b.fields["calls"].items| > 0
    requires a.fields["calls"].items[0] == b.fields["calls"].items[0]
    ensures ParseRequestInput(a) == ParseRequestInput(b)
  {
  }

  /** A request holding `inp` at positions 0 to 5 of its first call, with
      any further positions, calls and members. */
  function Encode(inp: Input, extra: seq<Json>, later: seq<Json>, other: map<string, Json>): (req: Json)
    ensures req.JObj? && "calls" in req.fields
  {
    var call := [inp.geoid, inp.demand, inp.score, inp.nparts, inp.tolerance, inp.gridType] + extra;
    JObj(other["calls" := JArr([JArr(call)] + later)])
  }

  /** Decoding an encoded request gives back its input. */
  lemma ParseEncode(inp: Input, extra: seq<Json>, later: seq<Json>, other: map<string, Json>)
    ensures ParseRequestInput(Encode(inp, extra, later, other)) == Success(inp)
  {
    var req := Encode(inp, extra, later, other);
    assert FirstCallIsList(req);
    ParseListCall(req);
  }
}
