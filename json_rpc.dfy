/** The JSON-RPC dispatcher: a registry from method name to a wrapped
    handler, and `dispatch`, which turns a parsed request into a response
    `{"ok": <bool>, "result": <value>}`.

    JSON text is parsed and printed by a library; the model starts from the
    parsed request and ends at the response value. */
module JsonRpc {
  /** A parsed JSON scalar.  Integers and non-integral numbers are stored
      apart, as the parser does. */
  datatype JsonValue = JInt(i: int) | JFloat(f: real) | JStr(s: string) | JBool(b: bool) | JNull

  /** The parameter and return types a handler may declare. */
  datatype TypeTag = I8 | U8 | I16 | U16 | I32 | U32 | I64 | U64 | F32 | F64 | Str | Bool

  predicate IsIntegerTag(t: TypeTag) {
    t in {I8, U8, I16, U16, I32, U32, I64, U64}
  }

  predicate InRange(i: int, lo: int, hi: int) {
    lo <= i <= hi
  }

  /** `is_json_type<T>`: the exact-type test of a value against a declared
      type.  Integer types take integers in their range only; the float
      types take any number; strings and booleans take only themselves. */
  predicate IsJsonType(t: TypeTag, v: JsonValue) {
    match t
    case I8 => v.JInt? && InRange(v.i, -0x80, 0x7F)
    case U8 => v.JInt? && InRange(v.i, 0, 0xFF)
    case I16 => v.JInt? && InRange(v.i, -0x8000, 0x7FFF)
    case U16 => v.JInt? && InRange(v.i, 0, 0xFFFF)
    case I32 => v.JInt? && InRange(v.i, -0x8000_0000, 0x7FFF_FFFF)
    case U32 => v.JInt? && InRange(v.i, 0, 0xFFFF_FFFF)
    case I64 => v.JInt? && InRange(v.i, -0x8000_0000_0000_0000, 0x7FFF_FFFF_FFFF_FFFF)
    case U64 => v.JInt? && InRange(v.i, 0, 0xFFFF_FFFF_FFFF_FFFF)
    case F32 => v.JInt? || v.JFloat?
    case F64 => v.JInt? || v.JFloat?
    case Str => v.JStr?
    case Bool => v.JBool?
  }

  /** The test is kind-exact: null passes no type, an integer type takes only
      integers, the string type only strings, the boolean type only booleans. */
  lemma IsJsonTypeKinds(t: TypeTag, v: JsonValue)
    ensures IsJsonType(t, v) ==> !v.JNull?
    ensures IsIntegerTag(t) && IsJsonType(t, v) ==> v.JInt?
    ensures IsJsonType(Str, v) <==> v.JStr?
    ensures IsJsonType(Bool, v) <==> v.JBool?
    ensures IsJsonType(F64, v) <==> v.JInt? || v.JFloat?
  {
  }

  /** Wider integer types of the same signedness accept everything the narrower ones do. */
  lemma IntegerRangesNest(v: JsonValue)
    ensures IsJsonType(I8, v) ==> IsJsonType(I16, v) && IsJsonType(I32, v) && IsJsonType(I64, v)
    ensures IsJsonType(U8, v) ==> IsJsonType(U16, v) && IsJsonType(U32, v) && IsJsonType(U64, v)
    ensures IsJsonType(U8, v) ==> IsJsonType(I16, v)
  {
  }

  /** The cases the unit tests exercise: 512 and 2.5 are not 8-bit integers,
      nor are a string or null; an integer or null is not a string. */
  lemma IsJsonTypeExamples()
    ensures IsJsonType(I8, JInt(1)) && IsJsonType(I8, JInt(2))
    ensures !IsJsonType(I8, JInt(512)) && !IsJsonType(I8, JFloat(2.5))
    ensures !IsJsonType(I8, JStr("string")) && !IsJsonType(I8, JNull)
    ensures !IsJsonType(Str, JInt(1)) && !IsJsonType(Str, JNull)
    ensures IsJsonType(Str, JStr("hello "))
  {
  }

  /** `args[index]`: past the end of the array, or with no array at all, the value reads as null. */
  function Arg(args: seq<JsonValue>, index: nat): JsonValue {
    if index < |args| then args[index] else JNull
  }

  /** `check_argument_types_impl`: the declared types, in order, against the
      arguments from `index` on. */
  function CheckArgumentTypes(types: seq<TypeTag>, args: seq<JsonValue>, index: nat): bool
    requires |types| >= 1
    decreases |types|
  {
    IsJsonType(types[0], Arg(args, index))
    && (|types| == 1 || CheckArgumentTypes(types[1..], args, index + 1))
  }

  /** The check passes exactly when every declared type accepts its argument;
      arguments beyond the declared ones are never looked at. */
  lemma {:induction false} CheckArgumentTypesAll(types: seq<TypeTag>, args: seq<JsonValue>, index: nat)
    requires |types| >= 1
    ensures CheckArgumentTypes(types, args, index)
        <==> forall j :: 0 <= j < |types| ==> IsJsonType(types[j], Arg(args, index + j))
    decreases |types|
  {
    if |types| > 1 {
      CheckArgumentTypesAll(types[1..], args, index + 1);
      if CheckArgumentTypes(types, args, index) {
        forall j | 0 <= j < |types|
          ensures IsJsonType(types[j], Arg(args, index + j))
        {
          if j > 0 {
            assert types[1..][j - 1] == types[j];
          }
        }
      } else if IsJsonType(types[0], Arg(args, index)) {
        var j :| 0 <= j < |types| - 1 && !IsJsonType(types[1..][j], Arg(args, index + 1 + j));
        assert !IsJsonType(types[j + 1], Arg(args, index + (j + 1)));
      }
    }
  }

  /** `as<T>()` on a value that passed the check: numbers read by a float
      type become reals, everything else is taken as it is. */
  function As(t: TypeTag, v: JsonValue): JsonValue {
    if (t == F32 || t == F64) && v.JInt? then JFloat(v.i as real) else v
  }

  lemma AsKeepsType(t: TypeTag, v: JsonValue)
    requires IsJsonType(t, v)
    ensures IsJsonType(t, As(t, v))
    ensures t != F32 && t != F64 ==> As(t, v) == v
  {
  }

  /** What a handler does: returns a value, or throws with a message. */
  datatype HandlerOutcome = Returned(value: JsonValue) | Threw(message: string)

  /** A registered method: a handler of no parameters, or of two typed parameters. */
  datatype Method =
    | Nullary(call0: () -> HandlerOutcome)
    | Binary(t0: TypeTag, t1: TypeTag, call2: (JsonValue, JsonValue) -> HandlerOutcome)

  /** `generate_response`. */
  datatype Response = Response(ok: bool, result: JsonValue)

  const ARGUMENT_TYPE_MISMATCH: string := "Argument type mismatch"
  const METHOD_NOT_FOUND: string := "Method not found"

  /** A returned value becomes an ok response; a thrown message a failed one. */
  function Respond(outcome: HandlerOutcome): Response {
    match outcome
    case Returned(v) => Response(true, v)
    case Threw(msg) => Response(false, JStr(msg))
  }

  /** The wrapper `addMethod` stores: the two-parameter one checks both
      arguments first and reports a mismatch without calling the handler;
      the parameterless one calls its handler whatever the arguments. */
  function Invoke(m: Method, args: seq<JsonValue>): Response {
    match m
    case Nullary(f) => Respond(f())
    case Binary(t0, t1, f) =>
      if !CheckArgumentTypes([t0, t1], args, 0) then Response(false, JStr(ARGUMENT_TYPE_MISMATCH))
      else Respond(f(As(t0, Arg(args, 0)), As(t1, Arg(args, 1))))
  }

  /** A two-parameter handler is called exactly when both arguments pass; on
      a mismatch the response does not depend on the handler at all. */
  lemma InvokeBinary(t0: TypeTag, t1: TypeTag, f: (JsonValue, JsonValue) -> HandlerOutcome,
                     g: (JsonValue, JsonValue) -> HandlerOutcome, args: seq<JsonValue>)
    ensures var ok := IsJsonType(t0, Arg(args, 0)) && IsJsonType(t1, Arg(args, 1));
      && (!ok ==> Invoke(Binary(t0, t1, f), args) == Invoke(Binary(t0, t1, g), args)
                                                  == Response(false, JStr(ARGUMENT_TYPE_MISMATCH)))
      && (ok ==> Invoke(Binary(t0, t1, f), args) == Respond(f(As(t0, Arg(args, 0)), As(t1, Arg(args, 1)))))
  {
    CheckArgumentTypesAll([t0, t1], args, 0);
  }

  /** A parameterless handler ignores whatever arguments come with the call. */
  lemma InvokeNullaryIgnoresArgs(f: () -> HandlerOutcome, a: seq<JsonValue>, b: seq<JsonValue>)
    ensures Invoke(Nullary(f), a) == Invoke(Nullary(f), b) == Respond(f())
  {
  }

  /** A handler's exception becomes a failed response carrying its message. */
  lemma ThrownMessageReported(m: Method, args: seq<JsonValue>, msg: string)
    requires m.Nullary? ==> m.call0() == Threw(msg)
    requires m.Binary? ==>
      CheckArgumentTypes([m.t0, m.t1], args, 0) && m.call2(As(m.t0, Arg(args, 0)), As(m.t1, Arg(args, 1))) == Threw(msg)
    ensures Invoke(m, args) == Response(false, JStr(msg))
  {
  }

  /** The request as the parser leaves it: an error text, or the method
      name and the argument array (empty when absent). */
  datatype Request = ParseError(error: string) | Call(name: string, args: seq<JsonValue>)

  /** The dispatcher object and its registry. */
  class Dispatcher {
    var functions: map<string, Method>

    constructor ()
      ensures functions == map[]
    {
      functions := map[];
    }

    /** `addMethod` for a handler with no parameters: registers or replaces the entry. */
    method AddMethod0(name: string, f: () -> HandlerOutcome)
      modifies this
      ensures functions == old(functions)[name := Nullary(f)]
    {
      functions := functions[name := Nullary(f)];
    }

    /** `addMethod` for a handler with two parameters of the given types: registers or replaces the entry. */
    method AddMethod2(name: string, t0: TypeTag, t1: TypeTag, f: (JsonValue, JsonValue) -> HandlerOutcome)
      modifies this
      ensures functions == old(functions)[name := Binary(t0, t1, f)]
    {
      functions := functions[name := Binary(t0, t1, f)];
    }

    /** `dispatch`: a parse error is reported with the parser's text, an
        unknown name as "Method not found", anything else is handed to the
        registered wrapper. */
    function Dispatch(request: Request): (r: Response)
      reads this
      ensures request.ParseError? ==> r == Response(false, JStr(request.error))
      ensures request.Call? && request.name !in functions ==> r == Response(false, JStr(METHOD_NOT_FOUND))
      ensures request.Call? && request.name in functions ==> r == Invoke(functions[request.name], request.args)
    {
      DispatchIn(functions, request)
    }
  }

  /** `dispatch` over a given registry. */
  function DispatchIn(functions: map<string, Method>, request: Request): Response {
    match request
    case ParseError(e) => Response(false, JStr(e))
    case Call(name, args) =>
      if name in functions then Invoke(functions[name], args) else Response(false, JStr(METHOD_NOT_FOUND))
  }

  /** After `addMethod(name, m)` a call to `name` goes to `m` (the last
      registration wins), and calls to every other name behave as before. */
  lemma DispatchAfterAdd(functions: map<string, Method>, name: string, m: Method, request: Request)
    ensures request.Call? && request.name == name ==>
      DispatchIn(functions[name := m], request) == Invoke(m, request.args)
    ensures !(request.Call? && request.name == name) ==>
      DispatchIn(functions[name := m], request) == DispatchIn(functions, request)
  {
  }

  /** Ok is reported exactly for a registered method whose handler returned. */
  lemma DispatchOkOnlyOnReturn(functions: map<string, Method>, request: Request)
    ensures DispatchIn(functions, request).ok ==>
      && request.Call? && request.name in functions
      && var m := functions[request.name];
         (m.Nullary? ==> m.call0().Returned?)
         && (m.Binary? ==> CheckArgumentTypes([m.t0, m.t1], request.args, 0)
                           && m.call2(As(m.t0, Arg(request.args, 0)), As(m.t1, Arg(request.args, 1))).Returned?)
  {
  }

  /** The test suite's handlers: an 8-bit add (wrapping to int8), string
      concatenation, and a constant 5. */
  function AddInt8(a: JsonValue, b: JsonValue): HandlerOutcome {
    if a.JInt? && b.JInt? then Returned(JInt((a.i + b.i + 0x80) % 0x100 - 0x80)) else Returned(JNull)
  }

  function Concat(a: JsonValue, b: JsonValue): HandlerOutcome {
    if a.JStr? && b.JStr? then Returned(JStr(a.s + b.s)) else Returned(JNull)
  }

  function NoArgs(): HandlerOutcome {
    Returned(JInt(5))
  }

  function TestRegistry(): map<string, Method> {
    map["add_8bits" := Binary(I8, I8, AddInt8), "concat" := Binary(Str, Str, Concat), "noparams" := Nullary(NoArgs)]
  }

  /** The two-parameter check on its own: both arguments against their types. */
  lemma CheckTwo(t0: TypeTag, t1: TypeTag, args: seq<JsonValue>)
    ensures CheckArgumentTypes([t0, t1], args, 0) == (IsJsonType(t0, Arg(args, 0)) && IsJsonType(t1, Arg(args, 1)))
  {
    assert [t0, t1][1..] == [t1];
  }

  /** The registry of the test suite, entry by entry. */
  lemma TestRegistryEntries()
    ensures "add_8bits" in TestRegistry() && TestRegistry()["add_8bits"] == Binary(I8, I8, AddInt8)
    ensures "concat" in TestRegistry() && TestRegistry()["concat"] == Binary(Str, Str, Concat)
    ensures "noparams" in TestRegistry() && TestRegistry()["noparams"] == Nullary(NoArgs)
  {
    assert "add_8bits"[0] != "concat"[0] && "add_8bits"[0] != "noparams"[0] && "concat"[0] != "noparams"[0];
  }

  /** The dispatcher's unit tests: the successful calls and an unknown name. */
  lemma DispatchSuccessExamples()
    ensures DispatchIn(TestRegistry(), Call("add_8bits", [JInt(1), JInt(2)])) == Response(true, JInt(3))
    ensures DispatchIn(TestRegistry(), Call("concat", [JStr("hello "), JStr("world")]))
         == Response(true, JStr("hello world"))
    ensures DispatchIn(TestRegistry(), Call("noparams", [])) == Response(true, JInt(5))
    ensures DispatchIn(TestRegistry(), Call("noparams", [JInt(1), JStr("x")])) == Response(true, JInt(5))
    ensures DispatchIn(map[], Call("unknown", [])) == Response(false, JStr(METHOD_NOT_FOUND))
  {
    TestRegistryEntries();
    CheckTwo(I8, I8, [JInt(1), JInt(2)]);
    CheckTwo(Str, Str, [JStr("hello "), JStr("world")]);
    assert "hello " + "world" == "hello world";
  }

  /** The unit tests' type mismatches: arguments out of range, non-integral,
      of the wrong kind or missing. */
  lemma DispatchMismatchExamples()
    ensures var mismatch := Response(false, JStr(ARGUMENT_TYPE_MISMATCH));
      && DispatchIn(TestRegistry(), Call("add_8bits", [JInt(512), JInt(512)])) == mismatch
      && DispatchIn(TestRegistry(), Call("add_8bits", [JInt(1), JFloat(2.5)])) == mismatch
      && DispatchIn(TestRegistry(), Call("add_8bits", [JInt(1), JStr("string")])) == mismatch
      && DispatchIn(TestRegistry(), Call("add_8bits", [JInt(1), JNull])) == mismatch
      && DispatchIn(TestRegistry(), Call("add_8bits", [JInt(1)])) == mismatch
      && DispatchIn(TestRegistry(), Call("concat", [JStr("hello "), JInt(1)])) == mismatch
      && DispatchIn(TestRegistry(), Call("concat", [JStr("hello "), JNull])) == mismatch
  {
    TestRegistryEntries();
    CheckTwo(I8, I8, [JInt(512), JInt(512)]);
    CheckTwo(I8, I8, [JInt(1), JFloat(2.5)]);
    CheckTwo(I8, I8, [JInt(1), JStr("string")]);
    CheckTwo(I8, I8, [JInt(1), JNull]);
    CheckTwo(I8, I8, [JInt(1)]);
    CheckTwo(Str, Str, [JStr("hello "), JInt(1)]);
    CheckTwo(Str, Str, [JStr("hello "), JNull]);
  }
}
