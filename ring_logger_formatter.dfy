/** The ring logger's formatter: `{}` placeholders in a message are replaced,
    left to right, by the text of the arguments, into a bounded char buffer. */
module RingLoggerFormatter {
  import opened Wrappers
  import opened Decimal
  import opened RingLoggerHelpers

  /** A `{` immediately followed by `}` starts at position `i`. */
  predicate PlaceholderAt(s: string, i: int) {
    0 <= i && i + 1 < |s| && s[i] == '{' && s[i + 1] == '}'
  }

  /** The leftmost placeholder at or after position `from`. */
  function PlaceholderFrom(s: string, from: nat): (r: Option<nat>)
    ensures r.Some? ==> from <= r.value && PlaceholderAt(s, r.value)
    ensures r.Some? ==> forall j :: from <= j < r.value ==> !PlaceholderAt(s, j)
    ensures r.None? ==> forall j :: from <= j < |s| ==> !PlaceholderAt(s, j)
    decreases |s| - from
  {
    if from + 1 >= |s| then None
    else if PlaceholderAt(s, from) then Some(from)
    else PlaceholderFrom(s, from + 1)
  }

  /** The leftmost placeholder of `s`. */
  function FirstPlaceholder(s: string): Option<nat> {
    PlaceholderFrom(s, 0)
  }

  /** The integer held by an integer argument, read from the union member
      its tag names. */
  function IntMember(a: Arg): int
    requires a.tag != STRING
  {
    match a.tag
    case INT8 => a.member.i8
    case INT16 => a.member.i16
    case INT32 => a.member.i32
    case UINT8 => a.member.u8
    case UINT16 => a.member.u16
    case UINT32 => a.member.u32
    case STRING => 0
  }

  /** The text `write` puts in the buffer for an argument: integers in
      decimal and a null string as "". */
  function ArgText(a: Arg): string
  {
    if a.tag == STRING then a.member.str.GetOr("") else DecimalString(IntMember(a))
  }

  /** The text `print` produces given room enough: each leftmost placeholder
      takes the next argument; once the arguments run out, the rest of the
      message is copied as it is. */
  function Format(message: string, args: seq<Arg>): string
    decreases |message|
  {
    match FirstPlaceholder(message)
    case None => message
    case Some(i) =>
      if args == [] then message
      else message[..i] + ArgText(args[0]) + Format(message[i + 2..], args[1..])
  }

  /** The text still to come when `print` stands at position `m` of the
      message with `k` arguments used. */
  function FormatFrom(msg: string, m: nat, args: seq<Arg>, k: nat): string
    requires m <= |msg| && k <= |args|
    decreases |msg| - m
  {
    match PlaceholderFrom(msg, m)
    case None => msg[m..]
    case Some(i) =>
      if k == |args| then msg[m..]
      else msg[m..i] + ArgText(args[k]) + FormatFrom(msg, i + 2, args, k + 1)
  }

  /** `done` is what `print` has written so far, and with the text still to
      come from position `m` with `k` arguments used it makes `text`. */
  ghost predicate Leads(done: string, msg: string, m: nat, args: seq<Arg>, k: nat, text: string) {
    m <= |msg| && k <= |args| && done + FormatFrom(msg, m, args, k) == text
  }

  // ---------------------------------------------------------------------
  // The formatter's steps

  /** `get_next_placeholder`, scanning from position `from`; the character
      after the last one reads as the terminating NUL. */
  method GetNextPlaceholder(message: string, from: nat) returns (found: bool, start: nat)
    requires from <= |message|
    ensures found <==> PlaceholderFrom(message, from).Some?
    ensures found ==> from <= start && start == PlaceholderFrom(message, from).value
  {
    var i := from;
    while i < |message|
      invariant from <= i <= |message|
      invariant forall j :: from <= j < i ==> !PlaceholderAt(message, j)
    {
      if message[i] == '{' && CharAt(message, i + 1) == '}' {
        PlaceholderFromIs(message, from, i);
        return true, i;
      }
      i := i + 1;
    }
    return false, 0;
  }

  /** `copy`: writes `src` at `outIndex` when it fits below `maxAllowed`,
      and otherwise writes nothing. */
  method Copy(src: string, dest: array<char>, outIndex: nat, maxAllowed: nat) returns (ok: bool, newIndex: nat)
    requires outIndex <= maxAllowed <= dest.Length
    modifies dest
    ensures ok <==> outIndex + |src| <= maxAllowed
    ensures newIndex <= maxAllowed
    ensures ok ==> newIndex == outIndex + |src| && dest[..newIndex] == old(dest[..outIndex]) + src
    ensures dest[maxAllowed..] == old(dest[maxAllowed..])
    ensures !ok ==> newIndex == outIndex && dest[..] == old(dest[..])
  {
    if outIndex + |src| > maxAllowed {
      return false, outIndex;
    }
    forall i | 0 <= i < |src| {
      dest[outIndex + i] := src[i];
    }
    return true, outIndex + |src|;
  }

  /** `write`: the argument's text, copied like any other piece. */
  method Write(output: array<char>, outIndex: nat, maxLength: nat, arg: Arg) returns (ok: bool, newIndex: nat)
    requires outIndex <= maxLength <= output.Length
    modifies output
    ensures ok <==> outIndex + |ArgText(arg)| <= maxLength
    ensures newIndex <= maxLength
    ensures ok ==> newIndex == outIndex + |ArgText(arg)| && output[..newIndex] == old(output[..outIndex]) + ArgText(arg)
    ensures output[maxLength..] == old(output[maxLength..])
    ensures !ok ==> newIndex == outIndex && output[..] == old(output[..])
  {
    var text: string;
    match arg.tag {
      case INT8 => text := DecimalString(arg.member.i8);
      case INT16 => text := DecimalString(arg.member.i16);
      case INT32 => text := DecimalString(arg.member.i32);
      case UINT8 => text := DecimalString(arg.member.u8);
      case UINT16 => text := DecimalString(arg.member.u16);
      case UINT32 => text := DecimalString(arg.member.u32);
      case STRING =>
        text := if arg.member.str.Some? then arg.member.str.value else "";
    }
    ok, newIndex := Copy(text, output, outIndex, maxLength);
  }

  /** The step of `print` for a placeholder found at `start` with an
      argument left: the text before the placeholder, then the argument.
      `text` is what the whole call is to produce. */
  method PlaceArgument(output: array<char>, outIndex: nat, maxLength: nat, msg: string, m: nat, start: nat,
                       args: seq<Arg>, argIndex: nat, ghost text: string)
    returns (ok: bool, newIndex: nat)
    requires outIndex <= maxLength <= output.Length
    requires argIndex < |args| && Leads(output[..outIndex], msg, m, args, argIndex, text)
    requires PlaceholderFrom(msg, m) == Some(start)
    modifies output
    ensures start + 2 <= |msg|
    ensures newIndex <= maxLength
    ensures ok ==> Leads(output[..newIndex], msg, start + 2, args, argIndex + 1, text)
    ensures !ok ==> |text| > maxLength
    ensures output[maxLength..] == old(output[maxLength..])
  {
    ghost var tail := FormatFrom(msg, start + 2, args, argIndex + 1);
    FormatFromAt(msg, m, start, args, argIndex);
    Regroup(output[..outIndex], msg[m..start], ArgText(args[argIndex]), tail, text);
    ok, newIndex := Copy(msg[m..start], output, outIndex, maxLength);
    if !ok {
      return;
    }
    ok, newIndex := Write(output, newIndex, maxLength, args[argIndex]);
  }

  /** The last step of `print`: no placeholder left, or no argument left
      for it, so the rest of the message from `m` is copied as it is. */
  method CopyRest(output: array<char>, outIndex: nat, maxLength: nat, msg: string, m: nat,
                  args: seq<Arg>, argIndex: nat, ghost text: string)
    returns (ok: bool, newIndex: nat)
    requires outIndex <= maxLength <= output.Length
    requires Leads(output[..outIndex], msg, m, args, argIndex, text)
    requires PlaceholderFrom(msg, m).None? || argIndex == |args|
    modifies output
    ensures newIndex <= maxLength
    ensures ok ==> output[..newIndex] == text
    ensures !ok ==> |text| > maxLength
    ensures output[maxLength..] == old(output[maxLength..])
  {
    assert FormatFrom(msg, m, args, argIndex) == msg[m..];
    ok, newIndex := Copy(msg[m..], output, outIndex, maxLength);
  }

  /** `write_trailing_zero`: a NUL after the text, or in the last cell when
      the text filled the buffer. */
  method WriteTrailingZero(output: array<char>, maxLength: nat, outIndex: nat)
    requires 0 < maxLength <= output.Length
    modifies output
    ensures outIndex < maxLength ==> output[..] == old(output[..])[outIndex := '\0']
    ensures outIndex >= maxLength ==> output[..] == old(output[..])[maxLength - 1 := '\0']
  {
    if outIndex < maxLength {
      output[outIndex] := '\0';
    } else {
      output[maxLength - 1] := '\0';
    }
  }

  /** One round of the loop of `print`: the next placeholder is looked up
      from `m`; with an argument left, the text before it and the argument
      are written and the loop goes on after it, otherwise the rest of the
      message is written and the loop stops. */
  method FillRound(output: array<char>, outIndex: nat, maxLength: nat, msg: string, m: nat,
                   args: seq<Arg>, argIndex: nat, ghost text: string)
    returns (stop: bool, fits: bool, newIndex: nat, next: nat, nextArg: nat)
    requires outIndex <= maxLength <= output.Length
    requires Leads(output[..outIndex], msg, m, args, argIndex, text)
    modifies output
    ensures newIndex <= maxLength
    ensures !stop ==> m < next && Leads(output[..newIndex], msg, next, args, nextArg, text)
    ensures stop && fits ==> output[..newIndex] == text
    ensures stop && !fits ==> |text| > maxLength
    ensures output[maxLength..] == old(output[maxLength..])
  {
    var found, start := GetNextPlaceholder(msg, m);
    if found && argIndex < |args| {
      var placed;
      placed, newIndex := PlaceArgument(output, outIndex, maxLength, msg, m, start, args, argIndex, text);
      return !placed, placed, newIndex, start + 2, argIndex + 1;
    }
    fits, newIndex := CopyRest(output, outIndex, maxLength, msg, m, args, argIndex, text);
    return true, fits, newIndex, m, argIndex;
  }

  /** The loop of `print`: the pieces of the message and the arguments'
      texts, in order, while they fit. `fits` is false when a piece did not
      fit, and the loop also stops once the buffer is full. */
  method FillBuffer(output: array<char>, maxLength: nat, msg: string, args: seq<Arg>)
    returns (fits: bool, outIndex: nat)
    requires maxLength <= output.Length
    modifies output
    ensures outIndex <= maxLength
    ensures fits && outIndex < maxLength ==> output[..outIndex] == FormatFrom(msg, 0, args, 0)
    ensures fits ==> |FormatFrom(msg, 0, args, 0)| >= outIndex
    ensures !fits ==> |FormatFrom(msg, 0, args, 0)| > maxLength
    ensures output[maxLength..] == old(output[maxLength..])
  {
    ghost var text := FormatFrom(msg, 0, args, 0);
    outIndex := 0;
    var argIndex: nat := 0;
    var m: nat := 0;
    while m < |msg| && outIndex < maxLength
      invariant outIndex <= maxLength && Leads(output[..outIndex], msg, m, args, argIndex, text)
      invariant output[maxLength..] == old(output[maxLength..])
      decreases |msg| - m
    {
      var stop;
      stop, fits, outIndex, m, argIndex := FillRound(output, outIndex, maxLength, msg, m, args, argIndex, text);
      if stop {
        return;
      }
    }
    assert m == |msg| ==> FormatFrom(msg, m, args, argIndex) == [];
    return true, outIndex;
  }

  /** `print`: fails on a null buffer, a null message or no room; otherwise
      succeeds exactly when the formatted text and its NUL fit in
      `maxLength` cells, and then the buffer starts with them. Nothing at or
      beyond `maxLength` is ever written. */
  method Print(output: array?<char>, maxLength: nat, message: Option<string>, args: seq<Arg>) returns (ok: bool)
    requires output != null ==> maxLength <= output.Length
    modifies output
    ensures output == null || message.None? || maxLength == 0 ==> !ok
    ensures output != null && (message.None? || maxLength == 0) ==> output[..] == old(output[..])
    ensures output != null && message.Some? && maxLength > 0 ==>
      var text := Format(message.value, args);
      && (ok <==> |text| < maxLength)
      && (ok ==> output[..|text| + 1] == text + ['\0'])
      && output[maxLength..] == old(output[maxLength..])
  {
    if output == null || message.None? || maxLength == 0 {
      return false;
    }
    FormatFromIsFormat(message.value, 0, args, 0);
    assert message.value[0..] == message.value && args[0..] == args;
    var fits, outIndex := FillBuffer(output, maxLength, message.value, args);
    if !fits {
      return false;
    }
    WriteTrailingZero(output, maxLength, outIndex);
    return outIndex < maxLength;
  }

  // ---------------------------------------------------------------------
  // Lemmas

  /** The leftmost placeholder of a suffix found by scanning from `from`. */
  lemma FirstPlaceholderOfSuffix(s: string, from: nat, start: nat)
    requires from <= start && PlaceholderAt(s, start)
    requires forall j :: from <= j < start ==> !PlaceholderAt(s, j)
    ensures FirstPlaceholder(s[from..]) == Some(start - from)
  {
    var r := FirstPlaceholder(s[from..]);
    assert PlaceholderAt(s[from..], start - from);
    if r.None? {
      assert false;
    } else if r.value < start - from {
      assert PlaceholderAt(s, from + r.value);
    }
  }

  lemma NoPlaceholderInSuffix(s: string, from: nat)
    requires from <= |s|
    requires forall j :: from <= j < |s| ==> !PlaceholderAt(s, j)
    ensures FirstPlaceholder(s[from..]) == None
  {
    var r := FirstPlaceholder(s[from..]);
    if r.Some? {
      assert PlaceholderAt(s, from + r.value);
    }
  }

  lemma PlaceholderFromIs(s: string, from: nat, i: nat)
    requires from <= i && PlaceholderAt(s, i)
    requires forall j :: from <= j < i ==> !PlaceholderAt(s, j)
    ensures PlaceholderFrom(s, from) == Some(i)
  {
  }

  /** The scan from position `m` finds the leftmost placeholder of the
      suffix from `m`, shifted by `m`. */
  lemma PlaceholderFromSuffix(s: string, m: nat)
    requires m <= |s|
    ensures PlaceholderFrom(s, m).None? <==> FirstPlaceholder(s[m..]).None?
    ensures PlaceholderFrom(s, m).Some? ==> PlaceholderFrom(s, m).value == m + FirstPlaceholder(s[m..]).value
  {
    var r := PlaceholderFrom(s, m);
    if r.Some? {
      FirstPlaceholderOfSuffix(s, m, r.value);
    } else {
      NoPlaceholderInSuffix(s, m);
    }
  }

  lemma {:induction false} FormatFromAt(msg: string, m: nat, i: nat, args: seq<Arg>, k: nat)
    requires m <= |msg| && k < |args| && PlaceholderFrom(msg, m) == Some(i)
    ensures i + 2 <= |msg|
    ensures FormatFrom(msg, m, args, k) == msg[m..i] + ArgText(args[k]) + FormatFrom(msg, i + 2, args, k + 1)
  {
    assert PlaceholderAt(msg, i);
  }

  lemma {:induction false} FormatAt(message: string, i: nat, args: seq<Arg>)
    requires FirstPlaceholder(message) == Some(i) && args != []
    ensures i + 2 <= |message|
    ensures Format(message, args) == message[..i] + ArgText(args[0]) + Format(message[i + 2..], args[1..])
  {
  }

  lemma Regroup(written: string, piece: string, arg: string, tail: string, text: string)
    requires written + (piece + arg + tail) == text
    ensures (written + piece + arg) + tail == text
  {
    assert written + (piece + arg + tail) == (written + piece + arg) + tail;
  }

  /** The position-based text agrees with the reference definition on the
      suffixes. */
  lemma {:induction false} FormatFromIsFormat(msg: string, m: nat, args: seq<Arg>, k: nat)
    requires m <= |msg| && k <= |args|
    ensures FormatFrom(msg, m, args, k) == Format(msg[m..], args[k..])
    decreases |msg| - m
  {
    var found := PlaceholderFrom(msg, m);
    if found.Some? && k < |args| {
      FormatFromIsFormat(msg, found.value + 2, args, k + 1);
      FormatFromStep(msg, m, found.value, args, k);
    } else {
      FormatFromRest(msg, m, args, k);
    }
  }

  /** No placeholder left, or no argument left: both definitions copy the
      rest of the message. */
  lemma FormatFromRest(msg: string, m: nat, args: seq<Arg>, k: nat)
    requires m <= |msg| && k <= |args|
    requires PlaceholderFrom(msg, m).None? || k == |args|
    ensures FormatFrom(msg, m, args, k) == Format(msg[m..], args[k..])
  {
    PlaceholderFromSuffix(msg, m);
    if k == |args| {
      assert args[k..] == [];
    }
  }

  /** One placeholder further: the two definitions agree at `m` when they
      agree after the placeholder found from `m`. */
  lemma FormatFromStep(msg: string, m: nat, i: nat, args: seq<Arg>, k: nat)
    requires m <= |msg| && k < |args| && PlaceholderFrom(msg, m) == Some(i)
    requires FormatFrom(msg, i + 2, args, k + 1) == Format(msg[i + 2..], args[k + 1..])
    ensures FormatFrom(msg, m, args, k) == Format(msg[m..], args[k..])
  {
    var rest, remaining := msg[m..], args[k..];
    assert FirstPlaceholder(rest) == Some(i - m) by {
      PlaceholderFromSuffix(msg, m);
    }
    assert Format(rest, remaining) == rest[..i - m] + ArgText(remaining[0]) + Format(rest[i - m + 2..], remaining[1..]) by {
      FormatAt(rest, i - m, remaining);
    }
    assert rest[..i - m] == msg[m..i];
    assert rest[i - m + 2..] == msg[i + 2..];
    assert remaining[0] == args[k] && remaining[1..] == args[k + 1..];
    FormatFromAt(msg, m, i, args, k);
  }

  /** A message without placeholders, the empty one included, is its own text. */
  lemma FormatLiteral(message: string, args: seq<Arg>)
    requires forall j :: 0 <= j < |message| ==> !PlaceholderAt(message, j)
    ensures Format(message, args) == message
  {
  }

  /** With no arguments the message is its own text, placeholders included. */
  lemma FormatWithoutArgs(message: string)
    ensures Format(message, []) == message
  {
  }

  /** The leftmost placeholder takes the first argument, and the rest of the
      message is formatted with the remaining ones. */
  lemma FormatSubstitutes(literal: string, rest: string, arg: Arg, args: seq<Arg>)
    requires forall j :: 0 <= j < |literal| ==> !PlaceholderAt(literal, j)
    ensures Format(literal + "{}" + rest, [arg] + args) == literal + ArgText(arg) + Format(rest, args)
  {
    var s := literal + "{}" + rest;
    forall j | 0 <= j < |literal|
      ensures !PlaceholderAt(s, j)
    {
      if j + 1 < |literal| {
        assert !PlaceholderAt(literal, j);
      }
    }
    FirstPlaceholderOfSuffix(s, 0, |literal|);
    assert s[0..] == s;
    assert s[..|literal|] == literal;
    assert s[|literal| + 2..] == rest;
    assert ([arg] + args)[1..] == args;
  }

  /** The formatter's examples: an integer argument, ... */
  lemma FormatIntExample()
    ensures Format("Value: {}", [FromInt32(42)]) == "Value: 42"
  {
    var a := FromInt32(42);
    calc {
      Format("Value: {}", [a]);
      == { assert "Value: {}" == "Value: " + "{}" + "" && [a] == [a] + []; }
      Format("Value: " + "{}" + "", [a] + []);
      == { FormatSubstitutes("Value: ", "", a, []); }
      "Value: " + ArgText(a) + Format("", []);
      == { FortyTwo(); }
      "Value: 42";
    }
  }

  /** ... a string argument, ... */
  lemma FormatStringExample()
    ensures Format("String: {}", [FromString(Some("Test"))]) == "String: Test"
  {
    var a := FromString(Some("Test"));
    calc {
      Format("String: {}", [a]);
      == { assert "String: {}" == "String: " + "{}" + "" && [a] == [a] + []; }
      Format("String: " + "{}" + "", [a] + []);
      == { FormatSubstitutes("String: ", "", a, []); }
      "String: " + ArgText(a) + Format("", []);
      ==
      "String: Test";
    }
  }

  /** ... and a second placeholder left as it is once the arguments run out. */
  lemma FormatMissingArgExample()
    ensures Format("Value: {}, Another: {}", [FromInt32(42)]) == "Value: 42, Another: {}"
  {
    var a := FromInt32(42);
    calc {
      Format("Value: {}, Another: {}", [a]);
      == { ValueAnotherPieces(); assert [a] == [a] + []; }
      Format("Value: " + "{}" + ", Another: {}", [a] + []);
      == { FormatSubstitutes("Value: ", ", Another: {}", a, []); }
      "Value: " + ArgText(a) + Format(", Another: {}", []);
      == { FormatWithoutArgs(", Another: {}"); FortyTwo(); }
      "Value: " + "42" + ", Another: {}";
      == { ValueAnotherPieces(); }
      "Value: 42, Another: {}";
    }
  }

  lemma FortyTwo()
    ensures ArgText(FromInt32(42)) == "42"
  {
    assert DecimalString(42) == "42";
  }

  lemma ValueAnotherPieces()
    ensures "Value: " + "{}" + ", Another: {}" == "Value: {}, Another: {}"
    ensures "Value: " + "42" + ", Another: {}" == "Value: 42, Another: {}"
  {
  }
}
