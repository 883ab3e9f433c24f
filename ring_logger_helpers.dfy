/** The ring logger's argument union and its label-list matching.

    C strings are modelled as `string` values without a NUL character;
    a `const char*` into a string is an index, and the index equal to the
    length is the position of the terminating NUL. */
module RingLoggerHelpers {
  import opened Wrappers
  import opened Bytes

  type int8 = x: int | -0x80 <= x < 0x80
  type int16 = x: int | -0x8000 <= x < 0x8000
  type int32 = x: int | -0x8000_0000 <= x < 0x8000_0000

  // ---------------------------------------------------------------------
  // The tagged union of log arguments

  datatype ArgTypeTag = INT8 | INT16 | INT32 | UINT8 | UINT16 | UINT32 | STRING

  /** The union member that was last written; a string member may be null. */
  datatype Member =
    | Int8Value(i8: int8)
    | Int16Value(i16: int16)
    | Int32Value(i32: int32)
    | UInt8Value(u8: byte)
    | UInt16Value(u16: uint16)
    | UInt32Value(u32: uint32)
    | StringValue(str: Option<string>)

  datatype ArgVariant = ArgVariant(tag: ArgTypeTag, member: Member)

  /** The tag under which a union member is read back. */
  function MemberTag(m: Member): ArgTypeTag {
    match m
    case Int8Value(_) => INT8
    case Int16Value(_) => INT16
    case Int32Value(_) => INT32
    case UInt8Value(_) => UINT8
    case UInt16Value(_) => UINT16
    case UInt32Value(_) => UINT32
    case StringValue(_) => STRING
  }

  /** The tag names the member that holds the value. */
  predicate Consistent(a: ArgVariant) {
    a.tag == MemberTag(a.member)
  }

  /** An argument as its constructors leave it. */
  type Arg = a: ArgVariant | Consistent(a) witness ArgVariant(INT8, Int8Value(0))

  /** The default argument: the 8-bit integer 0. */
  function DefaultArg(): (a: ArgVariant)
    ensures Consistent(a) && a.member == Int8Value(0)
  {
    ArgVariant(INT8, Int8Value(0))
  }

  function FromInt8(v: int8): (a: ArgVariant)
    ensures Consistent(a) && a.member == Int8Value(v)
  {
    ArgVariant(INT8, Int8Value(v))
  }

  function FromInt16(v: int16): (a: ArgVariant)
    ensures Consistent(a) && a.member == Int16Value(v)
  {
    ArgVariant(INT16, Int16Value(v))
  }

  function FromInt32(v: int32): (a: ArgVariant)
    ensures Consistent(a) && a.member == Int32Value(v)
  {
    ArgVariant(INT32, Int32Value(v))
  }

  function FromUInt8(v: byte): (a: ArgVariant)
    ensures Consistent(a) && a.member == UInt8Value(v)
  {
    ArgVariant(UINT8, UInt8Value(v))
  }

  function FromUInt16(v: uint16): (a: ArgVariant)
    ensures Consistent(a) && a.member == UInt16Value(v)
  {
    ArgVariant(UINT16, UInt16Value(v))
  }

  function FromUInt32(v: uint32): (a: ArgVariant)
    ensures Consistent(a) && a.member == UInt32Value(v)
  {
    ArgVariant(UINT32, UInt32Value(v))
  }

  function FromString(v: Option<string>): (a: ArgVariant)
    ensures Consistent(a) && a.member == StringValue(v)
  {
    ArgVariant(STRING, StringValue(v))
  }

  // ---------------------------------------------------------------------
  // C-string scanning over positions

  predicate NoNul(s: string) {
    forall k :: 0 <= k < |s| ==> s[k] != '\0'
  }

  /** The character at a position: past the last character the reader sees
      the terminating NUL. */
  function CharAt(s: string, k: nat): char {
    if k < |s| then s[k] else '\0'
  }

  /** `_skip_whitespace`: the first position at or after `p` that is not a space. */
  function SkipWhitespace(s: string, p: nat): (r: nat)
    requires p <= |s|
    ensures p <= r <= |s|
    ensures forall k :: p <= k < r ==> s[k] == ' '
    ensures r == |s| || s[r] != ' '
    decreases |s| - p
  {
    if p < |s| && s[p] == ' ' then SkipWhitespace(s, p + 1) else p
  }

  /** `_find_comma_or_end`: the first comma at or after `p`, or the end. */
  function FindCommaOrEnd(s: string, p: nat): (r: nat)
    requires p <= |s|
    ensures p <= r <= |s|
    ensures forall k :: p <= k < r ==> s[k] != ','
    ensures r == |s| || s[r] == ','
    decreases |s| - p
  {
    if p == |s| || s[p] == ',' then p else FindCommaOrEnd(s, p + 1)
  }

  /** `_rtrim_whitespace`: moves `end` back over the spaces that precede it,
      never before `start`. */
  function RTrimWhitespace(s: string, start: nat, end: nat): (r: nat)
    requires start <= end <= |s|
    ensures start <= r <= end
    ensures forall k :: r <= k < end ==> s[k] == ' '
    ensures r == start || s[r - 1] != ' '
    decreases end
  {
    if end > start && s[end - 1] == ' ' then RTrimWhitespace(s, start, end - 1) else end
  }

  /** `_compare_strings`: the `len` characters of `a` from `ai` against those
      of `b` from `bi`, stopping at the first difference. */
  function CompareStrings(a: string, ai: nat, b: string, bi: nat, len: nat): bool
    requires bi + len <= |b|
    decreases len
  {
    len == 0 || (CharAt(a, ai) == b[bi] && CompareStrings(a, ai + 1, b, bi + 1, len - 1))
  }

  /** `_is_label_equal`: the label equals the characters between `start` and
      `end`, and ends there. */
  function IsLabelEqual(name: string, list: string, start: nat, end: nat): bool
    requires start <= end <= |list|
  {
    CompareStrings(name, 0, list, start, end - start) && CharAt(name, end - start) == '\0'
  }

  /** `_is_label_in_list_impl`, from position `p` of the list. */
  function IsLabelInListFrom(name: string, list: string, p: nat): bool
    requires p <= |list|
    decreases |list| - p
  {
    if p == |list| then false
    else
      var start := SkipWhitespace(list, p);
      var end := FindCommaOrEnd(list, start);
      if IsLabelEqual(name, list, start, RTrimWhitespace(list, start, end)) then true
      else if end == |list| then false
      else IsLabelInListFrom(name, list, end + 1)
  }

  function IsLabelInList(name: string, list: string): bool {
    IsLabelInListFrom(name, list, 0)
  }

  // ---------------------------------------------------------------------
  // Reference definition: the list as trimmed items

  /** The index of the first comma, or the length. */
  function CommaIndex(s: string): (i: nat)
    ensures i <= |s|
    ensures i < |s| ==> s[i] == ','
    ensures forall k :: 0 <= k < i ==> s[k] != ','
  {
    if s == [] then 0
    else if s[0] == ',' then 0
    else 1 + CommaIndex(s[1..])
  }

  /** The items of a comma-separated list. An empty list has no item, and a
      trailing comma does not open an item. */
  function Items(s: string): seq<string>
    decreases |s|
  {
    if s == [] then []
    else
      var i := CommaIndex(s);
      [s[..i]] + (if i == |s| then [] else Items(s[i + 1..]))
  }

  function TrimLeft(s: string): string
    decreases |s|
  {
    if s != [] && s[0] == ' ' then TrimLeft(s[1..]) else s
  }

  function TrimRight(s: string): string
    decreases |s|
  {
    if s != [] && s[|s| - 1] == ' ' then TrimRight(s[..|s| - 1]) else s
  }

  /** An item with its leading and trailing spaces removed. */
  function Trim(s: string): string {
    TrimRight(TrimLeft(s))
  }

  /** Some item, trimmed, equals `name`. */
  predicate HasTrimmed(name: string, items: seq<string>) {
    exists k :: 0 <= k < |items| && Trim(items[k]) == name
  }

  predicate InItems(name: string, list: string) {
    HasTrimmed(name, Items(list))
  }

  // ---------------------------------------------------------------------
  // Lemmas

  lemma CommaIndexUnique(s: string, i: nat)
    requires i <= |s|
    requires i < |s| ==> s[i] == ','
    requires forall k :: 0 <= k < i ==> s[k] != ','
    ensures CommaIndex(s) == i
  {
  }

  lemma {:induction false} TrimLeftSkips(s: string, k: nat)
    requires k <= |s|
    requires forall j :: 0 <= j < k ==> s[j] == ' '
    requires k == |s| || s[k] != ' '
    ensures TrimLeft(s) == s[k..]
    decreases k
  {
    if k > 0 {
      TrimLeftSkips(s[1..], k - 1);
      assert s[1..][k - 1..] == s[k..];
    }
  }

  lemma {:induction false} TrimRightDrops(s: string, k: nat)
    requires k <= |s|
    requires forall j :: k <= j < |s| ==> s[j] == ' '
    requires k == 0 || s[k - 1] != ' '
    ensures TrimRight(s) == s[..k]
    decreases |s|
  {
    if k < |s| {
      var t := s[..|s| - 1];
      TrimRightDrops(t, k);
      assert t[..k] == s[..k];
    } else {
      assert s[..k] == s;
    }
  }

  /** The comparison succeeds exactly when the compared stretch of `a` exists
      and holds the same characters. */
  lemma {:induction false} CompareStringsIff(a: string, ai: nat, b: string, bi: nat, len: nat)
    requires ai <= |a| && bi + len <= |b|
    requires NoNul(b)
    ensures CompareStrings(a, ai, b, bi, len) <==> ai + len <= |a| && a[ai..ai + len] == b[bi..bi + len]
    decreases len
  {
    if len > 0 {
      if ai < |a| {
        CompareStringsIff(a, ai + 1, b, bi + 1, len - 1);
      }
      if ai + len <= |a| {
        var x, y := a[ai..ai + len], b[bi..bi + len];
        assert x == [a[ai]] + a[ai + 1..ai + len];
        assert y == [b[bi]] + b[bi + 1..bi + len];
        if x == y {
          assert x[0] == y[0] && x[1..] == y[1..];
        }
      } else if ai >= |a| {
        assert b[bi] != '\0';
        assert CharAt(a, ai) != b[bi];
      }
    }
  }

  /** A label matches a stretch of the list only in full: a prefix or an
      extension of the stretch does not. */
  lemma IsLabelEqualIff(name: string, list: string, start: nat, end: nat)
    requires start <= end <= |list|
    requires NoNul(name) && NoNul(list)
    ensures IsLabelEqual(name, list, start, end) <==> name == list[start..end]
  {
    CompareStringsIff(name, 0, list, start, end - start);
    if name == list[start..end] {
      assert name[0..end - start] == name;
    }
    if IsLabelEqual(name, list, start, end) {
      assert CharAt(name, end - start) == '\0';
      assert name[0..end - start] == name;
    }
  }

  /** The item scanned from `p` runs up to the first comma at or after `p`. */
  lemma ScanItems(list: string, p: nat, end: nat)
    requires p < |list| && p <= end <= |list|
    requires forall k :: p <= k < end ==> list[k] != ','
    requires end == |list| || list[end] == ','
    ensures Items(list[p..]) == [list[p..end]] + (if end == |list| then [] else Items(list[end + 1..]))
  {
    var rest := list[p..];
    CommaIndexUnique(rest, end - p);
    assert rest[..end - p] == list[p..end];
    if end < |list| {
      assert rest[end - p + 1..] == list[end + 1..];
    }
  }

  /** Skipping spaces forward and trimming them backward leaves the trimmed item. */
  lemma ScanTrim(list: string, p: nat, start: nat, end: nat, stop: nat)
    requires p <= start <= stop <= end <= |list|
    requires forall k :: p <= k < start ==> list[k] == ' '
    requires start == end || list[start] != ' '
    requires forall k :: stop <= k < end ==> list[k] == ' '
    requires stop == start || list[stop - 1] != ' '
    ensures Trim(list[p..end]) == list[start..stop]
  {
    ScanTrimLeft(list, p, start, end);
    ScanTrimRight(list, start, stop, end);
  }

  lemma ScanTrimLeft(list: string, p: nat, start: nat, end: nat)
    requires p <= start <= end <= |list|
    requires forall k :: p <= k < start ==> list[k] == ' '
    requires start == end || list[start] != ' '
    ensures TrimLeft(list[p..end]) == list[start..end]
  {
    var item := list[p..end];
    forall j | 0 <= j < start - p
      ensures item[j] == ' '
    {
      assert item[j] == list[p + j];
    }
    TrimLeftSkips(item, start - p);
    assert item[start - p..] == list[start..end];
  }

  lemma ScanTrimRight(list: string, start: nat, stop: nat, end: nat)
    requires start <= stop <= end <= |list|
    requires forall k :: stop <= k < end ==> list[k] == ' '
    requires stop == start || list[stop - 1] != ' '
    ensures TrimRight(list[start..end]) == list[start..stop]
  {
    var rest := list[start..end];
    forall j | stop - start <= j < |rest|
      ensures rest[j] == ' '
    {
      assert rest[j] == list[start + j];
    }
    TrimRightDrops(rest, stop - start);
    assert rest[..stop - start] == list[start..stop];
  }

  lemma HasTrimmedCons(name: string, first: string, rest: seq<string>)
    ensures HasTrimmed(name, [first] + rest) <==> Trim(first) == name || HasTrimmed(name, rest)
  {
    var items := [first] + rest;
    if HasTrimmed(name, rest) {
      var k :| 0 <= k < |rest| && Trim(rest[k]) == name;
      assert items[k + 1] == rest[k];
    }
    if HasTrimmed(name, items) && Trim(first) != name {
      var k :| 0 <= k < |items| && Trim(items[k]) == name;
      assert k > 0 && items[k] == rest[k - 1];
    }
    if Trim(first) == name {
      assert Trim(items[0]) == name;
    }
  }

  /** One step of the scan tests the first item of the rest of the list. */
  lemma ScanMatch(name: string, list: string, p: nat)
    requires p < |list|
    requires NoNul(name) && NoNul(list)
    ensures
      var start := SkipWhitespace(list, p);
      var end := FindCommaOrEnd(list, start);
      IsLabelEqual(name, list, start, RTrimWhitespace(list, start, end)) <==> name == Trim(list[p..end])
  {
    var start := SkipWhitespace(list, p);
    var end := FindCommaOrEnd(list, start);
    var stop := RTrimWhitespace(list, start, end);
    ScanTrim(list, p, start, end, stop);
    IsLabelEqualIff(name, list, start, stop);
  }

  lemma UnfoldScan(name: string, list: string, p: nat, start: nat, end: nat)
    requires p < |list|
    requires start == SkipWhitespace(list, p) && end == FindCommaOrEnd(list, start)
    ensures IsLabelInListFrom(name, list, p) ==
      (IsLabelEqual(name, list, start, RTrimWhitespace(list, start, end)) || (end < |list| && IsLabelInListFrom(name, list, end + 1)))
  {
  }

  /** The step of the induction: the scan from `p` agrees with the items of
      the rest of the list when the scan after the next comma does. */
  lemma ScanAgreesStep(name: string, list: string, p: nat, start: nat, end: nat)
    requires p < |list|
    requires NoNul(name) && NoNul(list)
    requires start == SkipWhitespace(list, p) && end == FindCommaOrEnd(list, start)
    requires end < |list| ==> (IsLabelInListFrom(name, list, end + 1) <==> InItems(name, list[end + 1..]))
    ensures IsLabelInListFrom(name, list, p) <==> InItems(name, list[p..])
  {
    var first := list[p..end];
    var rest := if end == |list| then [] else Items(list[end + 1..]);
    ScanItems(list, p, end);
    ScanMatch(name, list, p);
    HasTrimmedCons(name, first, rest);
    UnfoldScan(name, list, p, start, end);
  }

  lemma {:induction false} IsLabelInListFromIff(name: string, list: string, p: nat)
    requires p <= |list|
    requires NoNul(name) && NoNul(list)
    ensures IsLabelInListFrom(name, list, p) <==> InItems(name, list[p..])
    decreases |list| - p
  {
    if p == |list| {
      assert list[p..] == [];
    } else {
      var start := SkipWhitespace(list, p);
      var end := FindCommaOrEnd(list, start);
      assert end < |list| ==> (IsLabelInListFrom(name, list, end + 1) <==> InItems(name, list[end + 1..])) by {
        if end < |list| {
          IsLabelInListFromIff(name, list, end + 1);
        }
      }
      ScanAgreesStep(name, list, p, start, end);
    }
  }

  /** `is_label_in_list` holds exactly when some item of the list, with its
      surrounding spaces removed, equals the label. */
  lemma IsLabelInListIff(name: string, list: string)
    requires NoNul(name) && NoNul(list)
    ensures IsLabelInList(name, list) <==> InItems(name, list)
  {
    IsLabelInListFromIff(name, list, 0);
    assert list[0..] == list;
  }

  /** The empty list holds no name, not even the empty one. */
  lemma EmptyListHoldsNothing(name: string)
    ensures !IsLabelInList(name, "")
  {
  }

  /** "foo" is on the allow list "foo,bar". */
  lemma FirstOnAllowListExample()
    ensures IsLabelInList("foo", "foo,bar")
  {
    var list := "foo,bar";
    assert SkipWhitespace(list, 0) == 0;
    assert FindCommaOrEnd(list, 0) == 3;
    assert RTrimWhitespace(list, 0, 3) == 3;
    UnfoldScan("foo", list, 0, 0, 3);
    assert IsLabelEqual("foo", list, 0, 3);
  }

  /** "bar" is on the allow list "foo,bar", after the first item fails. */
  lemma SecondOnAllowListExample()
    ensures IsLabelInList("bar", "foo,bar")
  {
    var list := "foo,bar";
    assert IsLabelInListFrom("bar", list, 4) by {
      assert SkipWhitespace(list, 4) == 4;
      assert FindCommaOrEnd(list, 4) == 7;
      assert RTrimWhitespace(list, 4, 7) == 7;
      UnfoldScan("bar", list, 4, 4, 7);
      assert IsLabelEqual("bar", list, 4, 7);
    }
    assert SkipWhitespace(list, 0) == 0;
    assert FindCommaOrEnd(list, 0) == 3;
    assert RTrimWhitespace(list, 0, 3) == 3;
    UnfoldScan("bar", list, 0, 0, 3);
  }

  /** "garbage" is not on the allow list "foo,bar". */
  lemma NotOnAllowListExample()
    ensures !IsLabelInList("garbage", "foo,bar")
  {
    var list := "foo,bar";
    assert !IsLabelInListFrom("garbage", list, 4) by {
      assert SkipWhitespace(list, 4) == 4;
      assert FindCommaOrEnd(list, 4) == 7;
      assert RTrimWhitespace(list, 4, 7) == 7;
      UnfoldScan("garbage", list, 4, 4, 7);
    }
    assert SkipWhitespace(list, 0) == 0;
    assert FindCommaOrEnd(list, 0) == 3;
    assert RTrimWhitespace(list, 0, 3) == 3;
    UnfoldScan("garbage", list, 0, 0, 3);
  }

  /** Items are trimmed of spaces before they are compared. */
  lemma TrimmedItemExample()
    ensures IsLabelInList("bar", "foo , bar ")
  {
    var list := "foo , bar ";
    assert IsLabelInListFrom("bar", list, 5) by {
      assert SkipWhitespace(list, 5) == 6;
      assert FindCommaOrEnd(list, 6) == 10;
      assert RTrimWhitespace(list, 6, 10) == 9;
      IsLabelEqualIff("bar", list, 6, 9);
      assert list[6..9] == "bar";
    }
    assert SkipWhitespace(list, 0) == 0;
    assert FindCommaOrEnd(list, 0) == 4;
    assert RTrimWhitespace(list, 0, 4) == 3;
    assert !IsLabelEqual("bar", list, 0, 3);
  }

  /** A name that is a prefix of an item does not match it. */
  lemma PrefixOfItemExample()
    ensures !IsLabelInList("foo", "foobar")
  {
    assert FindCommaOrEnd("foobar", 0) == 6;
    IsLabelEqualIff("foo", "foobar", 0, 6);
  }

  /** An item that is a prefix of the name does not match it. */
  lemma ItemPrefixOfNameExample()
    ensures !IsLabelInList("fo", "foo")
  {
    assert FindCommaOrEnd("foo", 0) == 3;
    IsLabelEqualIff("fo", "foo", 0, 3);
  }
}
