/** Cutting the JSON value out of decrypted response bytes that may still carry padding. */
module TrimJson {
  import opened Common

  const QUOTE: byte := 0x22
  const BACKSLASH: byte := 0x5C
  const OPEN_ARRAY: byte := 0x5B
  const CLOSE_ARRAY: byte := 0x5D
  const OPEN_OBJECT: byte := 0x7B
  const CLOSE_OBJECT: byte := 0x7D
  const COMMA: byte := 0x2C
  const COLON: byte := 0x3A

  predicate IsOpener(b: byte) {
    b == OPEN_ARRAY || b == OPEN_OBJECT
  }

  function CloserOf(open: byte): byte {
    if open == OPEN_OBJECT then CLOSE_OBJECT else CLOSE_ARRAY
  }

  /** The scan's state; only brackets of the kind that opened it are counted. */
  datatype Scan = Scan(open: byte, depth: int, inString: bool, escape: bool) {
    function Next(b: byte): Scan {
      if escape then this.(escape := false)
      else if b == BACKSLASH && inString then this.(escape := true)
      else if b == QUOTE then this.(inString := !inString)
      else if inString then this
      else if b == open then this.(depth := depth + 1)
      else if b == CloserOf(open) then this.(depth := depth - 1)
      else this
    }

    /** The byte completes the value. */
    predicate EndsAt(b: byte) {
      !escape && !inString && b != QUOTE && b != open && b == CloserOf(open) && depth == 1
    }
  }

  /** How many bytes the scan takes: up to the byte that completes the value, or all. */
  function Length(s: bytes, st: Scan): (n: nat)
    ensures n <= |s|
  {
    if s == [] then 0
    else if st.EndsAt(s[0]) then 1
    else 1 + Length(s[1..], st.Next(s[0]))
  }

  function FirstOpener(data: bytes): (i: nat)
    ensures i <= |data|
    ensures forall k :: 0 <= k < i ==> !IsOpener(data[k])
    ensures i < |data| ==> IsOpener(data[i])
  {
    if data == [] || IsOpener(data[0]) then 0
    else 1 + FirstOpener(data[1..])
  }

  function Trim(data: bytes): bytes {
    var start := FirstOpener(data);
    if start == |data| then data
    else data[start..start + Length(data[start..], Scan(data[start], 0, false, false))]
  }

  lemma {:induction false} FirstOpenerAt(data: bytes, i: nat)
    requires i < |data| && IsOpener(data[i]) && forall k :: 0 <= k < i ==> !IsOpener(data[k])
    ensures FirstOpener(data) == i
  {
  }

  lemma {:induction false} LengthStep(data: bytes, i: nat, st: Scan)
    requires i < |data|
    ensures Length(data[i..], st) == if st.EndsAt(data[i]) then 1 else 1 + Length(data[i + 1..], st.Next(data[i]))
  {
    assert data[i..][1..] == data[i + 1..];
  }

  method TrimJSON(data: bytes) returns (trimmed: bytes)
    ensures trimmed == Trim(data)
  {
    hide Length, FirstOpener;
    var start := -1;
    for i := 0 to |data|
      invariant start == -1
      invariant forall k :: 0 <= k < i ==> !IsOpener(data[k])
    {
      if data[i] == OPEN_ARRAY || data[i] == OPEN_OBJECT {
        start := i;
        break;
      }
    }
    if start == -1 {
      return data;
    }
    FirstOpenerAt(data, start);
    var open := data[start];
    var close := CLOSE_ARRAY;
    if open == OPEN_OBJECT {
      close := CLOSE_OBJECT;
    }
    var depth, inString, escape := 0, false, false;
    ghost var all := Length(data[start..], Scan(open, 0, false, false));
    for i := start to |data|
      invariant start + all == i + Length(data[i..], Scan(open, depth, inString, escape))
    {
      var b := data[i];
      LengthStep(data, i, Scan(open, depth, inString, escape));
      if escape {
        escape := false;
        continue;
      }
      if b == BACKSLASH && inString {
        escape := true;
        continue;
      }
      if b == QUOTE {
        inString := !inString;
        continue;
      }
      if inString {
        continue;
      }
      if b == open {
        depth := depth + 1;
      } else if b == close {
        depth := depth - 1;
        if depth == 0 {
          return data[start..i + 1];
        }
      }
    }
    return data[start..];
  }

  // ----- JSON texts -----

  /** One character of a string, section 7 of RFC 8259: an unescaped byte (of UTF-8), or a backslash and
      the byte after it; the four digits of a \\u escape follow as unescaped bytes. */
  datatype StringByte = Plain(b: byte) | Escaped(b: byte)

  /** A JSON text with its insignificant whitespace. Literal: a number, true, false or null. */
  datatype Json =
    | Literal(text: bytes)
    | Text(chars: seq<StringByte>)
    | EmptyArray(space: bytes)
    | EmptyObject(space: bytes)
    | Array(items: Items)
    | Object(members: Members)

  datatype Items =
    | LastItem(before: bytes, value: Json, after: bytes)
    | Item(before: bytes, value: Json, after: bytes, rest: Items)

  datatype Members =
    | LastMember(before: bytes, name: seq<StringByte>, afterName: bytes, beforeValue: bytes, value: Json, after: bytes)
    | Member(before: bytes, name: seq<StringByte>, afterName: bytes, beforeValue: bytes, value: Json, after: bytes,
             rest: Members)

  predicate AllSpace(s: bytes) {
    forall i :: 0 <= i < |s| ==> s[i] == 0x20 || s[i] == 0x09 || s[i] == 0x0A || s[i] == 0x0D
  }

  /** Printable and not structural, which every number and every literal name is. */
  predicate AllLiteral(s: bytes) {
    forall i :: 0 <= i < |s| ==>
      0x20 < s[i] < 0x7F && s[i] != QUOTE && s[i] != COMMA && s[i] != COLON && s[i] != BACKSLASH
      && s[i] != OPEN_ARRAY && s[i] != CLOSE_ARRAY && s[i] != OPEN_OBJECT && s[i] != CLOSE_OBJECT
  }

  predicate ValidChars(chars: seq<StringByte>) {
    forall i :: 0 <= i < |chars| ==>
      chars[i].Plain? ==> chars[i].b >= 0x20 && chars[i].b != QUOTE && chars[i].b != BACKSLASH
  }

  predicate Valid(v: Json) {
    match v
    case Literal(text) => AllLiteral(text)
    case Text(chars) => ValidChars(chars)
    case EmptyArray(space) => AllSpace(space)
    case EmptyObject(space) => AllSpace(space)
    case Array(items) => ValidItems(items)
    case Object(members) => ValidMembers(members)
  }

  predicate ValidItems(items: Items) {
    && AllSpace(items.before) && Valid(items.value) && AllSpace(items.after)
    && (items.Item? ==> ValidItems(items.rest))
  }

  predicate ValidMembers(members: Members) {
    && AllSpace(members.before) && ValidChars(members.name) && AllSpace(members.afterName)
    && AllSpace(members.beforeValue) && Valid(members.value) && AllSpace(members.after)
    && (members.Member? ==> ValidMembers(members.rest))
  }

  function PrintChars(chars: seq<StringByte>): bytes {
    if chars == [] then []
    else (if chars[0].Plain? then [chars[0].b] else [BACKSLASH, chars[0].b]) + PrintChars(chars[1..])
  }

  function PrintString(chars: seq<StringByte>): bytes {
    [QUOTE] + PrintChars(chars) + [QUOTE]
  }

  function Print(v: Json): bytes {
    match v
    case Literal(text) => text
    case Text(chars) => PrintString(chars)
    case EmptyArray(space) => [OPEN_ARRAY] + space + [CLOSE_ARRAY]
    case EmptyObject(space) => [OPEN_OBJECT] + space + [CLOSE_OBJECT]
    case Array(items) => [OPEN_ARRAY] + PrintItems(items) + [CLOSE_ARRAY]
    case Object(members) => [OPEN_OBJECT] + PrintMembers(members) + [CLOSE_OBJECT]
  }

  function PrintItems(items: Items): bytes {
    var item := items.before + Print(items.value) + items.after;
    if items.LastItem? then item else item + ([COMMA] + PrintItems(items.rest))
  }

  function PrintMembers(members: Members): bytes {
    var member := members.before + PrintString(members.name) + members.afterName
                  + ([COLON] + members.beforeValue + Print(members.value) + members.after);
    if members.LastMember? then member else member + ([COMMA] + PrintMembers(members.rest))
  }

  predicate IsContainer(v: Json) {
    !v.Literal? && !v.Text?
  }

  // ----- The scan passes over whole values -----

  function Walk(s: bytes, st: Scan): Scan {
    if s == [] then st else Walk(s[1..], st.Next(s[0]))
  }

  /** The scan does not end within s. */
  predicate Passes(s: bytes, st: Scan) {
    s == [] || (!st.EndsAt(s[0]) && Passes(s[1..], st.Next(s[0])))
  }

  lemma {:induction false} WalkAppend(a: bytes, b: bytes, st: Scan)
    ensures Walk(a + b, st) == Walk(b, Walk(a, st))
    ensures Passes(a + b, st) <==> Passes(a, st) && Passes(b, Walk(a, st))
    ensures Passes(a, st) ==> Length(a + b, st) == |a| + Length(b, Walk(a, st))
  {
    hide Scan.Next, Scan.EndsAt;
    if a == [] {
      assert a + b == b;
    } else {
      assert (a + b)[1..] == a[1..] + b;
      WalkAppend(a[1..], b, st.Next(a[0]));
    }
  }

  /** Scanning s at any depth inside a value leaves the scan where it was. */
  ghost predicate Neutral(s: bytes) {
    forall open: byte, depth: int :: IsOpener(open) && depth >= 1 ==> NeutralAt(s, open, depth)
  }

  predicate NeutralAt(s: bytes, open: byte, depth: int) {
    var st := Scan(open, depth, false, false);
    Passes(s, st) && Walk(s, st) == st
  }

  lemma {:induction false} NeutralAppend(a: bytes, b: bytes)
    requires Neutral(a) && Neutral(b)
    ensures Neutral(a + b)
  {
    hide Walk, Passes;
    forall open: byte, depth: int | IsOpener(open) && depth >= 1 ensures NeutralAt(a + b, open, depth) {
      assert NeutralAt(a, open, depth) && NeutralAt(b, open, depth);
      WalkAppend(a, b, Scan(open, depth, false, false));
    }
  }

  /** A byte that means nothing outside strings. */
  predicate IsInert(b: byte) {
    b != QUOTE && !IsOpener(b) && b != CLOSE_ARRAY && b != CLOSE_OBJECT
  }

  lemma {:induction false} InertIsNeutral(s: bytes)
    requires forall i :: 0 <= i < |s| ==> IsInert(s[i])
    ensures Neutral(s)
  {
    forall open: byte, depth: int | IsOpener(open) && depth >= 1 ensures NeutralAt(s, open, depth) {
      InertAt(s, open, depth);
    }
  }

  lemma {:induction false} InertAt(s: bytes, open: byte, depth: int)
    requires IsOpener(open) && depth >= 1
    requires forall i :: 0 <= i < |s| ==> IsInert(s[i])
    ensures NeutralAt(s, open, depth)
  {
    if s == [] {
    } else {
      InertAt(s[1..], open, depth);
    }
  }

  lemma {:induction false} CharsStayInString(chars: seq<StringByte>, open: byte, depth: int)
    requires ValidChars(chars)
    ensures var st := Scan(open, depth, true, false);
            Passes(PrintChars(chars), st) && Walk(PrintChars(chars), st) == st
  {
    if chars == [] {
    } else {
      var st := Scan(open, depth, true, false);
      CharsStayInString(chars[1..], open, depth);
      var first := if chars[0].Plain? then [chars[0].b] else [BACKSLASH, chars[0].b];
      WalkAppend(first, PrintChars(chars[1..]), st);
      FirstChar(chars[0], st);
    }
  }

  lemma {:induction false} FirstChar(c: StringByte, st: Scan)
    requires ValidChars([c]) && st.inString && !st.escape
    ensures var s := if c.Plain? then [c.b] else [BACKSLASH, c.b];
            Passes(s, st) && Walk(s, st) == st
  {
    assert [c][0] == c;
    if c.Escaped? {
      WalkAppend([BACKSLASH], [c.b], st);
      assert [BACKSLASH] + [c.b] == [BACKSLASH, c.b];
      OneByte(BACKSLASH, st);
      OneByte(c.b, st.(escape := true));
    }
  }

  lemma {:induction false} StringIsNeutral(chars: seq<StringByte>)
    requires ValidChars(chars)
    ensures Neutral(PrintString(chars))
  {
    hide PrintChars, Passes, Walk;
    forall open: byte, depth: int | IsOpener(open) && depth >= 1 ensures NeutralAt(PrintString(chars), open, depth) {
      var st := Scan(open, depth, false, false);
      CharsStayInString(chars, open, depth);
      WalkAppend([QUOTE] + PrintChars(chars), [QUOTE], st);
      WalkAppend([QUOTE], PrintChars(chars), st);
      OneByte(QUOTE, st);
      OneByte(QUOTE, st.(inString := true));
    }
  }

  lemma {:induction false} OneByte(b: byte, st: Scan)
    ensures Walk([b], st) == st.Next(b) && (Passes([b], st) <==> !st.EndsAt(b)) && (st.EndsAt(b) ==> Length([b], st) == 1)
  {
  }

  lemma {:induction false} BracketedIsNeutral(open: byte, inner: bytes)
    requires IsOpener(open) && Neutral(inner)
    ensures Neutral([open] + inner + [CloserOf(open)])
  {
    hide Passes, Walk;
    var s := [open] + inner + [CloserOf(open)];
    forall kind: byte, depth: int | IsOpener(kind) && depth >= 1 ensures NeutralAt(s, kind, depth) {
      var st := Scan(kind, depth, false, false);
      WalkAppend([open] + inner, [CloserOf(open)], st);
      WalkAppend([open], inner, st);
      OneByte(open, st);
      var inside := st.Next(open).depth;
      assert NeutralAt(inner, kind, inside);
      OneByte(CloserOf(open), st.Next(open));
    }
  }

  lemma {:induction false} SpaceIsNeutral(s: bytes)
    requires AllSpace(s) || AllLiteral(s)
    ensures Neutral(s)
  {
    InertIsNeutral(s);
  }

  lemma {:induction false} ValueIsNeutral(v: Json)
    requires Valid(v)
    ensures Neutral(Print(v))
    decreases v, 1
  {
    hide Neutral, PrintItems, PrintMembers, ValidItems, ValidMembers;
    match v
    case Literal(text) => SpaceIsNeutral(text);
    case Text(chars) => StringIsNeutral(chars);
    case _ => InsideIsNeutral(v); BracketedIsNeutral(Opener(v), Inside(v));
  }

  function Opener(v: Json): byte
    requires IsContainer(v)
  {
    if v.EmptyArray? || v.Array? then OPEN_ARRAY else OPEN_OBJECT
  }

  function Inside(v: Json): bytes
    requires IsContainer(v)
  {
    match v
    case EmptyArray(space) => space
    case EmptyObject(space) => space
    case Array(items) => PrintItems(items)
    case Object(members) => PrintMembers(members)
  }

  lemma {:induction false} InsideIsNeutral(v: Json)
    requires Valid(v) && IsContainer(v)
    ensures Neutral(Inside(v))
    decreases v, 0
  {
    hide Neutral, PrintItems, PrintMembers, ValidItems, ValidMembers;
    match v
    case EmptyArray(space) => SpaceIsNeutral(space);
    case EmptyObject(space) => SpaceIsNeutral(space);
    case Array(items) => ItemsAreNeutral(items);
    case Object(members) => MembersAreNeutral(members);
  }

  lemma {:induction false} ItemsAreNeutral(items: Items)
    requires ValidItems(items)
    ensures Neutral(PrintItems(items))
    decreases items, 0
  {
    hide Neutral, Print, Valid;
    SpaceIsNeutral(items.before);
    ValueIsNeutral(items.value);
    SpaceIsNeutral(items.after);
    NeutralAppend(items.before, Print(items.value));
    NeutralAppend(items.before + Print(items.value), items.after);
    if items.LastItem? {
    } else {
      InertIsNeutral([COMMA]);
      ItemsAreNeutral(items.rest);
      NeutralAppend([COMMA], PrintItems(items.rest));
      NeutralAppend(items.before + Print(items.value) + items.after, [COMMA] + PrintItems(items.rest));
    }
  }

  lemma {:induction false} MembersAreNeutral(members: Members)
    requires ValidMembers(members)
    ensures Neutral(PrintMembers(members))
    decreases members, 0
  {
    hide Neutral, Print, Valid, PrintString;
    var name := members.before + PrintString(members.name) + members.afterName;
    var value := [COLON] + members.beforeValue + Print(members.value) + members.after;
    SpaceIsNeutral(members.before);
    StringIsNeutral(members.name);
    SpaceIsNeutral(members.afterName);
    NeutralAppend(members.before, PrintString(members.name));
    NeutralAppend(members.before + PrintString(members.name), members.afterName);
    InertIsNeutral([COLON]);
    SpaceIsNeutral(members.beforeValue);
    ValueIsNeutral(members.value);
    SpaceIsNeutral(members.after);
    NeutralAppend([COLON], members.beforeValue);
    NeutralAppend([COLON] + members.beforeValue, Print(members.value));
    NeutralAppend([COLON] + members.beforeValue + Print(members.value), members.after);
    NeutralAppend(name, value);
    if members.LastMember? {
    } else {
      InertIsNeutral([COMMA]);
      MembersAreNeutral(members.rest);
      NeutralAppend([COMMA], PrintMembers(members.rest));
      NeutralAppend(name + value, [COMMA] + PrintMembers(members.rest));
    }
  }

  /** The scan that starts at a container's bracket takes exactly the container. */
  lemma {:induction false} ScanTakesContainer(v: Json, tail: bytes)
    requires Valid(v) && IsContainer(v)
    ensures Print(v) != [] && Print(v)[0] == Opener(v)
    ensures Length(Print(v) + tail, Scan(Opener(v), 0, false, false)) == |Print(v)|
  {
    hide Passes, Walk, Length, PrintItems, PrintMembers, ValidItems, ValidMembers, Neutral;
    InsideIsNeutral(v);
    var open, inner := Opener(v), Inside(v);
    var st := Scan(open, 0, false, false);
    var st1 := st.Next(open);
    NeutralInside(inner, open);
    OneByte(open, st);
    OneByte(CloserOf(open), st1);
    WalkAppend([open], inner, st);
    WalkAppend([open] + inner, [CloserOf(open)] + tail, st);
    LengthOfEnd(CloserOf(open), tail, st1);
    assert Print(v) + tail == [open] + inner + ([CloserOf(open)] + tail);
  }

  lemma {:induction false} NeutralInside(s: bytes, open: byte)
    requires Neutral(s) && IsOpener(open)
    ensures NeutralAt(s, open, 1)
  {
  }

  lemma {:induction false} LengthOfEnd(b: byte, tail: bytes, st: Scan)
    requires st.EndsAt(b)
    ensures Length([b] + tail, st) == 1
  {
  }

  /** JSON recovery: an array or object is cut out of whatever follows it, and of whatever precedes it
      that holds no opening bracket. */
  lemma {:induction false} TrimRecovers(prefix: bytes, v: Json, tail: bytes)
    requires Valid(v) && IsContainer(v)
    requires forall k :: 0 <= k < |prefix| ==> !IsOpener(prefix[k])
    ensures Trim(prefix + Print(v) + tail) == Print(v)
  {
    hide Print, Length, Valid;
    ScanTakesContainer(v, tail);
    var data := prefix + Print(v) + tail;
    assert data[|prefix|] == Print(v)[0];
    FirstOpenerAt(data, |prefix|);
    assert data[|prefix|..] == Print(v) + tail;
  }

  lemma {:induction false} LengthIsStable(s: bytes, st: Scan)
    ensures Length(s[..Length(s, st)], st) == Length(s, st)
  {
    hide Scan.Next, Scan.EndsAt;
    if s == [] || st.EndsAt(s[0]) {
    } else {
      LengthIsStable(s[1..], st.Next(s[0]));
      assert s[..Length(s, st)][1..] == s[1..][..Length(s[1..], st.Next(s[0]))];
    }
  }

  /** Trimming is idempotent on every input, JSON or not. */
  lemma {:induction false} TrimIdempotent(data: bytes)
    ensures Trim(Trim(data)) == Trim(data)
  {
    hide Length;
    var start := FirstOpener(data);
    if start < |data| {
      var st := Scan(data[start], 0, false, false);
      LengthIsStable(data[start..], st);
      var cut := Trim(data);
      assert cut == data[start..][..Length(data[start..], st)];
      assert cut != [] by { LengthPositive(data[start..], st); }
      FirstOpenerAt(cut, 0);
      assert cut[0..] == cut;
    }
  }

  lemma {:induction false} LengthPositive(s: bytes, st: Scan)
    requires s != []
    ensures Length(s, st) >= 1
  {
  }

  // ----- What is not a whole value -----

  /** Without an opening bracket the data is returned as it is. */
  lemma {:induction false} NothingToTrim(data: bytes)
    requires forall k :: 0 <= k < |data| ==> data[k] != 0x5B && data[k] != 0x7B
    ensures Trim(data) == data
  {
  }

  /** Cutting a scanned text short of where its scan ends leaves a scan that takes everything. */
  lemma {:induction false} ShortScanTakesAll(s: bytes, n: nat, st: Scan)
    requires n < Length(s, st)
    ensures Length(s[..n], st) == n
  {
    hide Scan.Next, Scan.EndsAt;
    if n == 0 {
    } else {
      assert s[..n][1..] == s[1..][..n - 1];
      ShortScanTakesAll(s[1..], n - 1, st.Next(s[0]));
    }
  }

  /** A value cut short is returned from its bracket to the end. */
  lemma {:induction false} TruncatedIsKept(prefix: bytes, v: Json, n: nat)
    requires Valid(v) && IsContainer(v) && 0 < n < |Print(v)|
    requires forall k :: 0 <= k < |prefix| ==> prefix[k] != 0x5B && prefix[k] != 0x7B
    ensures Trim(prefix + Print(v)[..n]) == Print(v)[..n]
  {
    hide Print, Length, Valid;
    ScanTakesContainer(v, []);
    var text, data := Print(v), prefix + Print(v)[..n];
    assert text + [] == text;
    ShortScanTakesAll(text, n, Scan(Opener(v), 0, false, false));
    assert data[|prefix|] == text[0];
    FirstOpenerAt(data, |prefix|);
    assert data[|prefix|..] == text[..n];
  }

  /** Only brackets of the kind that opened the value count, and quotes: anything else is passed over. */
  lemma {:induction false} OtherBytesAreNeutral(s: bytes, open: byte, depth: int)
    requires IsOpener(open) && depth >= 1
    requires forall k :: 0 <= k < |s| ==> s[k] != 0x22 && s[k] != open && s[k] != CloserOf(open)
    ensures NeutralAt(s, open, depth)
  {
    if s == [] {
    } else {
      OtherBytesAreNeutral(s[1..], open, depth);
    }
  }

  /** So brackets of the other kind need not match. */
  lemma {:induction false} OtherBracketsDoNotCount(open: byte, close: byte, s: bytes, tail: bytes)
    requires (open == 0x5B && close == 0x5D) || (open == 0x7B && close == 0x7D)
    requires forall k :: 0 <= k < |s| ==> s[k] != 0x22 && s[k] != open && s[k] != close
    ensures Trim([open] + s + [close] + tail) == [open] + s + [close]
  {
    hide Passes, Walk, Length;
    var data := [open] + s + [close] + tail;
    var st := Scan(open, 0, false, false);
    OtherBytesAreNeutral(s, open, 1);
    OneByte(open, st);
    WalkAppend([open], s, st);
    WalkAppend([open] + s, [close] + tail, st);
    LengthOfEnd(close, tail, st.Next(open));
    assert data == [open] + s + ([close] + tail);
    FirstOpenerAt(data, 0);
    assert data[0..] == data;
  }
}
