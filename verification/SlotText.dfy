/** The text form of a slot list: "1,2,3,[9,12],17". */
module SlotText {
  import opened Basics
  import opened SlotMapping

  // ----- numbers

  predicate IsDigit(c: char) { '0' <= c <= '9' }

  predicate AllDigits(s: string) {
    forall i :: 0 <= i < |s| ==> IsDigit(s[i])
  }

  function Digit(n: nat): char
    requires n < 10
  {
    '0' + n as char
  }

  function Decimal(n: nat): string {
    if n < 10 then [Digit(n)] else Decimal(n / 10) + [Digit(n % 10)]
  }

  function Value(s: string): nat
    requires AllDigits(s)
  {
    if s == [] then 0 else 10 * Value(s[..|s| - 1]) + (s[|s| - 1] - '0') as nat
  }

  function Pow10(n: nat): nat { if n == 0 then 1 else 10 * Pow10(n - 1) }

  lemma TimesTen(a: int, b: int)
    ensures 10 * (a * b) == a * (10 * b)
  {
  }

  /** Each digit counts ten times the next. */
  lemma {:induction false} ValueByPlace(s: string)
    requires s != [] && AllDigits(s)
    ensures Value(s) == (s[0] - '0') as nat * Pow10(|s| - 1) + Value(s[1..])
    decreases |s|
  {
    if |s| > 1 {
      var pre := s[..|s| - 1];
      ValueByPlace(pre);
      assert pre[1..] == s[1..][..|s| - 2];
      TimesTen((s[0] - '0') as nat, Pow10(|s| - 2));
    }
  }

  lemma {:induction false} DecimalReadsBack(n: nat)
    ensures AllDigits(Decimal(n)) && Decimal(n) != [] && Value(Decimal(n)) == n
  {
    var last := [Digit(n % 10)];
    assert AllDigits(last);
    if n < 10 {
      assert Decimal(n)[..0] == [];
    } else {
      DecimalReadsBack(n / 10);
      var s := Decimal(n);
      assert s[..|s| - 1] == Decimal(n / 10);
    }
  }

  function Number(n: int): string {
    if n < 0 then "-" + Decimal(-n) else Decimal(n)
  }

  /** Digits, with single underscores allowed between two of them. */
  predicate IsUnsigned(s: string) {
    && s != []
    && IsDigit(s[0])
    && (|s| == 1 || if s[1] == '_' then IsUnsigned(s[2..]) else IsUnsigned(s[1..]))
  }

  function DropUnderscores(s: string): string {
    if s == [] then [] else if s[0] == '_' then DropUnderscores(s[1..]) else [s[0]] + DropUnderscores(s[1..])
  }

  lemma {:induction false} UnsignedDigits(s: string)
    requires IsUnsigned(s)
    ensures AllDigits(DropUnderscores(s))
    decreases |s|
  {
    if |s| > 1 {
      if s[1] == '_' {
        UnsignedDigits(s[2..]);
        assert s[1..][1..] == s[2..];
      } else {
        UnsignedDigits(s[1..]);
      }
    } else {
      assert DropUnderscores(s[1..]) == [];
    }
  }

  lemma {:induction false} DigitsUnsigned(s: string)
    requires AllDigits(s)
    ensures DropUnderscores(s) == s
    ensures s != [] ==> IsUnsigned(s)
  {
    if s != [] {
      DigitsUnsigned(s[1..]);
      assert s == [s[0]] + s[1..];
    }
  }

  function ReadUnsigned(s: string): Option<nat> {
    if IsUnsigned(s) then UnsignedDigits(s); Some(Value(DropUnderscores(s))) else None
  }

  /** An optional sign and a number, as the int constructor reads it. */
  function ReadInt(s: string): Option<int> {
    if s == [] then None
    else if s[0] == '-' then
      var r := ReadUnsigned(s[1..]);
      if r.None? then None else Some(0 - r.value)
    else
      var r := ReadUnsigned(if s[0] == '+' then s[1..] else s);
      if r.None? then None else Some(r.value as int)
  }

  lemma NumberReadsBack(n: int)
    ensures ReadInt(Number(n)) == Some(n)
  {
    var m: nat := if n < 0 then -n else n;
    DecimalReadsBack(m);
    DigitsUnsigned(Decimal(m));
    assert IsDigit(Decimal(m)[0]);
    if n < 0 {
      assert Number(n)[1..] == Decimal(m);
    }
  }

  // ----- ranges

  function FirstComma(s: string): (k: nat)
    ensures k <= |s| && ',' !in s[..k] && (k < |s| ==> s[k] == ',')
  {
    if s == [] || s[0] == ',' then 0
    else
      var k := FirstComma(s[1..]);
      assert s[..k + 1] == [s[0]] + s[1..][..k];
      1 + k
  }

  /** The two numbers of "[digits,digits]". */
  function MatchRange(part: string): Option<(nat, nat)> {
    if |part| < 2 || part[0] != '[' || part[|part| - 1] != ']' then None
    else
      var inner := part[1..|part| - 1];
      var k := FirstComma(inner);
      if k == |inner| then None
      else
        var a, b := inner[..k], inner[k + 1..];
        if a != [] && b != [] && AllDigits(a) && AllDigits(b) then Some((Value(a), Value(b))) else None
  }

  function ParsePart(part: string): Option<Item> {
    var m := MatchRange(part);
    if m.Some? then
      if m.value.0 > m.value.1 then None else Some(Range(m.value.0, m.value.1))
    else
      var n := ReadInt(part);
      if n.None? then None else Some(One(n.value))
  }

  function Text(item: Item): string {
    match item
    case One(n) => Number(n)
    case Range(lo, hi) => "[" + Number(lo) + "," + Number(hi) + "]"
  }

  /** The items whose text the parser accepts. */
  predicate Readable(item: Item) {
    item.Range? ==> 0 <= item.lo <= item.hi
  }

  /** Digits and at most a sign: nothing the scanner treats specially. */
  predicate Plain(s: string) {
    forall i :: 0 <= i < |s| ==> IsDigit(s[i]) || s[i] == '-'
  }

  lemma NumberPlain(n: int)
    ensures Plain(Number(n)) && Number(n) != []
    ensures AllDigits(Number(n)) <==> n >= 0
    ensures n >= 0 ==> Value(Number(n)) == n
  {
    DecimalReadsBack(if n < 0 then -n else n);
    if n < 0 {
      assert Number(n)[0] == '-';
    }
  }

  lemma CommaAt(a: string, b: string)
    requires Plain(a)
    ensures FirstComma(a + "," + b) == |a|
  {
    var s := a + "," + b;
    assert s[|a|] == ',';
    assert forall i :: 0 <= i < |a| ==> s[i] == a[i];
  }

  lemma MatchRangeText(lo: int, hi: int)
    ensures MatchRange(Text(Range(lo, hi))) ==
            if 0 <= lo && 0 <= hi then Some((lo as nat, hi as nat)) else None
  {
    var a, b := Number(lo), Number(hi);
    NumberPlain(lo);
    NumberPlain(hi);
    CommaAt(a, b);
    var part := Text(Range(lo, hi));
    var inner := a + "," + b;
    assert part[1..|part| - 1] == inner;
    assert inner[..|a|] == a && inner[|a| + 1..] == b;
  }

  /** One part is read back as the item it came from, and is refused otherwise. */
  lemma ParsePartText(item: Item)
    ensures ParsePart(Text(item)) == if Readable(item) then Some(item) else None
  {
    match item
    case One(n) =>
      NumberReadsBack(n);
      NumberPlain(n);
      assert Text(item)[0] != '[';
    case Range(lo, hi) =>
      MatchRangeText(lo, hi);
      assert Text(item)[0] == '[';
      assert !IsUnsigned(Text(item));
  }

  // ----- splitting at commas outside brackets

  function Cons(part: string, rest: Option<seq<string>>): Option<seq<string>> {
    if rest.None? then None else Some([part] + rest.value)
  }

  /** The parts of what is left of the text, given the buffered characters. */
  function Scan(s: string, buffer: string, inBrackets: bool): Option<seq<string>> {
    if s == [] then
      if inBrackets then None else if buffer != [] then Some([buffer]) else Some([])
    else if s[0] == '[' then
      if inBrackets then None else Scan(s[1..], buffer + [s[0]], true)
    else if s[0] == ']' then
      if !inBrackets then None else Cons(buffer + [s[0]], Scan(s[1..], [], false))
    else if s[0] == ',' && !inBrackets then
      if buffer != [] then Cons(buffer, Scan(s[1..], [], false)) else Scan(s[1..], buffer, false)
    else Scan(s[1..], buffer + [s[0]], inBrackets)
  }

  /** No bracket and no comma. */
  predicate NoMarks(s: string) {
    forall i :: 0 <= i < |s| ==> s[i] != '[' && s[i] != ']' && s[i] != ','
  }

  lemma {:induction false} ScanPlain(t: string, s: string, buffer: string, inBrackets: bool)
    requires NoMarks(t)
    ensures Scan(t + s, buffer, inBrackets) == Scan(s, buffer + t, inBrackets)
    decreases |t|
  {
    if t == [] {
      assert t + s == s && buffer + t == buffer;
    } else {
      assert (t + s)[1..] == t[1..] + s;
      ScanPlain(t[1..], s, buffer + [t[0]], inBrackets);
      assert buffer + t == buffer + [t[0]] + t[1..];
    }
  }

  lemma ScanBrackets(a: string, b: string, s: string)
    requires NoMarks(a) && NoMarks(b)
    ensures var t := "[" + a + "," + b + "]"; Scan(t + s, [], false) == Cons(t, Scan(s, [], false))
  {
    var s3 := "]" + s;
    var s2 := "," + (b + s3);
    var s1 := a + s2;
    assert "[" + a + "," + b + "]" + s == "[" + s1;
    assert ("[" + s1)[1..] == s1 && [] + "[" == "[";
    ScanPlain(a, s2, "[", true);
    assert s2[1..] == b + s3;
    ScanPlain(b, s3, "[" + a + ",", true);
    assert s3[1..] == s;
  }

  lemma ScanRange(lo: int, hi: int, s: string)
    ensures Scan(Text(Range(lo, hi)) + s, [], false) == Cons(Text(Range(lo, hi)), Scan(s, [], false))
  {
    NumberPlain(lo);
    NumberPlain(hi);
    ScanBrackets(Number(lo), Number(hi), s);
  }

  function Texts(items: seq<Item>): seq<string> {
    if items == [] then [] else [Text(items[0])] + Texts(items[1..])
  }

  /** The items joined with commas. */
  function Render(items: seq<Item>): string {
    if items == [] then []
    else if |items| == 1 then Text(items[0])
    else Text(items[0]) + "," + Render(items[1..])
  }

  /** The scanner cuts the text exactly at the commas that were put in. */
  lemma {:induction false} ScanRender(items: seq<Item>)
    ensures Scan(Render(items), [], false) == Some(Texts(items))
  {
    if items != [] {
      var t := Text(items[0]);
      var tail := if |items| == 1 then [] else "," + Render(items[1..]);
      assert Render(items) == t + tail;
      ScanRender(items[1..]);
      assert |items| > 1 ==> tail[1..] == Render(items[1..]);
      match items[0]
      case One(n) =>
        NumberPlain(n);
        ScanPlain(t, tail, [], false);
        assert [] + t == t && [t] + [] == [t];
      case Range(lo, hi) =>
        ScanRange(lo, hi, tail);
    }
  }

  // ----- the whole parser

  predicate IsSpace(c: char) {
    || c == ' '
    || '\t' <= c <= '\r'
    || '\U{1c}' <= c <= '\U{1f}'
  }

  function Clean(s: string): string {
    if s == [] then [] else (if IsSpace(s[0]) then [] else [s[0]]) + Clean(s[1..])
  }

  function ParseParts(parts: seq<string>): Option<seq<Item>> {
    if parts == [] then Some([])
    else
      var item := ParsePart(parts[0]);
      if item.None? then None
      else
        var rest := ParseParts(parts[1..]);
        if rest.None? then None else Some([item.value] + rest.value)
  }

  function Parse(text: string): Option<seq<int>> {
    var parts := Scan(Clean(text), [], false);
    if parts.None? then None
    else
      var items := ParseParts(parts.value);
      if items.None? then None else Some(Decompress(items.value))
  }

  predicate NoSpace(s: string) {
    forall i :: 0 <= i < |s| ==> !IsSpace(s[i])
  }

  lemma {:induction false} CleanKeeps(s: string)
    requires NoSpace(s)
    ensures Clean(s) == s
  {
    if s != [] {
      CleanKeeps(s[1..]);
      assert s == [s[0]] + s[1..];
    }
  }

  lemma NoSpaceAppend(a: string, b: string)
    requires NoSpace(a) && NoSpace(b)
    ensures NoSpace(a + b)
  {
  }

  lemma NoSpaceJoin(a: string, b: string)
    requires NoSpace(a) && NoSpace(b)
    ensures NoSpace(a + "," + b)
  {
    var comma := ",";
    NoSpaceAppend(a, comma);
    NoSpaceAppend(a + comma, b);
  }

  lemma PlainNoSpace(s: string)
    requires Plain(s)
    ensures NoSpace(s)
  {
  }

  lemma TextNoSpace(item: Item)
    ensures NoSpace(Text(item))
  {
    match item
    case One(n) =>
      NumberPlain(n);
      PlainNoSpace(Number(n));
    case Range(lo, hi) =>
      NumberPlain(lo);
      NumberPlain(hi);
      PlainNoSpace(Number(lo));
      PlainNoSpace(Number(hi));
      NoSpaceAppend("[" + Number(lo) + ",", Number(hi) + "]");
      assert Text(item) == ("[" + Number(lo) + ",") + (Number(hi) + "]");
  }

  lemma {:induction false} RenderNoSpace(items: seq<Item>)
    ensures NoSpace(Render(items))
  {
    if items != [] {
      TextNoSpace(items[0]);
      if |items| > 1 {
        RenderNoSpace(items[1..]);
        NoSpaceJoin(Text(items[0]), Render(items[1..]));
      }
    }
  }

  predicate AllReadable(items: seq<Item>) {
    forall i :: 0 <= i < |items| ==> Readable(items[i])
  }

  lemma {:induction false} ParsePartsTexts(items: seq<Item>)
    ensures ParseParts(Texts(items)) == if AllReadable(items) then Some(items) else None
  {
    if items != [] {
      ParsePartText(items[0]);
      ParsePartsTexts(items[1..]);
      assert Texts(items)[1..] == Texts(items[1..]);
      assert items == [items[0]] + items[1..];
      assert AllReadable(items) <==> Readable(items[0]) && AllReadable(items[1..]);
    }
  }

  lemma Associates(a: string, b: string, c: string)
    ensures a + (b + c) == a + b + c
  {
  }

  lemma {:induction false} CleanAppend(a: string, b: string)
    ensures Clean(a + b) == Clean(a) + Clean(b)
  {
    if a == [] {
      assert a + b == b;
    } else {
      CleanAppend(a[1..], b);
      assert (a + b)[0] == a[0] && (a + b)[1..] == a[1..] + b;
      Associates(if IsSpace(a[0]) then [] else [a[0]], Clean(a[1..]), Clean(b));
    }
  }

  /** White space anywhere in the text makes no difference. */
  lemma WhiteSpaceIgnored(a: string, c: char, b: string)
    requires IsSpace(c)
    ensures Parse(a + [c] + b) == Parse(a + b)
  {
    CleanAppend(a + [c], b);
    CleanAppend(a, [c]);
    CleanAppend(a, b);
    assert [c][1..] == [] && Clean([c]) == [];
    assert Clean(a) + [] == Clean(a);
  }

  /** Every text that is a list of items written out, with white space anywhere, is read back as its
      slots, or refused if a range is unreadable. */
  lemma ParseSpaced(text: string, items: seq<Item>)
    requires Clean(text) == Render(items)
    ensures Parse(text) == if AllReadable(items) then Some(Decompress(items)) else None
  {
    ScanRender(items);
    ParsePartsTexts(items);
  }

  /** In particular the text itself. */
  lemma ParseRender(items: seq<Item>)
    ensures Parse(Render(items)) == if AllReadable(items) then Some(Decompress(items)) else None
  {
    RenderNoSpace(items);
    CleanKeeps(Render(items));
    ParseSpaced(Render(items), items);
  }

  /** Compressing, writing and parsing gives the slots back iff no run of three starts below zero. */
  lemma TextRoundTrip(slots: seq<int>)
    ensures Parse(Render(Compress(slots))) == if NoNegativeRun(slots) then Some(slots) else None
  {
    var items := Compress(slots);
    ParseRender(items);
    CompressRoundTrip(slots);
    NegativeRuns(slots);
    assert AllReadable(items) <==> NonNegativeRanges(items);
  }

  /** A run below zero is written with a sign the range pattern does not take. */
  lemma NegativeRunRefused()
    ensures Compress([-3, -2, -1]) == [Range(-3, -1)]
    ensures Parse(Render(Compress([-3, -2, -1]))) == None
  {
    var s := [-3, -2, -1];
    assert s[1..] == [-2, -1] && [-2, -1][1..] == [-1] && [-1][1..] == [];
    TextRoundTrip(s);
  }

  // ----- the loops of the source

  method ParseMixedSlotMapping(text: string) returns (result: Option<seq<int>>)
    ensures result == Parse(text)
    ensures forall items :: Clean(text) == Render(items) ==>
              result == if AllReadable(items) then Some(Decompress(items)) else None
  {
    forall items | Clean(text) == Render(items)
      ensures Parse(text) == if AllReadable(items) then Some(Decompress(items)) else None
    {
      ParseSpaced(text, items);
    }
    var parts := SplitParts(Clean(text));
    if parts.None? {
      return None;
    }
    result := ParseEach(parts.value);
  }

  function Before(parts: seq<string>, rest: Option<seq<string>>): Option<seq<string>> {
    if rest.None? then None else Some(parts + rest.value)
  }

  method SplitParts(s: string) returns (r: Option<seq<string>>)
    ensures r == Scan(s, [], false)
  {
    var parts, buffer, inBrackets := [], "", false;
    assert s[0..] == s;
    BeforeNothing(Scan(s, [], false));
    for i := 0 to |s|
      invariant Before(parts, Scan(s[i..], buffer, inBrackets)) == Scan(s, [], false)
    {
      var c := s[i];
      assert s[i..][1..] == s[i + 1..];
      if c == '[' {
        if inBrackets {
          return None;
        }
        inBrackets := true;
        buffer := buffer + [c];
      } else if c == ']' {
        if !inBrackets {
          return None;
        }
        inBrackets := false;
        BeforeCons(parts, buffer + [c], Scan(s[i + 1..], [], false));
        parts, buffer := parts + [buffer + [c]], [];
      } else if c == ',' && !inBrackets {
        if buffer != [] {
          BeforeCons(parts, buffer, Scan(s[i + 1..], [], false));
          parts, buffer := parts + [buffer], [];
        }
      } else {
        buffer := buffer + [c];
      }
    }
    assert s[|s|..] == [] && parts + [] == parts;
    if buffer != [] {
      parts := parts + [buffer];
    }
    if inBrackets {
      return None;
    }
    return Some(parts);
  }

  lemma BeforeNothing(rest: Option<seq<string>>)
    ensures Before([], rest) == rest
  {
    if rest.Some? {
      assert [] + rest.value == rest.value;
    }
  }

  lemma BeforeCons(parts: seq<string>, part: string, rest: Option<seq<string>>)
    ensures Before(parts, Cons(part, rest)) == Before(parts + [part], rest)
  {
    if rest.Some? {
      assert parts + ([part] + rest.value) == parts + [part] + rest.value;
    }
  }

  method ParseEach(parts: seq<string>) returns (r: Option<seq<int>>)
    ensures r == var items := ParseParts(parts); if items.None? then None else Some(Decompress(items.value))
  {
    var compressed: seq<Item> := [];
    assert parts[0..] == parts;
    ghost var all := ParseParts(parts);
    assert all.Some? ==> compressed + all.value == all.value;
    for i := 0 to |parts|
      invariant ParseParts(parts) ==
                var rest := ParseParts(parts[i..]); if rest.None? then None else Some(compressed + rest.value)
    {
      assert parts[i..][1..] == parts[i + 1..];
      var item := ParsePart(parts[i]);
      if item.None? {
        return None;
      }
      ghost var rest := ParseParts(parts[i + 1..]);
      assert rest.Some? ==> compressed + ([item.value] + rest.value) == compressed + [item.value] + rest.value;
      compressed := compressed + [item.value];
    }
    assert compressed + [] == compressed;
    var slots := DecompressSlotMapping(compressed);
    return Some(slots);
  }
}
