/** Which texts the slot parser accepts, as a grammar of its own, and what they mean. */
module SlotGrammar {
  import opened Basics
  import opened SlotMapping
  import opened SlotText

  // ----- numbers

  /** Digits and underscores; every underscore stands between two digits. */
  predicate NumText(s: string) {
    && s != []
    && (forall i :: 0 <= i < |s| ==> IsDigit(s[i]) || s[i] == '_')
    && (forall i :: 0 <= i < |s| && s[i] == '_' ==> 0 < i < |s| - 1 && s[i - 1] != '_' && s[i + 1] != '_')
  }

  lemma {:induction false} UnsignedIff(s: string)
    ensures IsUnsigned(s) <==> NumText(s)
    decreases |s|
  {
    if |s| > 1 {
      var rest := if s[1] == '_' then s[2..] else s[1..];
      UnsignedIff(rest);
      if NumText(s) { NumTail(s, rest); }
      if IsDigit(s[0]) && NumText(rest) { NumHead(s, rest); }
    }
  }

  lemma NumTail(s: string, rest: string)
    requires |s| > 1 && rest == (if s[1] == '_' then s[2..] else s[1..]) && NumText(s)
    ensures IsDigit(s[0]) && NumText(rest)
  {
    var k := |s| - |rest|;
    forall i | 0 <= i < |rest| && rest[i] == '_' ensures 0 < i < |rest| - 1 && rest[i - 1] != '_' && rest[i + 1] != '_' {
      assert s[i + k] == '_';
      assert i > 0;
    }
  }

  lemma NumHead(s: string, rest: string)
    requires |s| > 1 && rest == (if s[1] == '_' then s[2..] else s[1..]) && IsDigit(s[0]) && NumText(rest)
    ensures NumText(s)
  {
    var k := |s| - |rest|;
    assert forall i :: k <= i < |s| ==> s[i] == rest[i - k];
  }

  /** The number such a text stands for. */
  function NumValue(s: string): nat
    requires NumText(s)
  {
    UnsignedIff(s);
    UnsignedDigits(s);
    Value(DropUnderscores(s))
  }

  /** A number with an optional sign. */
  ghost predicate IntText(t: string, n: int) {
    || (NumText(t) && n == NumValue(t))
    || (t != [] && t[0] == '+' && NumText(t[1..]) && n == NumValue(t[1..]))
    || (t != [] && t[0] == '-' && NumText(t[1..]) && n + NumValue(t[1..]) == 0)
  }

  lemma ReadIntIff(t: string, n: int)
    ensures ReadInt(t) == Some(n) <==> IntText(t, n)
  {
    UnsignedIff(t);
    if t != [] { UnsignedIff(t[1..]); }
  }

  lemma IntNoMarks(t: string, n: int)
    requires IntText(t, n)
    ensures NoMarks(t) && t != []
  {
    if !NumText(t) {
      assert forall i :: 1 <= i < |t| ==> t[i] == t[1..][i - 1];
    }
  }

  // ----- ranges

  /** Two numbers in brackets, of plain digits, the comma between them at `k`. */
  predicate RangeTextAt(t: string, lo: int, hi: int, k: int) {
    && 1 < k < |t| - 2 && t[0] == '[' && t[k] == ',' && t[|t| - 1] == ']'
    && AllDigits(t[1..k]) && AllDigits(t[k + 1..|t| - 1])
    && lo == Value(t[1..k]) && hi == Value(t[k + 1..|t| - 1]) && lo <= hi
  }

  ghost predicate RangeText(t: string, lo: int, hi: int) { exists k :: RangeTextAt(t, lo, hi, k) }

  lemma CommaOfRange(t: string, lo: int, hi: int, k: int)
    requires RangeTextAt(t, lo, hi, k)
    ensures MatchRange(t) == Some((Value(t[1..k]), Value(t[k + 1..|t| - 1])))
  {
    var inner, a, b := t[1..|t| - 1], t[1..k], t[k + 1..|t| - 1];
    assert inner == a + "," + b;
    CommaAt(a, b);
    assert inner[..k - 1] == a && inner[k..] == b;
  }

  /** A part is accepted exactly when it is a range or a number of this grammar. */
  lemma ParsePartIff(t: string, item: Item)
    ensures ParsePart(t) == Some(item) <==>
            if item.Range? then RangeText(t, item.lo, item.hi) else IntText(t, item.slot)
  {
    if item.Range? {
      if k :| RangeTextAt(t, item.lo, item.hi, k) { CommaOfRange(t, item.lo, item.hi, k); }
      if ParsePart(t) == Some(item) { RangeOfMatch(t, item.lo, item.hi); }
    } else {
      ReadIntIff(t, item.slot);
      if IntText(t, item.slot) {
        IntNoMarks(t, item.slot);
        assert MatchRange(t) == None;
      }
    }
  }

  lemma RangeOfMatch(t: string, lo: int, hi: int)
    requires ParsePart(t) == Some(Range(lo, hi))
    ensures RangeText(t, lo, hi)
  {
    var inner := t[1..|t| - 1];
    var k := FirstComma(inner);
    assert inner[..k] == t[1..k + 1] && inner[k + 1..] == t[k + 2..|t| - 1] && inner[k] == t[k + 1];
    assert RangeTextAt(t, lo, hi, k + 1);
  }

  // ----- lists

  /** The first `k` characters are the text of the item, and a number ends at a comma or at the end. */
  ghost predicate Piece(s: string, k: int, item: Item) {
    0 < k <= |s| &&
    if item.Range? then RangeText(s[..k], item.lo, item.hi) else IntText(s[..k], item.slot) && (k == |s| || s[k] == ',')
  }

  /** A list of items: commas may be repeated, and may be left out after a range. */
  ghost predicate Listing(s: string, items: seq<Item>)
    decreases |s|
  {
    || (s == [] && items == [])
    || (s != [] && s[0] == ',' && Listing(s[1..], items))
    || (items != [] && exists k :: Piece(s, k, items[0]) && Listing(s[k..], items[1..]))
  }

  /** What the grammar accepts the parser accepts, with the same items. */
  lemma {:induction false} ListingParses(s: string, items: seq<Item>) returns (parts: seq<string>)
    requires Listing(s, items)
    ensures Scan(s, [], false) == Some(parts) && ParseParts(parts) == Some(items)
    decreases |s|
  {
    if s == [] && items == [] {
      parts := [];
    } else if s != [] && s[0] == ',' && Listing(s[1..], items) {
      parts := ListingParses(s[1..], items);
    } else {
      var k :| Piece(s, k, items[0]) && Listing(s[k..], items[1..]);
      var rest := ListingParses(s[k..], items[1..]);
      parts := [s[..k]] + rest;
      ParsePartIff(s[..k], items[0]);
      assert s == s[..k] + s[k..] && items == [items[0]] + items[1..] && parts[1..] == rest;
      if items[0].Range? {
        var c :| RangeTextAt(s[..k], items[0].lo, items[0].hi, c);
        PieceOfRange(s[..k], items[0].lo, items[0].hi, c, s[k..]);
      } else {
        PieceOfInt(s[..k], items[0].slot, s[k..]);
      }
    }
  }

  lemma PieceOfRange(t: string, lo: int, hi: int, k: int, rest: string)
    requires RangeTextAt(t, lo, hi, k)
    ensures Scan(t + rest, [], false) == Cons(t, Scan(rest, [], false))
  {
    var a, b := t[1..k], t[k + 1..|t| - 1];
    assert t == "[" + a + "," + b + "]";
    ScanBrackets(a, b, rest);
  }

  lemma PieceOfInt(t: string, n: int, rest: string)
    requires IntText(t, n) && (rest == [] || rest[0] == ',')
    ensures Scan(t + rest, [], false) == Cons(t, Scan(rest, [], false))
  {
    IntNoMarks(t, n);
    ScanPlain(t, rest, [], false);
    assert [] + t == t && [t] + [] == [t];
  }

  /** What the scanner holds in its buffer: outside brackets no mark, inside them the opening one. */
  predicate Buffered(buffer: string, inBrackets: bool) {
    if inBrackets then '[' in buffer else NoMarks(buffer)
  }

  /** What the parser accepts the grammar accepts, with the same items. */
  lemma {:induction false} ParsesListing(s: string, buffer: string, inBrackets: bool, parts: seq<string>, items: seq<Item>)
    requires Scan(s, buffer, inBrackets) == Some(parts) && ParseParts(parts) == Some(items) && Buffered(buffer, inBrackets)
    ensures Listing(buffer + s, items)
    decreases |s|
  {
    var all := buffer + s;
    if s == [] {
      assert all == buffer;
      if buffer != [] { LastPart(buffer, items); }
    } else if s[0] == ']' {
      CloseBracket(s, buffer, parts, items);
    } else if s[0] == ',' && !inBrackets {
      CommaOutside(s, buffer, parts, items);
    } else {
      var inside := inBrackets || s[0] == '[';
      assert all == buffer + [s[0]] + s[1..];
      ParsesListing(s[1..], buffer + [s[0]], inside, parts, items);
    }
  }

  lemma LastPart(buffer: string, items: seq<Item>)
    requires buffer != [] && NoMarks(buffer) && ParseParts([buffer]) == Some(items)
    ensures Listing(buffer, items)
  {
    assert [buffer][1..] == [];
    ParsePartIff(buffer, items[0]);
    NumberPart(buffer, items[0]);
    assert buffer[..|buffer|] == buffer && buffer[|buffer|..] == [] && items[1..] == [];
    assert Piece(buffer, |buffer|, items[0]);
  }

  lemma NumberPart(t: string, item: Item)
    requires NoMarks(t) && ParsePart(t) == Some(item)
    ensures item.One?
  {
  }

  lemma RangePart(t: string, item: Item)
    requires '[' in t && ParsePart(t) == Some(item)
    ensures item.Range?
  {
    if item.One? {
      ReadIntIff(t, item.slot);
      IntNoMarks(t, item.slot);
    }
  }

  lemma {:induction false} CloseBracket(s: string, buffer: string, parts: seq<string>, items: seq<Item>)
    requires s != [] && s[0] == ']' && '[' in buffer
    requires Scan(s, buffer, true) == Some(parts) && ParseParts(parts) == Some(items)
    ensures Listing(buffer + s, items)
    decreases |s|, 0
  {
    var t, all := buffer + [s[0]], buffer + s;
    assert parts[0] == t;
    ParsesListing(s[1..], [], false, parts[1..], items[1..]);
    assert [] + s[1..] == s[1..];
    assert '[' in t;
    RangePart(t, items[0]);
    ParsePartIff(t, items[0]);
    assert all[..|t|] == t && all[|t|..] == s[1..];
    assert Piece(all, |t|, items[0]);
  }

  lemma {:induction false} CommaOutside(s: string, buffer: string, parts: seq<string>, items: seq<Item>)
    requires s != [] && s[0] == ',' && NoMarks(buffer)
    requires Scan(s, buffer, false) == Some(parts) && ParseParts(parts) == Some(items)
    ensures Listing(buffer + s, items)
    decreases |s|, 0
  {
    var all := buffer + s;
    if buffer == [] {
      ParsesListing(s[1..], [], false, parts, items);
      assert all == s && [] + s[1..] == s[1..];
    } else {
      assert parts[0] == buffer;
      ParsesListing(s[1..], [], false, parts[1..], items[1..]);
      assert [] + s[1..] == s[1..];
      NumberPart(buffer, items[0]);
      ParsePartIff(buffer, items[0]);
      assert all[..|buffer|] == buffer && all[|buffer|..] == s;
      assert Listing(s, items[1..]);
      assert Piece(all, |buffer|, items[0]);
    }
  }

  /** The parser accepts exactly the texts that are a list of this grammar once white space is removed, and
      gives the slots of the list; every other text is an error. */
  lemma ParseIffListing(text: string, slots: seq<int>)
    ensures Parse(text) == Some(slots) <==> exists items :: Listing(Clean(text), items) && Decompress(items) == slots
  {
    if Parse(text) == Some(slots) {
      var items := SomeListing(text, slots);
    }
    if items :| Listing(Clean(text), items) && Decompress(items) == slots {
      var parts := ListingParses(Clean(text), items);
      assert Parse(text) == Some(Decompress(items));
    }
  }

  lemma SomeListing(text: string, slots: seq<int>) returns (items: seq<Item>)
    requires Parse(text) == Some(slots)
    ensures Listing(Clean(text), items) && Decompress(items) == slots
  {
    var s := Clean(text);
    var parts := Scan(s, [], false).value;
    items := ParseParts(parts).value;
    ParsesListing(s, [], false, parts, items);
    assert [] + s == s;
  }
}
