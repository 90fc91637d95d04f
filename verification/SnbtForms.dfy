/** What the SNBT parser makes of the forms that the printer does not write. */
module SnbtForms {
  import opened Bytes
  import opened Nbt
  import opened SnbtText
  import opened Snbt

  // ---------------------------------------------------------------------
  // Bare words
  // ---------------------------------------------------------------------

  /** A bare word ends where no character can belong to it. It is a truth value or a string. */
  lemma BareWord(p: Platform, name: string, rest: string)
    requires Lawful(p) && Identifier(p, name) && (rest == [] || !IdentChar(p, rest[0]))
    ensures name == "true" ==> ParseValue(p, name + rest) == Ok((OPlain(Byte(1)), rest))
    ensures name == "false" ==> ParseValue(p, name + rest) == Ok((OPlain(Byte(0)), rest))
    ensures name != "true" && name != "false" ==> ParseValue(p, name + rest) == Ok((OPlain(String(name)), rest))
  {
    hide ParseNumber, ParseEntries, ParseListOrArray, ParseQuoted, TakeIdent;
    var s := name + rest;
    assert s[0] == name[0];
    SkipNothing(p, s);
    TakeIdentOf(p, name, rest);
  }

  // ---------------------------------------------------------------------
  // Quoted strings
  // ---------------------------------------------------------------------

  /** Escapes, in strings of either kind. */
  lemma EscapeForms(quote: char, c: char, s: string, t: string, rest: string)
    requires Unquote(s, quote, false) == Some((t, rest))
    ensures Unquote("\\n" + s, quote, false) == Some(("\n" + t, rest))
    ensures Unquote("\\r" + s, quote, false) == Some(("\r" + t, rest))
    ensures Unquote("\\t" + s, quote, false) == Some(("\t" + t, rest))
    ensures Unquote("\\\\" + s, quote, false) == Some(("\\" + t, rest))
    ensures Unquote("\\\"" + s, quote, false) == Some(("\"" + t, rest))
    ensures Unquote("\\\'" + s, quote, false) == Some(("\'" + t, rest))
    ensures c !in "nrt\\\"\'" ==> Unquote(['\\', c] + s, quote, false) == Some((['\\', c] + t, rest))
  {
    AfterBackslash(quote, 'n', s, t, rest);
    AfterBackslash(quote, 'r', s, t, rest);
    AfterBackslash(quote, 't', s, t, rest);
    AfterBackslash(quote, '\\', s, t, rest);
    AfterBackslash(quote, '"', s, t, rest);
    AfterBackslash(quote, '\'', s, t, rest);
    AfterBackslash(quote, c, s, t, rest);
  }

  lemma AfterBackslash(quote: char, c: char, s: string, t: string, rest: string)
    requires Unquote(s, quote, false) == Some((t, rest))
    ensures Unquote(['\\', c] + s, quote, false) == Some((Unescape(c) + t, rest))
  {
    var all := ['\\', c] + s;
    assert all[1..][0] == c && all[1..][1..] == s;
    assert Unquote(all[1..], quote, true) == Some((Unescape(c) + t, rest));
  }

  /** Anything but a backslash and the quote itself stands for itself, the other quote included. */
  lemma PlainForms(quote: char, c: char, s: string, t: string, rest: string)
    requires Unquote(s, quote, false) == Some((t, rest)) && c != '\\' && c != quote
    ensures Unquote([c] + s, quote, false) == Some(([c] + t, rest))
    ensures quote != '\\' ==> Unquote([quote] + rest, quote, false) == Some(("", rest))
  {
    assert ([c] + s)[1..] == s;
    assert ([quote] + rest)[1..] == rest;
  }

  /** A string in quotes of either kind is the value of what is between them. */
  lemma QuotedForms(p: Platform, quote: char, s: string, t: string, rest: string)
    requires Lawful(p) && (quote == '"' || quote == '\'') && Unquote(s, quote, false) == Some((t, rest))
    ensures ParseValue(p, [quote] + s) == Ok((OPlain(String(t)), rest))
  {
    hide ParseNumber, ParseEntries, ParseListOrArray, Unquote;
    var all := [quote] + s;
    SkipNothing(p, all);
    assert all[1..] == s;
  }

  /** A string that never closes is an error. */
  lemma UnclosedForms(p: Platform, quote: char, s: string)
    requires Lawful(p) && (quote == '"' || quote == '\'') && Unquote(s, quote, false) == None
    ensures ParseValue(p, [quote] + s) == Err(UnterminatedString)
  {
    hide ParseNumber, ParseEntries, ParseListOrArray, Unquote;
    var all := [quote] + s;
    SkipNothing(p, all);
    assert all[1..] == s;
  }

  // ---------------------------------------------------------------------
  // Numbers
  // ---------------------------------------------------------------------

  predicate Digits(s: string) {
    s != [] && forall c <- s :: Digit(c)
  }

  predicate Sign(s: string) {
    s == "" || s == "-" || s == "+"
  }

  /** The number a sign and digits stand for. */
  function Signed10(sign: string, digits: string): int
    requires Digits(digits)
  {
    if sign == "-" then -(ParseNat(digits) as int) else ParseNat(digits)
  }

  /** Decimal places: the digits to the left weigh ten times as much. */
  lemma DecimalPlaces(digits: string, c: char)
    requires (forall d <- digits :: Digit(d)) && Digit(c)
    ensures forall d <- digits + [c] :: Digit(d)
    ensures ParseNat(digits + [c]) == 10 * ParseNat(digits) + (c as int - '0' as int)
    ensures ParseNat("") == 0
  {
    var all := digits + [c];
    assert all[..|all| - 1] == digits && all[|all| - 1] == c;
  }

  lemma TokenOfDigits(sign: string, digits: string, rest: string)
    requires Sign(sign) && Digits(digits) && Stops(rest)
    ensures Token(sign + digits + rest) == (sign + digits, rest, false)
  {
    DigitsAreBody(digits, true);
    ScanBody(digits, false, rest);
    assert digits[0] in digits;
    if sign == "" {
      assert sign + digits == digits;
    } else {
      var all := sign + digits + rest;
      assert all[1..] == digits + rest && [all[0]] == sign;
    }
  }

  lemma IntOfDigits(sign: string, digits: string, low: int, high: int)
    requires Sign(sign) && Digits(digits)
    ensures var v := Signed10(sign, digits);
      ParseInt(sign + digits, low, high) == if low <= v <= high then Some(v) else None
  {
    var s := sign + digits;
    assert digits[0] in digits;
    if sign == "" {
      assert s == digits;
    } else {
      assert s[1..] == digits && [s[0]] == sign;
    }
  }

  lemma NumberStarts(p: Platform, sign: string, digits: string, tail: string)
    requires Lawful(p) && Sign(sign) && Digits(digits)
    ensures var s := sign + digits + tail;
      && ParseNumber(p, s).Ok? ==> ParseValue(p, s) == Ok((OPlain(ParseNumber(p, s).value.0), ParseNumber(p, s).value.1))
    ensures var s := sign + digits + tail; ParseNumber(p, s).Err? ==> ParseValue(p, s) == Err(ParseNumber(p, s).error)
  {
    hide ParseNumber, ParseEntries, ParseListOrArray, ParseQuoted, TakeIdent;
    var s := sign + digits + tail;
    assert digits[0] in digits;
    assert s[0] == (if sign == "" then digits[0] else sign[0]);
    SkipNothing(p, s);
  }

  /** Whole numbers without a suffix, with either sign, are 32-bit integers. */
  lemma PlainInteger(p: Platform, sign: string, digits: string, rest: string)
    requires Lawful(p) && Sign(sign) && Digits(digits) && Follows(rest)
    ensures var v := Signed10(sign, digits);
      ParseValue(p, sign + digits + rest) ==
        if -0x8000_0000 <= v <= 0x7FFF_FFFF then Ok((OPlain(Int(v)), rest)) else Err(InvalidNumber(sign + digits))
  {
    hide ParseValue, Token, ParseInt, ParseNat;
    TokenOfDigits(sign, digits, rest);
    IntOfDigits(sign, digits, -0x8000_0000, 0x7FFF_FFFF);
    NumberStarts(p, sign, digits, rest);
  }

  /** A suffix, in either case, names the type; the range is the type's. */
  lemma SuffixedInteger(p: Platform, sign: string, digits: string, suffix: char, rest: string)
    requires Lawful(p) && Sign(sign) && Digits(digits) && suffix in "bBsSlL"
    ensures var (v, token, r) := (Signed10(sign, digits), sign + digits, ParseValue(p, sign + digits + ([suffix] + rest)));
      && (suffix in "bB" ==> r == if -128 <= v <= 127 then Ok((OPlain(Byte(v)), rest)) else Err(InvalidNumber(token)))
      && (suffix in "sS" ==> r == if -32768 <= v <= 32767 then Ok((OPlain(Short(v)), rest)) else Err(InvalidNumber(token)))
      && (suffix in "lL" ==> r == if -0x8000_0000_0000_0000 <= v <= 0x7FFF_FFFF_FFFF_FFFF
                                   then Ok((OPlain(Long(v)), rest)) else Err(InvalidNumber(token)))
  {
    hide ParseValue, Token, ParseInt, ParseNat;
    var tail := [suffix] + rest;
    TokenOfDigits(sign, digits, tail);
    assert tail[1..] == rest;
    IntOfDigits(sign, digits, -128, 127);
    IntOfDigits(sign, digits, -32768, 32767);
    IntOfDigits(sign, digits, -0x8000_0000_0000_0000, 0x7FFF_FFFF_FFFF_FFFF);
    NumberStarts(p, sign, digits, tail);
  }

  /** Digits, a dot and digits. */
  lemma TokenOfDecimal(sign: string, whole: string, places: string, rest: string)
    requires Sign(sign) && Digits(whole) && (forall c <- places :: Digit(c)) && Stops(rest)
    ensures Token(sign + whole + ("." + places + rest)) == (sign + whole + "." + places, rest, true)
  {
    var tail := "." + places + rest;
    ScanDecimal(whole, places, rest);
    assert whole[0] in whole;
    var all := sign + whole + tail;
    if sign == "" {
      assert all == whole + tail && sign + whole + "." + places == whole + "." + places;
    } else {
      assert all[1..] == whole + tail && [all[0]] == sign;
      assert [all[0]] + (whole + "." + places) == sign + whole + "." + places;
    }
  }

  lemma {:induction false} ScanDecimal(whole: string, places: string, rest: string)
    requires (forall c <- whole :: Digit(c)) && (forall c <- places :: Digit(c)) && Stops(rest)
    ensures Scan(whole + ("." + places + rest), false) == (whole + "." + places, rest, true)
    decreases |whole|
  {
    var tail := "." + places + rest;
    if whole == [] {
      assert whole + tail == tail && tail[1..] == places + rest;
      DigitsAreBody(places, false);
      ScanBody(places, true, rest);
      assert whole + "." + places == ['.'] + places;
    } else {
      assert whole[0] in whole;
      ScanDecimal(whole[1..], places, rest);
      assert (whole + tail)[1..] == whole[1..] + tail;
      assert [whole[0]] + (whole[1..] + "." + places) == whole + "." + places;
    }
  }

  /** A number with a dot is a double, with or without its suffix, or a float with that suffix. */
  lemma DottedNumber(p: Platform, sign: string, whole: string, places: string, suffix: string, rest: string)
    requires Lawful(p) && Sign(sign) && Digits(whole) && forall c <- places :: Digit(c)
    requires suffix in ["", "d", "D", "f", "F"] && (suffix == "" ==> Follows(rest))
    ensures var (token, r) := (sign + whole + "." + places, ParseValue(p, sign + whole + ("." + places + (suffix + rest))));
      && (suffix in ["", "d", "D"] ==>
            r == match p.parseF64(token) case None => Err(InvalidNumber(token)) case Some(v) => Ok((OPlain(Double(v)), rest)))
      && (suffix in ["f", "F"] ==>
            r == match p.parseF32(token) case None => Err(InvalidNumber(token)) case Some(v) => Ok((OPlain(Float(v)), rest)))
  {
    hide ParseValue, Token;
    var after := suffix + rest;
    assert suffix == "" ==> after == rest;
    assert suffix != "" ==> after[1..] == rest && after[0] == suffix[0];
    TokenOfDecimal(sign, whole, places, after);
    NumberStarts(p, sign, whole, "." + places + after);
  }

  // ---------------------------------------------------------------------
  // Arrays and compounds
  // ---------------------------------------------------------------------

  /** Which numbers an array takes: those of its own type, and plain integers, which a byte array cuts
      to eight bits. */
  lemma ElementForms(v: int)
    requires -0x8000_0000 <= v <= 0x7FFF_FFFF
    ensures Element('I', Int(v)) == Some(v) && Element('L', Int(v)) == Some(v)
    ensures exists q: int :: Element('B', Int(v)) == Some(v - 256 * q) && -128 <= v - 256 * q <= 127
    ensures -128 <= v <= 127 ==>
      Element('B', Byte(v)) == Some(v) && Element('B', Int(v)) == Some(v)
      && Element('I', Byte(v)) == None && Element('L', Byte(v)) == None
    ensures Element('L', Long(v)) == Some(v) && Element('B', Long(v)) == None && Element('I', Long(v)) == None
    ensures forall kind, text :: Element(kind, String(text)) == None
    ensures forall kind, bits :: Element(kind, Float(bits)) == None
    ensures forall kind, bits :: Element(kind, Double(bits)) == None
  {
    var q := (v + 128) / 256;
    assert Element('B', Int(v)) == Some(v - 256 * q);
  }

  /** What a plain integer becomes in an array: a byte array keeps its low eight bits, signed. */
  function Cut(kind: char, v: int): int {
    if kind == 'B' then (v + 128) % 256 - 128 else v
  }

  function CutAll(kind: char, vs: seq<int>): (r: seq<int>)
    ensures |r| == |vs|
  {
    seq(|vs|, i requires 0 <= i < |vs| => Cut(kind, vs[i]))
  }

  predicate Ints(vs: seq<int>) {
    forall i :: 0 <= i < |vs| ==> -0x8000_0000 <= vs[i] <= 0x7FFF_FFFF
  }

  lemma PlainElement(p: Platform, kind: char, v: int, rest: string)
    requires kind in "BIL" && -0x8000_0000 <= v <= 0x7FFF_FFFF && rest != [] && rest[0] in ",]"
    ensures ParseNumber(p, Show(v) + rest) == Ok((Int(v), rest)) && Element(kind, Int(v)) == Some(Cut(kind, v))
  {
    hide Show, ParseNumber, ParseInt;
    ParseOfShow(v, -0x8000_0000, 0x7FFF_FFFF);
    NumberOfShow(p, v, "", rest, Int(v));
    assert Show(v) + "" + rest == Show(v) + rest;
  }

  lemma {:induction false} PlainElements(p: Platform, kind: char, vs: seq<int>, rest: string)
    requires Lawful(p) && kind in "BIL" && vs != [] && Ints(vs)
    ensures ParseElements(p, kind, Join(ShowEach(vs, "")) + "]" + rest) == Ok((CutAll(kind, vs), rest))
    decreases |vs|
  {
    hide Show, ParseNumber, Element, Cut;
    var shown := ShowEach(vs, "");
    var text := Join(shown) + "]" + rest;
    assert shown[0] == Show(vs[0]) + "" == Show(vs[0]);
    JoinFront(shown);
    if |vs| == 1 {
      var tail := "]" + rest;
      assert text == Show(vs[0]) + tail;
      PlainElement(p, kind, vs[0], tail);
      SkipNothing(p, tail);
      assert tail[1..] == rest && CutAll(kind, vs) == [Cut(kind, vs[0])];
    } else {
      hide Join;
      var more := Join(ShowEach(vs[1..], "")) + "]" + rest;
      var tail := "," + more;
      assert shown[1..] == ShowEach(vs[1..], "");
      assert text == Show(vs[0]) + tail;
      PlainElement(p, kind, vs[0], tail);
      SkipNothing(p, tail);
      assert tail[1..] == more;
      JoinStart(p, vs[1..], "", "]" + rest);
      assert Join(ShowEach(vs[1..], "")) + ("]" + rest) == more;
      SkipNothing(p, more);
      PlainElements(p, kind, vs[1..], rest);
      assert CutAll(kind, vs) == [Cut(kind, vs[0])] + CutAll(kind, vs[1..]);
    }
  }

  /** Plain integers in a byte, int or long array. */
  lemma PlainArray(p: Platform, kind: char, vs: seq<int>, rest: string)
    requires Lawful(p) && kind in "BIL" && vs != [] && Ints(vs)
    ensures InArray(kind, CutAll(kind, vs))
    ensures ParseValue(p, ['[', kind, ';'] + (Join(ShowEach(vs, "")) + "]" + rest))
         == Ok((OPlain(ArrayLeaf(kind, CutAll(kind, vs))), rest))
  {
    hide ParseItems, ParseEntries, ParseElements, Join;
    var body := Join(ShowEach(vs, "")) + "]" + rest;
    var s := ['[', kind, ';'] + body;
    PlainElements(p, kind, vs, rest);
    JoinStart(p, vs, "", "]" + rest);
    assert Join(ShowEach(vs, "")) + ("]" + rest) == body;
    SkipNothing(p, body);
    SkipNothing(p, s);
    SkipNothing(p, s[1..]);
    assert s[1..][2..] == body;
  }

  // ---------------------------------------------------------------------
  // What is printed
  // ---------------------------------------------------------------------

  /** A printed number has its digits in decimal, a minus if it is negative, and no zero in front. */
  lemma {:induction false} PrintedNat(n: nat)
    ensures Digits(ShowNat(n)) && ParseNat(ShowNat(n)) == n && (|ShowNat(n)| > 1 ==> ShowNat(n)[0] != '0')
  {
    ParseOfShowNat(n);
    if n >= 10 {
      PrintedNat(n / 10);
      if n / 10 < 10 {
        assert ShowNat(n / 10) == [DigitChar(n / 10)];
      }
    }
  }

  /** The letters of each kind. */
  lemma PrintedNumbers(p: Platform)
    ensures forall v: i8 :: PrintLeaf(p, Byte(v)) == Show(v) + "b"
    ensures forall v: i16 :: PrintLeaf(p, Short(v)) == Show(v) + "s"
    ensures forall v: i32 :: PrintLeaf(p, Int(v)) == Show(v)
    ensures forall v: i64 :: PrintLeaf(p, Long(v)) == Show(v) + "L"
    ensures forall bits: u32 :: PrintLeaf(p, Float(bits)) == p.showF32(bits) + "f"
    ensures forall bits: u64 :: PrintLeaf(p, Double(bits)) == p.showF64(bits) + "d"
    ensures PrintLeaf(p, End) == "END"
  {
  }

  /** The brackets and commas, on what has two elements. */
  lemma PrintedArrays(p: Platform, v: i8, v': i8, w: i32, w': i32, x: i64, x': i64)
    ensures PrintLeaf(p, ByteArray([v, v'])) == "[B;" + (Show(v) + "b") + "," + (Show(v') + "b") + "]"
    ensures PrintLeaf(p, IntArray([w, w'])) == "[I;" + Show(w) + "," + Show(w') + "]"
    ensures PrintLeaf(p, LongArray([x, x'])) == "[L;" + (Show(x) + "L") + "," + (Show(x') + "L") + "]"
  {
    hide Show, Join, ShowEach;
    ShownPair(v, v', "b");
    ShownPair(w, w', "");
    assert Show(w) + "" == Show(w) && Show(w') + "" == Show(w');
    ShownPair(x, x', "L");
    PairJoined(Show(v) + "b", Show(v') + "b");
    PairJoined(Show(w), Show(w'));
    PairJoined(Show(x) + "L", Show(x') + "L");
    Brackets("[B;", Show(v) + "b", Show(v') + "b", "]");
    Brackets("[I;", Show(w), Show(w'), "]");
    Brackets("[L;", Show(x) + "L", Show(x') + "L", "]");
  }

  lemma PrintedPair(p: Platform, o: Ordered, o': Ordered, e: Entry, e': Entry)
    ensures Print(p, OList([o, o'])) == "[" + Print(p, o) + "," + Print(p, o') + "]"
    ensures Print(p, OCompound([e, e'])) ==
      "{" + e.name + ":" + Print(p, e.value) + "," + e'.name + ":" + Print(p, e'.value) + "}"
  {
    ItemPair(p, o, o');
    EntryPair(p, e, e');
    PairJoined(Print(p, o), Print(p, o'));
    PairJoined(PrintEntry(p, e), PrintEntry(p, e'));
    hide Join, PrintItems, PrintEntries;
    Brackets("[", Print(p, o), Print(p, o'), "]");
    var (a, b) := (Print(p, e.value), Print(p, e'.value));
    assert "{" + ((e.name + ":" + a) + "," + (e'.name + ":" + b)) + "}" == "{" + e.name + ":" + a + "," + e'.name + ":" + b + "}";
  }

  lemma Brackets(open: string, a: string, b: string, close: string)
    ensures open + (a + "," + b) + close == open + a + "," + b + close
  {
  }

  lemma ShownPair(a: int, b: int, suffix: string)
    ensures ShowEach([a, b], suffix) == [Show(a) + suffix, Show(b) + suffix]
  {
  }

  lemma ItemPair(p: Platform, o: Ordered, o': Ordered)
    ensures PrintItems(p, [o, o']) == [Print(p, o), Print(p, o')]
  {
    var items := [o, o'];
    assert items[1..] == [o'] && items[1..][1..] == [];
    assert PrintItems(p, items[1..]) == [Print(p, o')] + [];
  }

  lemma EntryPair(p: Platform, e: Entry, e': Entry)
    ensures PrintEntries(p, [e, e']) == [PrintEntry(p, e), PrintEntry(p, e')]
  {
    var es := [e, e'];
    assert es[1..] == [e'] && es[1..][1..] == [];
    assert PrintEntries(p, es[1..]) == [PrintEntry(p, e')] + [];
  }

  lemma PairJoined(a: string, b: string)
    ensures Join([a, b]) == a + "," + b
  {
    assert [a, b][1..] == [b];
  }

  /** An entry whose name is quoted has exactly that name, whatever it is. */
  lemma QuotedName(p: Platform, name: string, o: Ordered, tail: string)
    requires Lawful(p) && Printable(p, o) && Follows(tail)
    ensures ParseEntry(p, Quote(name) + (":" + (Print(p, o) + tail))) == Ok((Entry(name, o), tail))
  {
    hide Unquote, Escape, ParseValue, Print, Printable;
    var value := ":" + (Print(p, o) + tail);
    var s := Quote(name) + value;
    assert s[1..] == Escape(name) + (['"'] + value);
    UnquoteOfEscape(name, value);
    SkipNothing(p, value);
    assert value[1..] == Print(p, o) + tail;
    ValueRoundTrip(p, o, tail);
  }

  /** White space in front of a value does not matter; nothing but white space is no value. */
  lemma LeadingSpace(p: Platform, c: char, s: string)
    requires p.whitespace(c)
    ensures ParseValue(p, [c] + s) == ParseValue(p, s) && ParseValue(p, "") == Err(UnexpectedEnd)
  {
    hide ParseNumber, ParseEntries, ParseListOrArray, ParseQuoted, TakeIdent;
    assert ([c] + s)[1..] == s;
    assert SkipSpace(p, [c] + s) == SkipSpace(p, s);
  }

  /** A comma may stand before the closing brace of a compound, but not before the bracket of a list. */
  lemma TrailingComma(p: Platform, e: Entry, rest: string)
    requires Lawful(p) && Identifier(p, e.name) && Printable(p, e.value)
    ensures ParseEntries(p, PrintEntry(p, e) + (",}" + rest)) == Ok(([e], rest))
    ensures ParseItems(p, Print(p, e.value) + (",]" + rest)).Err?
  {
    hide Print, Printable, Identifier, ParseEntry;
    var tail := ",}" + rest;
    ValueRoundTrip(p, e.value, tail);
    EntryStep(p, e, tail);
    assert tail[1..] == "}" + rest;
    SkipNothing(p, "}" + rest);
    assert ("}" + rest)[1..] == rest;
    assert ParseEntries(p, tail[1..]) == Ok(([], rest));
    assert [e] + [] == [e];
    var next := ",]" + rest;
    ValueRoundTrip(p, e.value, next);
    SkipNothing(p, next);
    assert next[1..] == "]" + rest;
    SkipNothing(p, "]" + rest);
    NoBracketValue(p, rest);
  }

  lemma NoBracketValue(p: Platform, rest: string)
    requires Lawful(p)
    ensures ParseValue(p, "]" + rest).Err? && ParseItems(p, "]" + rest).Err?
  {
    hide ParseNumber, ParseEntries, ParseListOrArray, ParseQuoted, TakeIdent;
    SkipNothing(p, "]" + rest);
  }
}
