/** The lexical level of SNBT: numbers, quoted strings, identifiers, white space. */
module SnbtText {
  import opened Bytes
  import opened Nbt

  /** What the parser takes from Rust's `char` tables and float routines. */
  datatype Platform = Platform(
    alphabetic: char -> bool,
    numeric: char -> bool,
    whitespace: char -> bool,
    showF32: u32 -> string,
    showF64: u64 -> string,
    parseF32: string -> Option<u32>,
    parseF64: string -> Option<u64>)

  predicate Letter(c: char) {
    'a' <= c <= 'z' || 'A' <= c <= 'Z'
  }

  predicate Digit(c: char) {
    '0' <= c <= '9'
  }

  predicate AsciiSpace(c: char) {
    c == ' ' || 9 <= c as int <= 13
  }

  /** The tables are exact on ASCII, and no letter is white space. */
  ghost predicate Lawful(p: Platform) {
    && (forall c: char :: c as int < 128 ==>
          p.alphabetic(c) == Letter(c) && p.numeric(c) == Digit(c) && p.whitespace(c) == AsciiSpace(c))
    && (forall c: char :: p.alphabetic(c) ==> !p.whitespace(c))
  }

  function SkipSpace(p: Platform, s: string): (r: string)
    ensures |r| <= |s|
    ensures r != [] ==> !p.whitespace(r[0])
  {
    if s != [] && p.whitespace(s[0]) then SkipSpace(p, s[1..]) else s
  }

  // ---------------------------------------------------------------------
  // Decimal integers
  // ---------------------------------------------------------------------

  function DigitChar(d: nat): char
    requires d < 10
  {
    ('0' as int + d) as char
  }

  function ShowNat(n: nat): (s: string)
    ensures s != [] && forall c <- s :: Digit(c)
  {
    if n < 10 then [DigitChar(n)] else ShowNat(n / 10) + [DigitChar(n % 10)]
  }

  function Show(n: int): (s: string)
    ensures s != []
  {
    if n < 0 then ['-'] + ShowNat(-n) else ShowNat(n)
  }

  function ParseNat(s: string): nat
    requires forall c <- s :: Digit(c)
  {
    if s == [] then 0
    else
      var last := s[|s| - 1];
      assert Digit(last);
      ParseNat(s[..|s| - 1]) * 10 + (last as int - '0' as int)
  }

  predicate HasSign(s: string) {
    s != [] && (s[0] == '-' || s[0] == '+')
  }

  /** `str::parse` for an integer type with the given range. */
  function ParseInt(s: string, low: int, high: int): (r: Option<int>)
    ensures r.Some? ==> low <= r.value <= high
  {
    var body := if HasSign(s) then s[1..] else s;
    if body == [] || exists c <- body :: !Digit(c) then None
    else
      var v := if s[0] == '-' then -(ParseNat(body) as int) else ParseNat(body);
      if low <= v <= high then Some(v) else None
  }

  lemma {:induction false} ParseOfShowNat(n: nat)
    ensures ParseNat(ShowNat(n)) == n
  {
    if n < 10 {
      assert [DigitChar(n)][..0] == [];
    } else {
      ParseOfShowNat(n / 10);
      assert ShowNat(n)[..|ShowNat(n)| - 1] == ShowNat(n / 10);
    }
  }

  lemma ParseOfShow(n: int, low: int, high: int)
    requires low <= n <= high
    ensures ParseInt(Show(n), low, high) == Some(n)
  {
    ParseOfShowNat(if n < 0 then -n else n);
    if n < 0 {
      assert Show(n)[1..] == ShowNat(-n);
    } else {
      assert Digit(Show(n)[0]) by { assert Show(n)[0] in Show(n); }
    }
  }

  // ---------------------------------------------------------------------
  // Number tokens
  // ---------------------------------------------------------------------

  /** The run of digits with at most one dot. */
  function Scan(s: string, dotted: bool): (r: (string, string, bool))
    ensures |r.1| <= |s|
  {
    if s != [] && Digit(s[0]) then
      var (t, rest, d) := Scan(s[1..], dotted); ([s[0]] + t, rest, d)
    else if s != [] && s[0] == '.' && !dotted then
      var (t, rest, d) := Scan(s[1..], true); (['.'] + t, rest, d)
    else ([], s, dotted)
  }

  /** What may follow a number: nothing that could belong to it. */
  predicate Stops(rest: string) {
    rest == [] || !(Digit(rest[0]) || rest[0] == '.')
  }

  /** Digits, with a dot only when `dots` allows one. */
  predicate NumberBody(t: string, dots: bool) {
    t == [] ||
    (if t[0] == '.' then dots && NumberBody(t[1..], false) else Digit(t[0]) && NumberBody(t[1..], dots))
  }

  lemma {:induction false} ScanBody(t: string, dotted: bool, rest: string)
    requires NumberBody(t, !dotted) && Stops(rest)
    ensures Scan(t + rest, dotted).0 == t && Scan(t + rest, dotted).1 == rest
    ensures (forall c <- t :: Digit(c)) ==> Scan(t + rest, dotted).2 == dotted
    decreases |t|
  {
    if t == [] {
      assert t + rest == rest;
    } else {
      assert (t + rest)[1..] == t[1..] + rest;
      ScanBody(t[1..], dotted || t[0] == '.', rest);
      assert t == [t[0]] + t[1..];
      assert t[0] in t;
    }
  }

  lemma {:induction false} DigitsAreBody(t: string, dots: bool)
    requires forall c <- t :: Digit(c)
    ensures NumberBody(t, dots)
  {
    if t != [] {
      assert t[0] in t;
      DigitsAreBody(t[1..], dots);
    }
  }

  /** A number as it is printed: an optional minus and a body. */
  predicate NumberText(t: string) {
    t != [] && (Digit(t[0]) || t[0] == '-') && NumberBody(if t[0] == '-' then t[1..] else t, true)
  }

  /** The sign and the run after it, as `parse_number` collects them. */
  function Token(s: string): (r: (string, string, bool))
    ensures |r.1| <= |s|
  {
    if HasSign(s) then var (t, rest, d) := Scan(s[1..], false); ([s[0]] + t, rest, d)
    else Scan(s, false)
  }

  lemma TokenOfText(t: string, rest: string)
    requires NumberText(t) && Stops(rest)
    ensures Token(t + rest).0 == t && Token(t + rest).1 == rest
  {
    if t[0] == '-' {
      assert (t + rest)[1..] == t[1..] + rest;
      ScanBody(t[1..], false, rest);
      assert t == [t[0]] + t[1..];
    } else {
      ScanBody(t, false, rest);
    }
  }

  lemma TokenOfShow(n: int, rest: string)
    requires Stops(rest)
    ensures NumberText(Show(n)) && Token(Show(n) + rest) == (Show(n), rest, false)
  {
    hide ShowNat, Scan, NumberBody;
    var body := ShowNat(if n < 0 then -n else n);
    DigitsAreBody(body, true);
    ScanBody(body, false, rest);
    assert body[0] in body;
    if n < 0 {
      assert Show(n)[1..] == body;
      assert (Show(n) + rest)[1..] == body + rest;
    }
  }

  // ---------------------------------------------------------------------
  // Quoted strings
  // ---------------------------------------------------------------------

  /** `str::replace` of one character. */
  function Replace(s: string, c: char, with: string): string {
    if s == [] then [] else (if s[0] == c then with else [s[0]]) + Replace(s[1..], c, with)
  }

  /** The five replacements in the order the printer makes them. */
  function Escape(s: string): string {
    Replace(Replace(Replace(Replace(Replace(s, '\\', "\\\\"), '"', "\\\""), '\n', "\\n"), '\r', "\\r"), '\t', "\\t")
  }

  function Quote(s: string): string {
    ['"'] + Escape(s) + ['"']
  }

  /** One character of a quoted string as it is printed. */
  function EscapeChar(c: char): string {
    if c == '\\' then "\\\\"
    else if c == '"' then "\\\""
    else if c == '\n' then "\\n"
    else if c == '\r' then "\\r"
    else if c == '\t' then "\\t"
    else [c]
  }

  lemma {:induction false} ReplaceConcat(a: string, b: string, c: char, with: string)
    ensures Replace(a + b, c, with) == Replace(a, c, with) + Replace(b, c, with)
  {
    if a == [] {
      assert a + b == b;
    } else {
      ReplaceConcat(a[1..], b, c, with);
      assert (a + b)[1..] == a[1..] + b;
      var x := if a[0] == c then with else [a[0]];
      var y, z := Replace(a[1..], c, with), Replace(b, c, with);
      assert x + (y + z) == x + y + z;
    }
  }

  lemma EscapeConcat(a: string, b: string)
    ensures Escape(a + b) == Escape(a) + Escape(b)
  {
    hide Replace;
    ReplaceConcat(a, b, '\\', "\\\\");
    var (a1, b1) := (Replace(a, '\\', "\\\\"), Replace(b, '\\', "\\\\"));
    ReplaceConcat(a1, b1, '"', "\\\"");
    var (a2, b2) := (Replace(a1, '"', "\\\""), Replace(b1, '"', "\\\""));
    ReplaceConcat(a2, b2, '\n', "\\n");
    var (a3, b3) := (Replace(a2, '\n', "\\n"), Replace(b2, '\n', "\\n"));
    ReplaceConcat(a3, b3, '\r', "\\r");
    ReplaceConcat(Replace(a3, '\r', "\\r"), Replace(b3, '\r', "\\r"), '\t', "\\t");
  }

  lemma ReplaceOne(c: char, d: char, with: string)
    ensures Replace([c], d, with) == if c == d then with else [c]
  {
    assert [c][1..] == "";
  }

  lemma ReplaceTwo(x: char, y: char, d: char, with: string)
    requires x != d && y != d
    ensures Replace([x, y], d, with) == [x, y]
  {
    assert [x, y][1..] == [y];
    ReplaceOne(y, d, with);
  }

  /** The later replacements leave the escapes of the earlier ones alone. */
  lemma EscapeOne(c: char)
    ensures Escape([c]) == EscapeChar(c)
  {
    hide Replace;
    ReplaceOne(c, '\\', "\\\\");
    ReplaceOne(c, '"', "\\\"");
    ReplaceOne(c, '\n', "\\n");
    ReplaceOne(c, '\r', "\\r");
    ReplaceOne(c, '\t', "\\t");
    if c == '\\' {
      ReplaceTwo('\\', '\\', '"', "\\\"");
      ReplaceTwo('\\', '\\', '\n', "\\n");
      ReplaceTwo('\\', '\\', '\r', "\\r");
      ReplaceTwo('\\', '\\', '\t', "\\t");
    } else if c == '"' {
      ReplaceTwo('\\', '"', '\n', "\\n");
      ReplaceTwo('\\', '"', '\r', "\\r");
      ReplaceTwo('\\', '"', '\t', "\\t");
    } else if c == '\n' {
      ReplaceTwo('\\', 'n', '\r', "\\r");
      ReplaceTwo('\\', 'n', '\t', "\\t");
    } else if c == '\r' {
      ReplaceTwo('\\', 'r', '\t', "\\t");
    }
  }

  /** What an escape stands for. */
  function Unescape(c: char): string {
    if c == 'n' then "\n"
    else if c == 'r' then "\r"
    else if c == 't' then "\t"
    else if c == '\\' || c == '\'' || c == '"' then [c]
    else ['\\', c]
  }

  /** The body of a quoted string up to its closing quote; `None` when it never closes. */
  function Unquote(s: string, quote: char, escaped: bool): (r: Option<(string, string)>)
    ensures r.Some? ==> |r.value.1| < |s|
  {
    if s == [] then None
    else if escaped then
      match Unquote(s[1..], quote, false)
      case None => None
      case Some((t, rest)) => Some((Unescape(s[0]) + t, rest))
    else if s[0] == '\\' then Unquote(s[1..], quote, true)
    else if s[0] == quote then Some(([], s[1..]))
    else
      match Unquote(s[1..], quote, false)
      case None => None
      case Some((t, rest)) => Some(([s[0]] + t, rest))
  }

  lemma {:induction false} UnquoteOfEscape(s: string, rest: string)
    ensures Unquote(Escape(s) + (['"'] + rest), '"', false) == Some((s, rest))
  {
    hide Escape;
    var tail := ['"'] + rest;
    if s == [] {
      assert Escape("") == "" by { EscapeNothing(); }
      assert Escape(s) + tail == tail;
      assert tail[1..] == rest;
    } else {
      var c, t := s[0], s[1..];
      EscapeConcat([c], t);
      EscapeOne(c);
      assert s == [c] + t;
      UnquoteOfEscape(t, rest);
      UnquoteFront(c, Escape(t) + tail, t, rest);
      assert Escape(s) + tail == EscapeChar(c) + (Escape(t) + tail);
    }
  }

  lemma EscapeNothing()
    ensures Escape("") == ""
  {
  }

  lemma UnquoteFront(c: char, s: string, t: string, rest: string)
    requires Unquote(s, '"', false) == Some((t, rest))
    ensures Unquote(EscapeChar(c) + s, '"', false) == Some(([c] + t, rest))
  {
    var bs := EscapeChar(c) + s;
    if |EscapeChar(c)| == 1 {
      assert bs[1..] == s;
    } else {
      assert bs[1..][1..] == s;
      assert bs[0] == '\\' && Unescape(bs[1..][0]) == [c];
      assert Unquote(bs[1..], '"', true) == Some(([c] + t, rest));
    }
  }

  // ---------------------------------------------------------------------
  // Identifiers
  // ---------------------------------------------------------------------

  predicate IdentStart(p: Platform, c: char) {
    p.alphabetic(c) || c == '_'
  }

  predicate IdentChar(p: Platform, c: char) {
    p.alphabetic(c) || p.numeric(c) || c == '_' || c == '-' || c == '.'
  }

  function TakeIdent(p: Platform, s: string): (r: (string, string))
    ensures |r.0| + |r.1| == |s|
    ensures s != [] && IdentChar(p, s[0]) ==> |r.1| < |s|
  {
    if s != [] && IdentChar(p, s[0]) then
      var (t, rest) := TakeIdent(p, s[1..]); ([s[0]] + t, rest)
    else ([], s)
  }

  /** A name that can be printed bare. */
  predicate Identifier(p: Platform, name: string) {
    name != [] && IdentStart(p, name[0]) && forall c <- name :: IdentChar(p, c)
  }

  lemma {:induction false} TakeIdentOf(p: Platform, name: string, rest: string)
    requires forall c <- name :: IdentChar(p, c)
    requires rest == [] || !IdentChar(p, rest[0])
    ensures TakeIdent(p, name + rest) == (name, rest)
    decreases |name|
  {
    if name == [] {
      assert name + rest == rest;
    } else {
      assert name[0] in name;
      assert (name + rest)[1..] == name[1..] + rest;
      TakeIdentOf(p, name[1..], rest);
      assert name == [name[0]] + name[1..];
    }
  }

  lemma {:induction false} TakeIdentChars(p: Platform, s: string)
    ensures forall c <- TakeIdent(p, s).0 :: IdentChar(p, c)
  {
    if s != [] && IdentChar(p, s[0]) {
      TakeIdentChars(p, s[1..]);
    }
  }
}
