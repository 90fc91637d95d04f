/** The SNBT parser as the cursor over characters that it is. */
module SnbtParser {
  import opened Bytes
  import opened Nbt
  import opened SnbtText
  import opened Snbt

  class Parser {
    const p: Platform
    const input: string
    var pos: nat

    constructor (p: Platform, input: string)
      ensures this.p == p && this.input == input && pos == 0
    {
      this.p, this.input, pos := p, input, 0;
    }

    ghost predicate Valid()
      reads this
    {
      pos <= |input| && Lawful(p)
    }

    /** The characters not yet consumed. */
    ghost function Rest(): string
      requires pos <= |input|
      reads this
    {
      input[pos..]
    }

    function Current(): (c: Option<char>)
      reads this
      ensures pos <= |input| ==> c == if Rest() == [] then None else Some(Rest()[0])
    {
      if pos < |input| then Some(input[pos]) else None
    }

    function Left(): nat
      requires pos <= |input|
      reads this
    {
      |input| - pos
    }

    method Advance()
      requires Valid() && Rest() != []
      modifies this
      ensures Valid() && pos == old(pos) + 1 && Rest() == old(Rest())[1..]
    {
      pos := pos + 1;
    }

    method SkipWhitespace()
      requires Valid()
      modifies this
      ensures Valid() && pos >= old(pos) && Rest() == SkipSpace(p, old(Rest()))
    {
      while pos < |input| && p.whitespace(input[pos])
        invariant Valid() && pos >= old(pos)
        invariant SkipSpace(p, Rest()) == SkipSpace(p, old(Rest()))
      {
        Advance();
      }
    }

    method ParseIdentifier() returns (name: string)
      requires Valid()
      modifies this
      ensures Valid() && pos >= old(pos) && (name, Rest()) == TakeIdent(p, old(Rest()))
    {
      name := "";
      ghost var whole := TakeIdent(p, Rest());
      assert "" + whole.0 == whole.0;
      while pos < |input| && IdentChar(p, input[pos])
        invariant Valid() && pos >= old(pos)
        invariant whole == (name + TakeIdent(p, Rest()).0, TakeIdent(p, Rest()).1)
      {
        ghost var before := Rest();
        var c := input[pos];
        Advance();
        assert name + ([c] + TakeIdent(p, Rest()).0) == name + [c] + TakeIdent(p, Rest()).0;
        name := name + [c];
      }
      assert name + "" == name;
    }

    method ParseQuotedString() returns (r: Result<string, SnbtError>)
      requires Valid() && Rest() != []
      modifies this
      ensures Valid() && pos >= old(pos)
      ensures Did(ParseQuoted(old(Rest())), r, Rest())
    {
      var quote := input[pos];
      Advance();
      var text := "";
      var escaped := false;
      ghost var whole := Unquote(Rest(), quote, false);
      assert whole.Some? ==> "" + whole.value.0 == whole.value.0;
      while pos < |input|
        invariant Valid() && pos > old(pos)
        invariant whole == Resumed(text, Unquote(Rest(), quote, escaped))
      {
        var c := input[pos];
        Advance();
        if escaped {
          ResumedTwice(text, Unescape(c), Unquote(Rest(), quote, false));
          text := text + Unescape(c);
          escaped := false;
        } else if c == '\\' {
          escaped := true;
        } else if c == quote {
          assert text + [] == text;
          return Ok(text);
        } else {
          ResumedTwice(text, [c], Unquote(Rest(), quote, false));
          text := text + [c];
        }
      }
      return Err(UnterminatedString);
    }

    /** The digits and the dot after the sign, with the flag the scan ends with. */
    method ScanNumber(sign: string) returns (token: string, dotted: bool)
      requires Valid()
      modifies this
      ensures Valid() && pos >= old(pos)
      ensures (token, Rest(), dotted) == (sign + Scan(old(Rest()), false).0, Scan(old(Rest()), false).1, Scan(old(Rest()), false).2)
    {
      token, dotted := sign, false;
      ghost var whole := Scan(Rest(), false);
      while pos < |input| && (Digit(input[pos]) || (input[pos] == '.' && !dotted))
        invariant Valid() && pos >= old(pos)
        invariant sign + whole.0 == token + Scan(Rest(), dotted).0
        invariant whole.1 == Scan(Rest(), dotted).1 && whole.2 == Scan(Rest(), dotted).2
      {
        var c := input[pos];
        ghost var tail := Scan(Rest()[1..], dotted || c == '.').0;
        assert Scan(Rest(), dotted).0 == [c] + tail;
        assert token + ([c] + tail) == token + [c] + tail;
        Advance();
        if c == '.' {
          dotted := true;
        }
        token := token + [c];
      }
      assert token + "" == token;
    }

    method ParseNumeric() returns (r: Result<Leaf, SnbtError>)
      requires Valid()
      modifies this
      ensures Valid() && pos >= old(pos)
      ensures Did(ParseNumber(p, old(Rest())), r, Rest())
    {
      hide Scan, NumberValue;
      var sign := "";
      if pos < |input| && (input[pos] == '+' || input[pos] == '-') {
        sign := [input[pos]];
        Advance();
      }
      var token, dotted := ScanNumber(sign);
      assert sign == "" ==> sign + Scan(old(Rest()), false).0 == Scan(old(Rest()), false).0;
      assert (token, Rest(), dotted) == Token(old(Rest()));
      var kind := if dotted then 'd' else 'i';
      if pos < |input| && TypeSuffix(input[pos]) {
        kind := Lower(input[pos]);
        Advance();
      }
      var v := NumberValue(p, token, kind);
      return if v.None? then Err(InvalidNumber(token)) else Ok(v.value);
    }

    method ParseTyped(kind: char) returns (r: Result<Leaf, SnbtError>)
      requires Valid() && kind in "BIL"
      modifies this
      ensures Valid() && pos >= old(pos)
      ensures Did(ParseTypedArray(p, kind, old(Rest())), r, Rest())
    {
      hide ParseNumber, SkipSpace, Element, Lawful;
      SkipWhitespace();
      ghost var first := Rest();
      var arr: seq<int> := [];
      if Current() == Some(']') {
        Advance();
        return Ok(ArrayLeaf(kind, []));
      }
      PrependNothing(ParseElements(p, kind, first));
      while true
        invariant Valid() && pos >= old(pos)
        invariant ParseElements(p, kind, first) == Prepend(arr, ParseElements(p, kind, Rest()))
        decreases |input| - pos
      {
        var value := ParseNumeric();
        if value.Err? {
          return Err(value.error);
        }
        var v := Element(kind, value.value);
        if v.None? {
          return Err(TypeMismatch);
        }
        SkipWhitespace();
        var c := Current();
        if c == None {
          return Err(UnexpectedEnd);
        } else if c == Some(',') {
          Advance();
          SkipWhitespace();
          PrependTwice(arr, v.value, ParseElements(p, kind, Rest()));
          arr := arr + [v.value];
        } else if c == Some(']') {
          arr := arr + [v.value];
          Advance();
          ElementsInRange(p, kind, first);
          return Ok(ArrayLeaf(kind, arr));
        } else {
          return Err(UnexpectedChar(c.value, Left()));
        }
      }
    }

    method ParseAny() returns (r: Result<Tag, SnbtError>)
      requires Valid()
      modifies this
      ensures Valid() && pos >= old(pos)
      ensures Did(Erased(ParseValue(p, old(Rest()))), r, Rest())
      decreases |input| - pos, 1
    {
      hide ParseEntries, ParseListOrArray, ParseQuoted, ParseNumber, SkipSpace, TakeIdent, Lawful;
      SkipWhitespace();
      var cur := Current();
      if cur == None {
        return Err(UnexpectedEnd);
      }
      var c := cur.value;
      if c == '{' {
        r := ParseCompound();
      } else if c == '[' {
        r := ParseSquare();
      } else if c == '"' || c == '\'' {
        var text :- ParseQuotedString();
        return Ok(Plain(String(text)));
      } else if Digit(c) || c == '-' || c == '+' {
        var l :- ParseNumeric();
        return Ok(Plain(l));
      } else if IdentStart(p, c) {
        var name := ParseIdentifier();
        return Ok(Plain(if name == "true" then Byte(1) else if name == "false" then Byte(0) else String(name)));
      } else {
        return Err(UnexpectedChar(c, Left()));
      }
    }

    method ParseCompound() returns (r: Result<Tag, SnbtError>)
      requires Valid() && Rest() != []
      modifies this
      ensures Valid() && pos >= old(pos)
      ensures Did(ErasedEntries(ParseEntries(p, old(Rest())[1..])), r, Rest())
      decreases |input| - pos, 0
    {
      Advance();
      SkipWhitespace();
      ghost var start := old(Rest())[1..];
      if Current() == Some('}') {
        Advance();
        return Ok(Compound(map[]));
      }
      SkipTwice(p, start);
      r := ParseEntriesLoop(start);
    }

    /** The name of an entry. */
    method ParseKey() returns (r: Result<string, SnbtError>)
      requires Valid() && Rest() != []
      modifies this
      ensures Valid() && pos >= old(pos)
      ensures Did(ParseName(p, old(Rest())), r, Rest())
    {
      hide ParseQuoted, TakeIdent, Lawful;
      var c := input[pos];
      if c == '"' || c == '\'' {
        r := ParseQuotedString();
      } else if IdentStart(p, c) {
        var name := ParseIdentifier();
        return Ok(name);
      } else {
        return Err(UnexpectedChar(c, Left()));
      }
    }

    /** One turn of the loop of `parse_compound`, up to the delimiter. */
    method ParseEntryAt() returns (r: Result<(string, Tag), SnbtError>)
      requires Valid() && Rest() != []
      modifies this
      ensures Valid() && pos >= old(pos)
      ensures match ParseEntry(p, old(Rest()))
        case Ok((e, tail)) => r == Ok((e.name, Erase(e.value))) && Rest() == tail
        case Err(e) => r == Err(e)
      decreases |input| - pos, 0
    {
      hide ParseName, ParseValue, Erase, SkipSpace, Lawful;
      var name := ParseKey();
      if name.Err? {
        return Err(name.error);
      }
      SkipWhitespace();
      if Current() != Some(':') {
        return Err(Expected(':', Left()));
      }
      Advance();
      var value := ParseAny();
      if value.Err? {
        return Err(value.error);
      }
      return Ok((name.value, value.value));
    }

    /** The loop of `parse_compound`, begun where the entries in `start` begin. */
    method ParseEntriesLoop(ghost start: string) returns (r: Result<Tag, SnbtError>)
      requires Valid() && ParseEntries(p, start) == ParseEntries(p, Rest())
      modifies this
      ensures Valid() && pos >= old(pos)
      ensures Did(ErasedEntries(ParseEntries(p, start)), r, Rest())
      decreases |input| - pos, 2
    {
      hide ParseEntry, Erase, SkipSpace, Lawful;
      var m: map<string, Tag> := map[];
      ghost var es := [];
      PrependNothing(ParseEntries(p, start));
      while true
        invariant Valid() && pos >= old(pos) && m == EraseInto(map[], es)
        invariant ParseEntries(p, start) == Prepend(es, ParseEntries(p, Rest()))
        decreases |input| - pos
      {
        SkipWhitespace();
        var c := Current();
        if c == None {
          return Err(UnexpectedEnd);
        }
        if c == Some('}') {
          Advance();
          assert es + [] == es;
          return Ok(Compound(m));
        }
        ghost var got := ParseEntry(p, Rest());
        var entry := ParseEntryAt();
        if entry.Err? {
          return Err(entry.error);
        }
        ghost var e := got.value.0;
        EraseIntoSnoc(map[], es, e);
        m := m[entry.value.0 := entry.value.1];
        SkipWhitespace();
        c := Current();
        if c == None {
          return Err(UnexpectedEnd);
        } else if c == Some(',') {
          Advance();
          PrependTwice(es, e, ParseEntries(p, Rest()));
          es := es + [e];
        } else if c == Some('}') {
          Advance();
          return Ok(Compound(m));
        } else {
          return Err(UnexpectedChar(c.value, Left()));
        }
      }
    }

    method ParseSquare() returns (r: Result<Tag, SnbtError>)
      requires Valid() && Rest() != []
      modifies this
      ensures Valid() && pos >= old(pos)
      ensures Did(Erased(ParseListOrArray(p, old(Rest())[1..])), r, Rest())
      decreases |input| - pos, 0
    {
      hide ParseItems, ParseTypedArray, SkipSpace, Lawful;
      Advance();
      SkipWhitespace();
      var kind := Current();
      if kind.Some? && kind.value in "BIL" && pos + 1 < |input| && input[pos + 1] == ';' {
        ghost var cur := Rest();
        Advance();
        Advance();
        assert Rest() == cur[2..];
        var l :- ParseTyped(kind.value);
        return Ok(Plain(l));
      }
      if kind == Some(']') {
        Advance();
        return Ok(List([]));
      }
      r := ParseItemsLoop();
    }

    /** The loop of `parse_list_or_array`. */
    method ParseItemsLoop() returns (r: Result<Tag, SnbtError>)
      requires Valid()
      modifies this
      ensures Valid() && pos >= old(pos)
      ensures Did(ErasedItems(ParseItems(p, old(Rest()))), r, Rest())
      decreases |input| - pos, 2
    {
      hide ParseValue, Erase, SkipSpace, Lawful;
      var items: seq<Tag> := [];
      ghost var start, os := Rest(), [];
      PrependNothing(ParseItems(p, start));
      while true
        invariant Valid() && pos >= old(pos) && items == EraseAll(os)
        invariant ParseItems(p, start) == Prepend(os, ParseItems(p, Rest()))
        decreases |input| - pos
      {
        ghost var got := ParseValue(p, Rest());
        var value := ParseAny();
        if value.Err? {
          return Err(value.error);
        }
        ghost var o := got.value.0;
        EraseAllSnoc(os, o);
        SkipWhitespace();
        var c := Current();
        if c == None {
          return Err(UnexpectedEnd);
        } else if c == Some(',') {
          Advance();
          SkipWhitespace();
          PrependTwice(os, o, ParseItems(p, Rest()));
          items, os := items + [value.value], os + [o];
        } else if c == Some(']') {
          Advance();
          return Ok(List(items + [value.value]));
        } else {
          return Err(UnexpectedChar(c.value, Left()));
        }
      }
    }
  }

  /** An unfinished quoted string with `text` already unescaped. */
  ghost function Resumed(text: string, d: Option<(string, string)>): Option<(string, string)> {
    match d
    case None => None
    case Some((t, rest)) => Some((text + t, rest))
  }

  lemma ResumedTwice(a: string, b: string, d: Option<(string, string)>)
    ensures Resumed(a, Resumed(b, d)) == Resumed(a + b, d)
  {
    if d.Some? {
      assert a + (b + d.value.0) == a + b + d.value.0;
    }
  }

  lemma SkipTwice(p: Platform, s: string)
    ensures ParseEntries(p, SkipSpace(p, s)) == ParseEntries(p, s)
  {
    hide ParseEntry;
    SkipNothing(p, SkipSpace(p, s));
  }

  /** `parse_snbt`. */
  method ParseText(p: Platform, input: string) returns (r: Result<Tag, SnbtError>)
    requires Lawful(p)
    ensures r == ParseSnbt(p, input)
  {
    var parser := new Parser(p, input);
    assert input[0..] == input;
    r := parser.ParseAny();
  }
}
