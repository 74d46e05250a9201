/**
  A reader of compact JSON text, written from the grammar (RFC 8259, sections 3 to 7) and
  independent of the printer: what is printed reads as what was printed, with the remainder
  left over.  So a text, and a text in front of a remainder, has one reading.
*/
module JsonReader {
  import opened Prelude
  import opened Json

  // ----- Strings -----

  function HexValue(c: char): Option<nat> {
    if '0' <= c <= '9' then Some((c - '0') as nat)
    else if 'a' <= c <= 'f' then Some(10 + (c - 'a') as nat)
    else if 'A' <= c <= 'F' then Some(10 + (c - 'A') as nat)
    else None
  }

  /** Four hexadecimal digits; a lone surrogate is no character. */
  function ReadHex(t: string): Option<char> {
    if |t| < 4 then None
    else
      match (HexValue(t[0]), HexValue(t[1]), HexValue(t[2]), HexValue(t[3]))
      case (Some(a), Some(b), Some(c), Some(d)) =>
        var n := ((a * 16 + b) * 16 + c) * 16 + d;
        if n < 0xD800 || 0xE000 <= n < 0x1_0000 then Some(n as char) else None
      case _ => None
  }

  function ReadEscape(c: char): Option<char> {
    match c
    case '"' => Some('"')
    case '\\' => Some('\\')
    case '/' => Some('/')
    case 'b' => Some(8 as char)
    case 'f' => Some(12 as char)
    case 'n' => Some(10 as char)
    case 'r' => Some(13 as char)
    case 't' => Some(9 as char)
    case _ => None
  }

  /** One character of a string, escaped or not; control characters must be escaped. */
  function ReadChar(t: string): (r: Option<(char, string)>)
    ensures r.Some? ==> |r.value.1| < |t|
  {
    if t == "" || t[0] == '"' || t[0] < ' ' then None
    else if t[0] != '\\' then Some((t[0], t[1..]))
    else if |t| == 1 then None
    else if t[1] == 'u' then
      match ReadHex(t[2..])
      case None => None
      case Some(c) => Some((c, t[6..]))
    else
      match ReadEscape(t[1])
      case None => None
      case Some(c) => Some((c, t[2..]))
  }

  /** The characters up to the closing quote. */
  function ReadChars(t: string): (r: Option<(string, string)>)
    ensures r.Some? ==> |r.value.1| < |t|
    decreases |t|
  {
    if t != "" && t[0] == '"' then Some(("", t[1..]))
    else
      match ReadChar(t)
      case None => None
      case Some((c, rest)) =>
        match ReadChars(rest)
        case None => None
        case Some((s, rest')) => Some(([c] + s, rest'))
  }

  // ----- Values -----

  /** The number characters a text starts with. */
  function NumberLength(t: string): (n: nat)
    ensures n <= |t|
  {
    if t == "" || !NumberChar(t[0]) then 0 else 1 + NumberLength(t[1..])
  }

  function ReadValue(t: string): (r: Option<(Value, string)>)
    ensures r.Some? ==> |r.value.1| < |t|
    decreases |t|, 0
  {
    if "null" <= t then Some((Null, t[4..]))
    else if "true" <= t then Some((Bool(true), t[4..]))
    else if "false" <= t then Some((Bool(false), t[5..]))
    else if "\"" <= t then
      match ReadChars(t[1..])
      case None => None
      case Some((s, rest)) => Some((Str(s), rest))
    else if "[]" <= t then Some((Array([]), t[2..]))
    else if "[" <= t then
      match ReadItems(t[1..])
      case None => None
      case Some((items, rest)) => Some((Array(items), rest))
    else if "{}" <= t then Some((Object([]), t[2..]))
    else if "{" <= t then
      match ReadMembers(t[1..])
      case None => None
      case Some((members, rest)) => Some((Object(members), rest))
    else
      var n := NumberLength(t);
      if n > 0 && NumberLiteral(t[..n]) then Some((Number(t[..n]), t[n..])) else None
  }

  /** Values separated by commas, up to the closing bracket. */
  function ReadItems(t: string): (r: Option<(seq<Value>, string)>)
    ensures r.Some? ==> |r.value.1| < |t|
    decreases |t|, 1
  {
    match ReadValue(t)
    case None => None
    case Some((v, rest)) =>
      if "]" <= rest then Some(([v], rest[1..]))
      else if "," <= rest then
        match ReadItems(rest[1..])
        case None => None
        case Some((vs, rest')) => Some(([v] + vs, rest'))
      else None
  }

  function ReadMember(t: string): (r: Option<(Member, string)>)
    ensures r.Some? ==> |r.value.1| < |t|
    decreases |t|, 1
  {
    if !("\"" <= t) then None
    else
      match ReadChars(t[1..])
      case None => None
      case Some((name, rest)) =>
        if !(":" <= rest) then None
        else
          match ReadValue(rest[1..])
          case None => None
          case Some((v, rest')) => Some((Member(name, v), rest'))
  }

  /** Members separated by commas, up to the closing brace. */
  function ReadMembers(t: string): (r: Option<(seq<Member>, string)>)
    ensures r.Some? ==> |r.value.1| < |t|
    decreases |t|, 2
  {
    match ReadMember(t)
    case None => None
    case Some((m, rest)) =>
      if "}" <= rest then Some(([m], rest[1..]))
      else if "," <= rest then
        match ReadMembers(rest[1..])
        case None => None
        case Some((ms, rest')) => Some(([m] + ms, rest'))
      else None
  }

  // ----- What is printed reads back -----

  /** The escape of a character reads as the character. */
  lemma EscapeCharReads(c: char, rest: string)
    ensures ReadChar(EscapeChar(c) + rest) == Some((c, rest))
  {
    var e := EscapeChar(c);
    var t := e + rest;
    assert t[|e|..] == rest && t[0] == e[0];
    if |e| > 1 {
      assert t[1] == e[1];
      if |e| == 6 {
        assert t[2..][0] == e[2] && t[2..][1] == e[3] && t[2..][2] == e[4] && t[2..][3] == e[5];
      }
    }
  }

  lemma {:induction false} CharsRead(s: string, rest: string)
    ensures ReadChars(EmitChars(s, "\"" + rest)) == Some((s, rest))
  {
    if s == "" {
      assert ("\"" + rest)[1..] == rest;
    } else {
      var tail := EmitChars(s[1..], "\"" + rest);
      EscapeCharReads(s[0], tail);
      CharsRead(s[1..], rest);
      assert (EscapeChar(s[0]) + tail)[0] == EscapeChar(s[0])[0];
      assert s == [s[0]] + s[1..];
    }
  }

  /** A remainder that cannot be taken for more of a number. */
  predicate Delimits(rest: string) {
    rest == "" || !NumberChar(rest[0])
  }

  lemma {:induction false} NumberLengthIs(literal: string, rest: string)
    requires (forall i | 0 <= i < |literal| :: NumberChar(literal[i])) && Delimits(rest)
    ensures NumberLength(literal + rest) == |literal|
  {
    if literal == "" {
      assert literal + rest == rest;
    } else {
      assert (literal + rest)[0] == literal[0] && (literal + rest)[1..] == literal[1..] + rest;
      NumberLengthIs(literal[1..], rest);
    }
  }

  lemma NumberReads(literal: string, rest: string)
    requires NumberLiteral(literal) && Delimits(rest)
    ensures ReadValue(literal + rest) == Some((Number(literal), rest))
  {
    var t := literal + rest;
    NumberLengthIs(literal, rest);
    assert t[0] == literal[0] && t[..|literal|] == literal && t[|literal|..] == rest;
  }

  /** Only numbers need to be ended by what follows; an object ends itself. */
  lemma {:induction false} EmitReads(j: Value, rest: string)
    requires WellFormed(j) && (j.Number? ==> Delimits(rest))
    ensures ReadValue(Emit(j, rest)) == Some((j, rest))
    decreases j, 1
  {
    var t := Emit(j, rest);
    match j
    case Null => assert t[4..] == rest;
    case Bool(b) =>
      if b {
        assert t[0] == 't' && "true" <= t && t[4..] == rest;
      } else {
        assert t[0] == 'f' && "false" <= t && t[5..] == rest;
      }
    case Number(literal) => NumberReads(literal, rest);
    case Str(s) =>
      assert t[1..] == EmitChars(s, "\"" + rest);
      CharsRead(s, rest);
    case Array(items) =>
      if items == [] {
        assert t[0] == '[' && "[]" <= t && t[2..] == rest && j == Array([]);
      } else {
        assert "[" <= t && t[1..] == Emit(items[0], EmitItems(items[1..], rest));
        ItemsRead(items, rest);
        EmitStarts(items[0], EmitItems(items[1..], rest));
      }
    case Object(members) =>
      if members == [] {
        assert t[0] == '{' && "{}" <= t && t[2..] == rest && j == Object([]);
      } else {
        assert "{" <= t && t[1..] == EmitMember(members[0], EmitMembers(members[1..], rest));
        MembersRead(members, rest);
      }
  }

  lemma EmitStarts(j: Value, rest: string)
    requires WellFormed(j)
    ensures Emit(j, rest) != "" && Emit(j, rest)[0] != ']'
  {
  }

  /** A printed element is followed by a comma or a bracket. */
  lemma FollowsItem(items: seq<Value>, rest: string)
    ensures var t := EmitItems(items, rest);
            if items == [] then t == "]" + rest
            else t == "," + Emit(items[0], EmitItems(items[1..], rest))
    ensures Delimits(EmitItems(items, rest))
  {
  }

  lemma ItemsEnd(t: string, v: Value, rest: string)
    requires ReadValue(t) == Some((v, "]" + rest))
    ensures ReadItems(t) == Some(([v], rest))
  {
    assert ("]" + rest)[1..] == rest;
  }

  lemma ItemsGoOn(t: string, v: Value, more: string, vs: seq<Value>, rest: string)
    requires ReadValue(t) == Some((v, "," + more)) && ReadItems(more) == Some((vs, rest))
    ensures ReadItems(t) == Some(([v] + vs, rest))
  {
    var after := "," + more;
    assert after[0] == ',' && after[1..] == more;
  }

  lemma {:induction false} ItemsRead(items: seq<Value>, rest: string)
    requires items != [] && forall v | v in items :: WellFormed(v)
    ensures ReadItems(Emit(items[0], EmitItems(items[1..], rest))) == Some((items, rest))
    decreases items, 0
  {
    var first, tail := items[0], items[1..];
    var t := Emit(first, EmitItems(tail, rest));
    FollowsItem(tail, rest);
    EmitReads(first, EmitItems(tail, rest));
    assert items == [first] + tail;
    if tail == [] {
      ItemsEnd(t, first, rest);
      assert items == [first];
    } else {
      ItemsRead(tail, rest);
      ItemsGoOn(t, first, Emit(tail[0], EmitItems(tail[1..], rest)), tail, rest);
    }
  }

  lemma {:induction false} MemberReads(m: Member, rest: string)
    requires WellFormed(m.value) && Delimits(rest)
    ensures ReadMember(EmitMember(m, rest)) == Some((m, rest))
    decreases m, 2
  {
    var colon := ":" + Emit(m.value, rest);
    CharsRead(m.name, colon);
    assert EmitMember(m, rest)[1..] == EmitChars(m.name, "\"" + colon);
    EmitReads(m.value, rest);
    assert colon[1..] == Emit(m.value, rest);
  }

  lemma FollowsMember(members: seq<Member>, rest: string)
    ensures var t := EmitMembers(members, rest);
            if members == [] then t == "}" + rest
            else t == "," + EmitMember(members[0], EmitMembers(members[1..], rest))
    ensures Delimits(EmitMembers(members, rest))
  {
  }

  lemma MembersEnd(t: string, m: Member, rest: string)
    requires ReadMember(t) == Some((m, "}" + rest))
    ensures ReadMembers(t) == Some(([m], rest))
  {
    assert ("}" + rest)[1..] == rest;
  }

  lemma MembersGoOn(t: string, m: Member, more: string, ms: seq<Member>, rest: string)
    requires ReadMember(t) == Some((m, "," + more)) && ReadMembers(more) == Some((ms, rest))
    ensures ReadMembers(t) == Some(([m] + ms, rest))
  {
    var after := "," + more;
    assert after[0] == ',' && after[1..] == more;
  }

  lemma {:induction false} MembersRead(members: seq<Member>, rest: string)
    requires members != [] && forall m | m in members :: WellFormed(m.value)
    ensures ReadMembers(EmitMember(members[0], EmitMembers(members[1..], rest))) == Some((members, rest))
    decreases members, 0
  {
    var first, tail := members[0], members[1..];
    var t := EmitMember(first, EmitMembers(tail, rest));
    FollowsMember(tail, rest);
    MemberReads(first, EmitMembers(tail, rest));
    assert members == [first] + tail;
    if tail == [] {
      MembersEnd(t, first, rest);
      assert members == [first];
    } else {
      MembersRead(tail, rest);
      MembersGoOn(t, first, EmitMember(tail[0], EmitMembers(tail[1..], rest)), tail, rest);
    }
  }

  /**
    Unique reading: if two values printed in front of two remainders give the same text,
    the values are the same and so are the remainders.
  */
  lemma EmitReadsBack(a: Value, b: Value, x: string, y: string)
    requires WellFormed(a) && WellFormed(b)
    requires a.Number? || b.Number? ==> Delimits(x) && Delimits(y)
    requires Emit(a, x) == Emit(b, y)
    ensures a == b && x == y
  {
    EmitReads(a, x);
    EmitReads(b, y);
  }
}
