/**
  JSON values and the text the encoder prints for them (RFC 8259).  `Emit(j, rest)` is the
  text of `j` followed by `rest`; printing in front of a remainder makes it plain that a
  text can be read back in only one way.
*/
module Json {

  /** Numbers are kept as the literals they were written with. */
  datatype Value =
    | Null
    | Bool(b: bool)
    | Number(literal: string)
    | Str(s: string)
    | Array(items: seq<Value>)
    | Object(members: seq<Member>)

  datatype Member = Member(name: string, value: Value)

  const NUL: char := '\0'

  predicate NumberChar(c: char) {
    '0' <= c <= '9' || c == '-' || c == '+' || c == '.' || c == 'e' || c == 'E'
  }

  /** All that reading back needs of the number grammar (RFC 8259, section 6). */
  predicate NumberLiteral(s: string) {
    && s != "" && ('0' <= s[0] <= '9' || s[0] == '-')
    && forall i | 0 <= i < |s| :: NumberChar(s[i])
  }

  ghost predicate WellFormed(j: Value) {
    match j
    case Number(literal) => NumberLiteral(literal)
    case Array(items) => forall v | v in items :: WellFormed(v)
    case Object(members) => forall m | m in members :: WellFormed(m.value)
    case _ => true
  }

  function HexDigit(d: nat): char
    requires d < 16
  {
    if d < 10 then '0' + (d as char) else 'a' + ((d - 10) as char)
  }

  /** One character inside a string: short escapes, \u00xx for controls and for < > &, and the two line separators. */
  function EscapeChar(c: char): (e: string)
    ensures |e| > 0 && e[0] != '"'
  {
    if c == '"' then "\\\""
    else if c == '\\' then "\\\\"
    else if c as int == 8 then "\\b"
    else if c as int == 12 then "\\f"
    else if c as int == 10 then "\\n"
    else if c as int == 13 then "\\r"
    else if c as int == 9 then "\\t"
    else if c as int < 0x20 || c == '<' || c == '>' || c == '&' then
      "\\u00" + [HexDigit(c as nat / 16), HexDigit(c as nat % 16)]
    else if c as int == 0x2028 then "\\u2028"
    else if c as int == 0x2029 then "\\u2029"
    else [c]
  }

  function EmitChars(s: string, rest: string): string {
    if s == "" then rest else EscapeChar(s[0]) + EmitChars(s[1..], rest)
  }

  function EmitString(s: string, rest: string): (t: string)
    ensures t != "" && t[0] == '"'
  {
    "\"" + EmitChars(s, "\"" + rest)
  }

  function Emit(j: Value, rest: string): string
    decreases j, 1
  {
    match j
    case Null => "null" + rest
    case Bool(b) => (if b then "true" else "false") + rest
    case Number(literal) => literal + rest
    case Str(s) => EmitString(s, rest)
    case Array(items) => "[" + (if items == [] then "]" + rest else Emit(items[0], EmitItems(items[1..], rest)))
    case Object(members) =>
      "{" + (if members == [] then "}" + rest else EmitMember(members[0], EmitMembers(members[1..], rest)))
  }

  function EmitItems(items: seq<Value>, rest: string): string
    decreases items, 0
  {
    if items == [] then "]" + rest else "," + Emit(items[0], EmitItems(items[1..], rest))
  }

  function EmitMember(m: Member, rest: string): (t: string)
    ensures t != "" && t[0] == '"'
    decreases m, 2
  {
    EmitString(m.name, ":" + Emit(m.value, rest))
  }

  function EmitMembers(members: seq<Member>, rest: string): string
    decreases members, 0
  {
    if members == [] then "}" + rest else "," + EmitMember(members[0], EmitMembers(members[1..], rest))
  }

  function Marshal(j: Value): string { Emit(j, "") }

  // ----- Printing appends -----

  lemma ConcatAssociates(x: string, y: string, z: string)
    ensures x + y + z == x + (y + z)
  {
  }

  lemma {:induction false} EmitCharsAppends(s: string, rest: string, more: string)
    ensures EmitChars(s, rest + more) == EmitChars(s, rest) + more
  {
    if s != "" {
      EmitCharsAppends(s[1..], rest, more);
      assert EscapeChar(s[0]) + (EmitChars(s[1..], rest) + more) == EscapeChar(s[0]) + EmitChars(s[1..], rest) + more;
    }
  }

  lemma EmitStringAppends(s: string, rest: string, more: string)
    ensures EmitString(s, rest + more) == EmitString(s, rest) + more
  {
    assert "\"" + (rest + more) == "\"" + rest + more;
    EmitCharsAppends(s, "\"" + rest, more);
  }

  lemma {:induction false} EmitAppends(j: Value, rest: string, more: string)
    ensures Emit(j, rest + more) == Emit(j, rest) + more
    decreases j, 1
  {
    match j
    case Null => assert "null" + (rest + more) == "null" + rest + more;
    case Bool(b) =>
      var t := if b then "true" else "false";
      assert t + (rest + more) == t + rest + more;
    case Number(literal) => assert literal + (rest + more) == literal + rest + more;
    case Str(s) => EmitStringAppends(s, rest, more);
    case Array(items) =>
      if items == [] {
        assert "[" + ("]" + (rest + more)) == "[" + ("]" + rest) + more;
      } else {
        EmitItemsAppends(items[1..], rest, more);
        EmitAppends(items[0], EmitItems(items[1..], rest), more);
        ConcatAssociates("[", Emit(items[0], EmitItems(items[1..], rest)), more);
      }
    case Object(members) =>
      if members == [] {
        assert "{" + ("}" + (rest + more)) == "{" + ("}" + rest) + more;
      } else {
        EmitMembersAppends(members[1..], rest, more);
        EmitMemberAppends(members[0], EmitMembers(members[1..], rest), more);
        ConcatAssociates("{", EmitMember(members[0], EmitMembers(members[1..], rest)), more);
      }
  }

  lemma {:induction false} EmitItemsAppends(items: seq<Value>, rest: string, more: string)
    ensures EmitItems(items, rest + more) == EmitItems(items, rest) + more
    decreases items, 0
  {
    if items == [] {
      assert "]" + (rest + more) == "]" + rest + more;
    } else {
      EmitItemsAppends(items[1..], rest, more);
      EmitAppends(items[0], EmitItems(items[1..], rest), more);
      ConcatAssociates(",", Emit(items[0], EmitItems(items[1..], rest)), more);
    }
  }

  lemma {:induction false} EmitMemberAppends(m: Member, rest: string, more: string)
    ensures EmitMember(m, rest + more) == EmitMember(m, rest) + more
    decreases m, 2
  {
    EmitAppends(m.value, rest, more);
    assert ":" + (Emit(m.value, rest) + more) == ":" + Emit(m.value, rest) + more;
    EmitStringAppends(m.name, ":" + Emit(m.value, rest), more);
  }

  lemma {:induction false} EmitMembersAppends(members: seq<Member>, rest: string, more: string)
    ensures EmitMembers(members, rest + more) == EmitMembers(members, rest) + more
    decreases members, 0
  {
    if members == [] {
      assert "}" + (rest + more) == "}" + rest + more;
    } else {
      EmitMembersAppends(members[1..], rest, more);
      EmitMemberAppends(members[0], EmitMembers(members[1..], rest), more);
      ConcatAssociates(",", EmitMember(members[0], EmitMembers(members[1..], rest)), more);
    }
  }

  lemma EmitIsMarshalThen(j: Value, rest: string)
    ensures Emit(j, rest) == Marshal(j) + rest
  {
    EmitAppends(j, "", rest);
    assert "" + rest == rest;
  }

  lemma MarshalledInARow(a: Value, b: Value, tail: string)
    ensures Marshal(a) + Marshal(b) + tail == Emit(a, Emit(b, tail))
  {
    EmitIsMarshalThen(b, tail);
    EmitIsMarshalThen(a, Emit(b, tail));
    ConcatAssociates(Marshal(a), Marshal(b), tail);
  }

  /** No control character is printed, so no NUL is (RFC 8259, section 7). */
  lemma EscapeIsPrintable(c: char)
    ensures forall x | x in EscapeChar(c) :: x >= ' '
  {
  }

  lemma {:induction false} CharsArePrintable(s: string, rest: string)
    ensures forall x | x in EmitChars(s, rest) :: x >= ' ' || x in rest
  {
    if s != "" {
      EscapeIsPrintable(s[0]);
      CharsArePrintable(s[1..], rest);
    }
  }

  lemma StringIsPrintable(s: string, rest: string)
    ensures forall x | x in EmitString(s, rest) :: x >= ' ' || x in rest
  {
    CharsArePrintable(s, "\"" + rest);
  }

  lemma {:induction false} EmitIsPrintable(j: Value, rest: string)
    requires WellFormed(j)
    ensures forall x | x in Emit(j, rest) :: x >= ' ' || x in rest
    decreases j, 1
  {
    match j
    case Null =>
    case Bool(_) =>
    case Number(literal) =>
      forall x | x in literal ensures x >= ' ' {
        var i :| 0 <= i < |literal| && literal[i] == x;
        assert NumberChar(literal[i]);
      }
    case Str(s) => StringIsPrintable(s, rest);
    case Array(items) =>
      if items != [] {
        ItemsArePrintable(items[1..], rest);
        EmitIsPrintable(items[0], EmitItems(items[1..], rest));
      }
    case Object(members) =>
      if members != [] {
        MembersArePrintable(members[1..], rest);
        MemberIsPrintable(members[0], EmitMembers(members[1..], rest));
      }
  }

  lemma {:induction false} ItemsArePrintable(items: seq<Value>, rest: string)
    requires forall v | v in items :: WellFormed(v)
    ensures forall x | x in EmitItems(items, rest) :: x >= ' ' || x in rest
    decreases items, 0
  {
    if items != [] {
      ItemsArePrintable(items[1..], rest);
      EmitIsPrintable(items[0], EmitItems(items[1..], rest));
    }
  }

  lemma {:induction false} MemberIsPrintable(m: Member, rest: string)
    requires WellFormed(m.value)
    ensures forall x | x in EmitMember(m, rest) :: x >= ' ' || x in rest
    decreases m, 2
  {
    EmitIsPrintable(m.value, rest);
    StringIsPrintable(m.name, ":" + Emit(m.value, rest));
  }

  lemma {:induction false} MembersArePrintable(members: seq<Member>, rest: string)
    requires forall m | m in members :: WellFormed(m.value)
    ensures forall x | x in EmitMembers(members, rest) :: x >= ' ' || x in rest
    decreases members, 0
  {
    if members != [] {
      MembersArePrintable(members[1..], rest);
      MemberIsPrintable(members[0], EmitMembers(members[1..], rest));
    }
  }
}
