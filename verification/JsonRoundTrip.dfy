/**
 The encoder's text, and hence the streamed text, is read back by an RFC 8259 parser
 exactly when no float in it is NaN or infinite.
 */
module JsonRoundTrip {
  import opened Common
  import opened JsonText
  import opened Printing

  predicate AllFinite(v: Value)
    decreases v, 1
  {
    match v
    case NotFinite(_) => false
    case Array(items) => AllFiniteItems(items)
    case Object(members) => AllFiniteMembers(members)
    case _ => true
  }

  predicate AllFiniteItems(items: seq<Value>)
    decreases items, 0
  {
    items == [] || (AllFinite(items[0]) && AllFiniteItems(items[1..]))
  }

  predicate AllFiniteMembers(members: seq<Member>)
    decreases members, 0
  {
    members == [] || (AllFinite(members[0].value) && AllFiniteMembers(members[1..]))
  }

  function OkIf<T>(ok: bool, t: T): Option<T> { if ok then Some(t) else None }

  predicate AllSpace(s: string) { forall i :: 0 <= i < |s| ==> IsSpace(s[i]) }

  /** Text that cannot prolong a number written just before it. */
  predicate Delimited(s: string) { s == [] || !IsNumberChar(s[0]) }

  // ------------------------------------------------------------ white space

  lemma {:induction false} SkipSpaceConcat(ws: string, s: string)
    requires AllSpace(ws)
    ensures SkipSpace(ws + s) == SkipSpace(s)
  {
    if ws == [] {
      assert ws + s == s;
    } else {
      assert (ws + s)[1..] == ws[1..] + s;
      SkipSpaceConcat(ws[1..], s);
    }
  }

  lemma ParseValueSkipsSpace(ws: string, s: string)
    requires AllSpace(ws)
    ensures ParseValue(ws + s) == ParseValue(s)
  {
    SkipSpaceConcat(ws, s);
  }

  lemma {:induction false} RepeatIsSpace(s: string, n: nat)
    requires AllSpace(s)
    ensures AllSpace(Repeat(s, n))
  {
    if n > 0 { RepeatIsSpace(s, n - 1); }
  }

  lemma {:induction false} SpacesAreSpace(n: nat)
    ensures AllSpace(Spaces(n))
  {
    if n > 0 { SpacesAreSpace(n - 1); }
  }

  lemma BreakIsSpace(indent: nat, level: nat)
    ensures AllSpace(Break(indent, level))
  {
    SpacesAreSpace(indent);
    RepeatIsSpace(Spaces(indent), level);
  }

  // ---------------------------------------------------------------- strings

  lemma HexDigitReadBack(n: nat)
    requires n < 16
    ensures HexValue(HexDigit(n)) == Some(n)
  {
  }

  lemma Nibbles(n: nat)
    requires n < 0x10000
    ensures n / 4096 < 16
    ensures n / 4096 * 4096 + n / 256 % 16 * 256 + n / 16 % 16 * 16 + n % 16 == n
  {
    var b := n / 16;
    var c := b / 16;
    var d := c / 16;
    assert c == n / 256 && d == n / 4096;
    assert n == b * 16 + n % 16;
    assert b == c * 16 + b % 16;
    assert c == d * 16 + c % 16;
  }

  lemma FourDigits(a: nat, b: nat, c: nat, d: nat, rest: string)
    requires a < 16 && b < 16 && c < 16 && d < 16
    ensures ReadHex4([HexDigit(a), HexDigit(b), HexDigit(c), HexDigit(d)] + rest)
         == Some(a * 4096 + b * 256 + c * 16 + d)
  {
    HexDigitReadBack(a); HexDigitReadBack(b); HexDigitReadBack(c); HexDigitReadBack(d);
    var s := [HexDigit(a), HexDigit(b), HexDigit(c), HexDigit(d)] + rest;
    assert s[0] == HexDigit(a) && s[1] == HexDigit(b) && s[2] == HexDigit(c) && s[3] == HexDigit(d);
  }

  lemma Hex4ReadBack(n: nat, rest: string)
    requires n < 0x10000
    ensures ReadHex4(Hex4(n) + rest) == Some(n)
  {
    Nibbles(n);
    FourDigits(n / 4096, n / 256 % 16, n / 16 % 16, n % 16, rest);
  }

  lemma SurrogateLayout(hi: string, lo: string, rest: string)
    requires |hi| == |lo| == 4
    ensures var s := hi + ("\\u" + (lo + rest));
            |s| >= 10 && s[4] == '\\' && s[5] == 'u' && s[6..] == lo + rest && s[10..] == rest
  {
  }

  lemma SurrogatesReadBack(hi: nat, lo: nat, rest: string)
    requires 0xd800 <= hi < 0xdc00 <= lo < 0xe000
    ensures ReadUnicode(Hex4(hi) + ("\\u" + (Hex4(lo) + rest)))
         == Some(((0x10000 + (hi - 0xd800) * 1024 + (lo - 0xdc00)) as char, rest))
  {
    Hex4ReadBack(hi, "\\u" + (Hex4(lo) + rest));
    Hex4ReadBack(lo, rest);
    SurrogateLayout(Hex4(hi), Hex4(lo), rest);
  }

  lemma PairReadBack(c: char, rest: string)
    requires c as int >= 0x10000
    ensures ReadChar(EscapeChar(c) + rest) == Some((c, rest))
  {
    var n := c as int - 0x10000;
    var hi, lo := 0xd800 + n / 1024, 0xdc00 + n % 1024;
    var s := Hex4(hi) + ("\\u" + (Hex4(lo) + rest));
    assert EscapeChar(c) + rest == "\\u" + s by { PairLayout(Hex4(hi), Hex4(lo), rest); }
    SurrogatesReadBack(hi, lo, rest);
    assert ("\\u" + s)[2..] == s;
  }

  lemma PairLayout(hi: string, lo: string, rest: string)
    ensures ("\\u" + hi + "\\u" + lo) + rest == "\\u" + (hi + ("\\u" + (lo + rest)))
  {
  }

  /** Reading back one escaped character, surrogate pairs included. */
  lemma CharReadBack(c: char, rest: string)
    ensures ReadChar(EscapeChar(c) + rest) == Some((c, rest))
    ensures EscapeChar(c)[0] != '"'
  {
    var e := EscapeChar(c);
    if c as int >= 0x10000 {
      PairReadBack(c, rest);
    } else if |e| == 6 {
      var s := Hex4(c as int) + rest;
      assert (e + rest)[2..] == s;
      Hex4ReadBack(c as int, rest);
      assert s[4..] == rest;
    } else {
      assert (e + rest)[|e|..] == rest;
    }
  }

  lemma {:induction false} StringReadBack(s: string, rest: string)
    ensures ReadString(EscapeChars(s) + ("\"" + rest)) == Some((s, rest))
  {
    if s == [] {
      assert EscapeChars(s) + ("\"" + rest) == "\"" + rest;
    } else {
      var tail := EscapeChars(s[1..]) + ("\"" + rest);
      Regroup(EscapeChar(s[0]), EscapeChars(s[1..]), "\"" + rest);
      CharReadBack(s[0], tail);
      StringReadBack(s[1..], rest);
      assert s == [s[0]] + s[1..];
    }
  }

  lemma EncodedStringText(s: string, rest: string)
    ensures EncodeString(s) + rest == "\"" + (EscapeChars(s) + ("\"" + rest))
  {
  }

  // ---------------------------------------------------------------- scalars

  lemma {:induction false} NumberPrefixExact(n: string, rest: string)
    requires forall i :: 0 <= i < |n| ==> IsNumberChar(n[i])
    requires Delimited(rest)
    ensures NumberPrefix(n + rest) == |n|
  {
    if n == [] {
      assert n + rest == rest;
    } else {
      assert (n + rest)[1..] == n[1..] + rest;
      NumberPrefixExact(n[1..], rest);
    }
  }

  lemma NumberReadBack(n: NumberLexeme, rest: string)
    requires Delimited(rest)
    ensures ParseValue(n + rest) == Some((Number(n), rest))
  {
    AcceptedAreNumberChars(Start, n);
    NumberPrefixExact(n, rest);
    var s := n + rest;
    assert n[0] == '-' || IsDigit(n[0]);
    assert SkipSpace(s) == s;
    assert s[..|n|] == n && s[|n|..] == rest;
  }

  lemma ConstantReadBack(rest: string)
    ensures ParseValue("null" + rest) == Some((Null, rest))
    ensures ParseValue("true" + rest) == Some((Bool(true), rest))
    ensures ParseValue("false" + rest) == Some((Bool(false), rest))
  {
    assert SkipSpace("null" + rest) == "null" + rest;
    assert SkipSpace("true" + rest) == "true" + rest;
    assert SkipSpace("false" + rest) == "false" + rest;
  }

  lemma WordRejected(w: NonJsonWord, rest: string)
    ensures ParseValue(WordText(w) + rest) == None
  {
    var s := WordText(w) + rest;
    assert SkipSpace(s) == s;
    if w == MinusInfinity {
      assert s[0] == '-' && s[1] == 'I';
      assert NumberPrefix(s[1..]) == 0;
      assert s[..1] == "-";
      assert !IsNumber("-") by {
        assert "-"[1..] == [];
        assert AcceptsFrom(Start, "-") == AcceptsFrom(Minus, []);
      }
    } else {
      assert NumberPrefix(s) == 0;
    }
  }

  lemma StringValueReadBack(s: string, rest: string)
    ensures ParseValue(EncodeString(s) + rest) == Some((String(s), rest))
  {
    EncodedStringText(s, rest);
    var t := EscapeChars(s) + ("\"" + rest);
    assert ("\"" + t)[1..] == t;
    assert SkipSpace("\"" + t) == "\"" + t;
    StringReadBack(s, rest);
  }

  // ------------------------------------------------------------- containers

  /** No encoded value starts with a space or a closing bracket. */
  lemma ValueHead(v: Value, indent: nat, level: nat)
    ensures var s := Dumps(v, indent, level);
            s != [] && !IsSpace(s[0]) && s[0] != ']' && s[0] != '}'
  {
    if v.Number? { AcceptedAreNumberChars(Start, v.lexeme); }
  }

  lemma EmptyArrayReadBack(rest: string)
    ensures ParseValue("[]" + rest) == Some((Array([]), rest))
  {
    var t := "]" + rest;
    assert "[]" + rest == "[" + t && t[1..] == rest && ("[" + t)[1..] == t;
    assert SkipSpace("[" + t) == "[" + t && SkipSpace(t) == t;
  }

  lemma EmptyObjectReadBack(rest: string)
    ensures ParseValue("{}" + rest) == Some((Object([]), rest))
  {
    var t := "}" + rest;
    assert "{}" + rest == "{" + t && t[1..] == rest && ("{" + t)[1..] == t;
    assert SkipSpace("{" + t) == "{" + t && SkipSpace(t) == t;
  }

  lemma {:induction false} ValueReadBack(v: Value, indent: nat, level: nat, rest: string)
    requires Delimited(rest)
    ensures ParseValue(Dumps(v, indent, level) + rest) == OkIf(AllFinite(v), (v, rest))
    decreases v, 2
  {
    match v
    case Null => ConstantReadBack(rest);
    case Bool(b) => ConstantReadBack(rest);
    case Number(n) => NumberReadBack(n, rest);
    case NotFinite(w) => WordRejected(w, rest);
    case String(s) => StringValueReadBack(s, rest);
    case Array(items) =>
      if items == [] {
        EmptyArrayReadBack(rest);
      } else {
        BreakIsSpace(indent, level + 1); BreakIsSpace(indent, level);
        BracketedItemsReadBack(items, indent, level + 1, Break(indent, level + 1), Break(indent, level + 1),
                               Break(indent, level), rest);
        BracketText("[", Break(indent, level + 1), DumpItems(items, indent, level + 1, Break(indent, level + 1)),
                    Break(indent, level), "]", rest);
      }
    case Object(members) =>
      if members == [] {
        EmptyObjectReadBack(rest);
      } else {
        BreakIsSpace(indent, level + 1); BreakIsSpace(indent, level);
        BracedMembersReadBack(members, indent, level + 1, Break(indent, level + 1), Break(indent, level), rest);
        BracketText("{", Break(indent, level + 1), DumpMembers(members, indent, level + 1),
                    Break(indent, level), "}", rest);
      }
  }

  lemma BracketText(o: string, b1: string, d: string, b0: string, c: string, rest: string)
    ensures (o + b1 + d + b0 + c) + rest == o + (b1 + (d + (b0 + (c + rest))))
  {
  }

  /** An array laid out with any space after "[", between elements and before "]". */
  lemma {:induction false} BracketedItemsReadBack(items: seq<Value>, indent: nat, level: nat,
                                 lead: string, gap: string, last: string, rest: string)
    requires items != [] && AllSpace(lead) && AllSpace(gap) && AllSpace(last)
    ensures ParseValue("[" + (lead + (DumpItems(items, indent, level, gap) + (last + ("]" + rest)))))
         == OkIf(AllFiniteItems(items), (Array(items), rest))
    decreases items, 1
  {
    var body := DumpItems(items, indent, level, gap) + (last + ("]" + rest));
    var s := "[" + (lead + body);
    assert s[1..] == lead + body;
    ItemsReadBack(items, indent, level, gap, last, rest);
    ParseValueSkipsSpace(lead, body);
    assert ParseItems(lead + body) == ParseItems(body);
    SkipSpaceConcat(lead, body);
    ValueHead(items[0], indent, level);
    assert body[0] == Dumps(items[0], indent, level)[0];
    assert SkipSpace(body) == body;
    assert SkipSpace(s) == s;
  }

  lemma {:induction false} ItemsReadBack(items: seq<Value>, indent: nat, level: nat,
                                         gap: string, last: string, rest: string)
    requires items != [] && AllSpace(gap) && AllSpace(last)
    ensures ParseItems(DumpItems(items, indent, level, gap) + (last + ("]" + rest)))
         == OkIf(AllFiniteItems(items), (items, rest))
    decreases items, 0
  {
    var v := items[0];
    var text := Dumps(v, indent, level);
    if |items| == 1 {
      var s := "]" + rest;
      assert Delimited(last + s);
      ValueReadBack(v, indent, level, last + s);
      SkipSpaceConcat(last, s);
      assert SkipSpace(s) == s && s[1..] == rest;
      assert items == [v] && items[1..] == [];
    } else {
      var body := DumpItems(items[1..], indent, level, gap) + (last + ("]" + rest));
      ItemsReadBack(items[1..], indent, level, gap, last, rest);
      ParseValueSkipsSpace(gap, body);
      assert ParseItems(gap + body) == ParseItems(body);
      var s := "," + (gap + body);
      SeparatedText(text, gap, DumpItems(items[1..], indent, level, gap), last + ("]" + rest));
      ValueReadBack(v, indent, level, s);
      assert SkipSpace(s) == s && s[1..] == gap + body;
      assert items == [v] + items[1..];
    }
  }

  lemma SeparatedText(first: string, gap: string, others: string, rest: string)
    ensures (first + "," + gap + others) + rest == first + ("," + (gap + (others + rest)))
  {
  }

  lemma {:induction false} MemberReadBack(m: Member, indent: nat, level: nat, rest: string)
    requires Delimited(rest)
    ensures ParseMember(MemberText(m, indent, level) + rest) == OkIf(AllFinite(m.value), (m, rest))
    decreases m, 3
  {
    var text := Dumps(m.value, indent, level);
    var ws := if indent == 0 then "" else " ";
    var after := ":" + (ws + (text + rest));
    MemberLayout(EncodeString(m.key), ws, text, rest, if indent == 0 then ":" else ": ");
    EncodedStringText(m.key, after);
    var t := EscapeChars(m.key) + ("\"" + after);
    assert ("\"" + t)[1..] == t;
    assert SkipSpace("\"" + t) == "\"" + t;
    StringReadBack(m.key, after);
    assert SkipSpace(after) == after && after[1..] == ws + (text + rest);
    ParseValueSkipsSpace(ws, text + rest);
    ValueReadBack(m.value, indent, level, rest);
  }

  lemma MemberLayout(key: string, ws: string, text: string, rest: string, colon: string)
    requires colon == ":" + ws
    ensures (key + colon + text) + rest == key + (":" + (ws + (text + rest)))
  {
  }

  /** An object that is not empty, after its opening brace. */
  lemma OpenedObject(t: string)
    requires SkipSpace(t) != [] && SkipSpace(t)[0] != '}'
    ensures ParseValue("{" + t) ==
            match ParseMembers(t)
            case Some((members, rest)) => Some((Object(members), rest))
            case None => None
  {
    assert ("{" + t)[1..] == t;
    assert SkipSpace("{" + t) == "{" + t;
  }

  lemma {:induction false} BracedMembersReadBack(members: seq<Member>, indent: nat, level: nat,
                                                 lead: string, last: string, rest: string)
    requires members != [] && AllSpace(lead) && AllSpace(last)
    ensures ParseValue("{" + (lead + (DumpMembers(members, indent, level) + (last + ("}" + rest)))))
         == OkIf(AllFiniteMembers(members), (Object(members), rest))
    decreases members, 1
  {
    var body := DumpMembers(members, indent, level) + (last + ("}" + rest));
    MembersReadBack(members, indent, level, last, rest);
    SkipSpaceConcat(lead, body);
    assert body[0] == '"';
    assert SkipSpace(body) == body;
    assert ParseMember(lead + body) == ParseMember(body);
    assert ParseMembers(lead + body) == ParseMembers(body);
    OpenedObject(lead + body);
  }

  lemma LastMember(text: string, m: Member, last: string, rest: string)
    requires ParseMember(text) == Some((m, last + ("}" + rest))) && AllSpace(last)
    ensures ParseMembers(text) == Some(([m], rest))
  {
    var s := "}" + rest;
    SkipSpaceConcat(last, s);
    assert SkipSpace(s) == s && s[1..] == rest;
  }

  lemma MoreMembers(text: string, m: Member, more: string)
    requires ParseMember(text) == Some((m, "," + more))
    ensures ParseMembers(text) ==
            match ParseMembers(more)
            case Some((ms, rest)) => Some(([m] + ms, rest))
            case None => None
  {
    var s := "," + more;
    assert SkipSpace(s) == s && s[1..] == more;
  }

  lemma {:induction false} MembersReadBack(members: seq<Member>, indent: nat, level: nat, last: string, rest: string)
    requires members != [] && AllSpace(last)
    ensures ParseMembers(DumpMembers(members, indent, level) + (last + ("}" + rest)))
         == OkIf(AllFiniteMembers(members), (members, rest))
    decreases members, 0
  {
    var m := members[0];
    if |members| == 1 {
      var s := last + ("}" + rest);
      assert Delimited(s);
      MemberReadBack(m, indent, level, s);
      if AllFinite(m.value) { LastMember(MemberText(m, indent, level) + s, m, last, rest); }
      assert members == [m] && members[1..] == [];
    } else {
      var gap := Break(indent, level);
      BreakIsSpace(indent, level);
      var body := DumpMembers(members[1..], indent, level) + (last + ("}" + rest));
      MembersReadBack(members[1..], indent, level, last, rest);
      SkipSpaceConcat(gap, body);
      assert ParseMembers(gap + body) == ParseMembers(body);
      var s := "," + (gap + body);
      var text := MemberText(m, indent, level);
      SeparatedText(text, gap, DumpMembers(members[1..], indent, level), last + ("}" + rest));
      MemberReadBack(m, indent, level, s);
      if AllFinite(m.value) { MoreMembers(text + s, m, gap + body); }
      assert members == [m] + members[1..];
    }
  }

  /** json.dumps output parses back to the value it came from, if and only if every
      number in it is finite; otherwise it is not JSON at all. */
  lemma DumpsRoundTrip(v: Value, indent: nat)
    ensures Parse(Dumps(v, indent, 0)) == OkIf(AllFinite(v), v)
  {
    ValueReadBack(v, indent, 0, []);
    assert Dumps(v, indent, 0) + [] == Dumps(v, indent, 0);
  }

  lemma {:induction false} CompactGluedItems(items: seq<Value>)
    requires items != []
    ensures GluedItems(items, 0) == "\n" + DumpItems(items, 0, 0, "\n")
  {
    if |items| > 1 {
      CompactGluedItems(items[1..]);
      GlueAlgebra("\n", Dumps(items[0], 0, 0), DumpItems(items[1..], 0, 0, "\n"));
    }
  }

  lemma LineFeedIsSpace()
    ensures SkipSpace("\n") == []
  {
    assert "\n"[1..] == [];
  }

  lemma IndentedStreamReadBack(items: seq<Value>, indent: nat)
    requires indent > 0 || items == []
    ensures ParseValue(StreamText(items, indent) + "\n") == OkIf(AllFiniteItems(items), (Array(items), "\n"))
  {
    if indent > 0 { StreamingRefinesBulk(items, indent); }
    assert StreamText(items, indent) == Dumps(Array(items), indent, 0);
    ValueReadBack(Array(items), indent, 0, "\n");
  }

  lemma CompactStreamReadBack(items: seq<Value>)
    requires items != []
    ensures ParseValue(StreamText(items, 0) + "\n") == OkIf(AllFiniteItems(items), (Array(items), "\n"))
  {
    CompactGluedItems(items);
    BracketedItemsReadBack(items, 0, 0, "\n", "\n", "\n", "\n");
    CompactLayout(DumpItems(items, 0, 0, "\n"));
  }

  /** Whatever the indent, compact included, parsing the streamed text (and the line
      feed the caller prints after it) gives the collection back, if and only if all its
      numbers are finite. */
  lemma StreamRoundTrip(items: seq<Value>, indent: nat)
    ensures Parse(StreamText(items, indent) + "\n") == OkIf(AllFiniteItems(items), Array(items))
  {
    LineFeedIsSpace();
    if indent > 0 || items == [] {
      IndentedStreamReadBack(items, indent);
    } else {
      CompactStreamReadBack(items);
    }
  }

  lemma CompactLayout(d: string)
    ensures ("[" + ("\n" + d) + "\n]") + "\n" == "[" + ("\n" + (d + ("\n" + ("]" + "\n"))))
  {
  }
}
