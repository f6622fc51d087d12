/**
 JSON values, the text Python's encoder produces for them, and a parser for
 RFC 8259 that the round-trip results are stated against.
 */
module JsonText {
  import opened Common

  /** A float can be NaN or infinite; the encoder then writes a word that is not JSON. */
  datatype Value =
    | Null
    | Bool(b: bool)
    | Number(lexeme: NumberLexeme)
    | NotFinite(word: NonJsonWord)
    | String(s: string)
    | Array(items: seq<Value>)
    | Object(members: seq<Member>)

  datatype Member = Member(key: string, value: Value)

  datatype NonJsonWord = NaN | Infinity | MinusInfinity

  // ---------------------------------------------------------------- numbers

  predicate IsDigit(c: char) { '0' <= c <= '9' }

  predicate IsNumberChar(c: char) {
    IsDigit(c) || c == '-' || c == '+' || c == '.' || c == 'e' || c == 'E'
  }

  /** States of the recogniser of section 6 of RFC 8259. */
  datatype NumberState = Start | Minus | Zero | Integer | Point | Fraction | Exp | ExpSign | ExpDigits | Bad

  function NumberStep(st: NumberState, c: char): NumberState {
    match st
    case Start => if c == '-' then Minus else if c == '0' then Zero else if IsDigit(c) then Integer else Bad
    case Minus => if c == '0' then Zero else if IsDigit(c) then Integer else Bad
    case Zero => if c == '.' then Point else if c == 'e' || c == 'E' then Exp else Bad
    case Integer =>
      if IsDigit(c) then Integer else if c == '.' then Point else if c == 'e' || c == 'E' then Exp else Bad
    case Point => if IsDigit(c) then Fraction else Bad
    case Fraction => if IsDigit(c) then Fraction else if c == 'e' || c == 'E' then Exp else Bad
    case Exp => if c == '+' || c == '-' then ExpSign else if IsDigit(c) then ExpDigits else Bad
    case ExpSign => if IsDigit(c) then ExpDigits else Bad
    case ExpDigits => if IsDigit(c) then ExpDigits else Bad
    case Bad => Bad
  }

  predicate AcceptsFrom(st: NumberState, s: string)
    decreases |s|
  {
    if s == [] then st in {Zero, Integer, Fraction, ExpDigits}
    else st != Bad && AcceptsFrom(NumberStep(st, s[0]), s[1..])
  }

  predicate IsNumber(s: string) { AcceptsFrom(Start, s) }

  type NumberLexeme = s: string | IsNumber(s) witness "0"

  lemma {:induction false} AcceptedAreNumberChars(st: NumberState, s: string)
    requires AcceptsFrom(st, s)
    ensures forall i :: 0 <= i < |s| ==> IsNumberChar(s[i])
    ensures s != [] ==> NumberStep(st, s[0]) != Bad
    decreases |s|
  {
    if s != [] {
      AcceptedAreNumberChars(NumberStep(st, s[0]), s[1..]);
      assert NumberStep(st, s[0]) != Bad by {
        if s[1..] == [] { } else { assert AcceptsFrom(NumberStep(st, s[0]), s[1..]); }
      }
      forall i | 0 <= i < |s|
        ensures IsNumberChar(s[i])
      {
        if i > 0 { assert s[i] == s[1..][i - 1]; }
      }
    }
  }

  // ---------------------------------------------------------------- strings

  function HexDigit(n: nat): char
    requires n < 16
  {
    if n < 10 then '0' + n as char else 'a' + (n - 10) as char
  }

  function HexValue(c: char): Option<nat> {
    if '0' <= c <= '9' then Some(c as int - '0' as int)
    else if 'a' <= c <= 'f' then Some(c as int - 'a' as int + 10)
    else if 'A' <= c <= 'F' then Some(c as int - 'A' as int + 10)
    else None
  }

  function Hex4(n: nat): string
    requires n < 0x10000
  {
    [HexDigit(n / 4096), HexDigit(n / 256 % 16), HexDigit(n / 16 % 16), HexDigit(n % 16)]
  }

  /** How the encoder writes one character inside a string literal (ASCII output). */
  function EscapeChar(c: char): string {
    if c == '"' then "\\\""
    else if c == '\\' then "\\\\"
    else if c == '\n' then "\\n"
    else if c == '\r' then "\\r"
    else if c == '\t' then "\\t"
    else if c as int == 8 then "\\b"
    else if c as int == 12 then "\\f"
    else if 0x20 <= c as int <= 0x7e then [c]
    else if c as int < 0x10000 then "\\u" + Hex4(c as int)
    else
      var n := c as int - 0x10000;
      "\\u" + Hex4(0xd800 + n / 1024) + "\\u" + Hex4(0xdc00 + n % 1024)
  }

  function EscapeChars(s: string): string {
    if s == [] then [] else EscapeChar(s[0]) + EscapeChars(s[1..])
  }

  function EncodeString(s: string): string { "\"" + EscapeChars(s) + "\"" }

  // ------------------------------------------------- the encoder, json.dumps

  function Spaces(n: nat): string {
    if n == 0 then [] else [' '] + Spaces(n - 1)
  }

  function Repeat(s: string, n: nat): string {
    if n == 0 then [] else s + Repeat(s, n - 1)
  }

  /** The line break before an element at a nesting level; no indent means no breaks. */
  function Break(indent: nat, level: nat): string {
    if indent == 0 then [] else "\n" + Repeat(Spaces(indent), level)
  }

  function WordText(w: NonJsonWord): string {
    match w
    case NaN => "NaN"
    case Infinity => "Infinity"
    case MinusInfinity => "-Infinity"
  }

  /** What json.dumps writes for a value met at a nesting level. Indent 0 stands for
      the compact form with separators "," and ":". */
  function Dumps(v: Value, indent: nat, level: nat): string
    decreases v, 1
  {
    match v
    case Null => "null"
    case Bool(b) => if b then "true" else "false"
    case Number(lexeme) => lexeme
    case NotFinite(w) => WordText(w)
    case String(s) => EncodeString(s)
    case Array(items) =>
      if items == [] then "[]"
      else "[" + Break(indent, level + 1)
           + DumpItems(items, indent, level + 1, Break(indent, level + 1)) + Break(indent, level) + "]"
    case Object(members) =>
      if members == [] then "{}"
      else "{" + Break(indent, level + 1)
           + DumpMembers(members, indent, level + 1) + Break(indent, level) + "}"
  }

  /** Elements separated by a comma followed by `gap`. */
  function DumpItems(items: seq<Value>, indent: nat, level: nat, gap: string): string
    decreases items, 0
  {
    if items == [] then []
    else if |items| == 1 then Dumps(items[0], indent, level)
    else Dumps(items[0], indent, level) + "," + gap + DumpItems(items[1..], indent, level, gap)
  }

  function MemberText(m: Member, indent: nat, level: nat): string
    decreases m, 2
  {
    EncodeString(m.key) + (if indent == 0 then ":" else ": ") + Dumps(m.value, indent, level)
  }

  function DumpMembers(members: seq<Member>, indent: nat, level: nat): string
    decreases members, 0
  {
    if members == [] then []
    else if |members| == 1 then MemberText(members[0], indent, level)
    else MemberText(members[0], indent, level) + "," + Break(indent, level) + DumpMembers(members[1..], indent, level)
  }

  // ------------------------------------- a parser after RFC 8259, sections 2-7

  predicate IsSpace(c: char) { c == ' ' || c == '\t' || c == '\n' || c == '\r' }

  function SkipSpace(s: string): (r: string)
    ensures |r| <= |s|
  {
    if s != [] && IsSpace(s[0]) then SkipSpace(s[1..]) else s
  }

  function NumberPrefix(s: string): (n: nat)
    ensures n <= |s|
  {
    if s != [] && IsNumberChar(s[0]) then 1 + NumberPrefix(s[1..]) else 0
  }

  function ReadHex4(s: string): Option<nat> {
    if |s| < 4 then None
    else
      match (HexValue(s[0]), HexValue(s[1]), HexValue(s[2]), HexValue(s[3]))
      case (Some(a), Some(b), Some(c), Some(d)) => Some(a * 4096 + b * 256 + c * 16 + d)
      case _ => None
  }

  function SimpleEscape(c: char): Option<char> {
    if c == '"' || c == '\\' || c == '/' then Some(c)
    else if c == 'n' then Some('\n')
    else if c == 'r' then Some('\r')
    else if c == 't' then Some('\t')
    else if c == 'b' then Some(8 as char)
    else if c == 'f' then Some(12 as char)
    else None
  }

  /** The character a \uXXXX escape (or a surrogate pair of them) stands for, given
      the text after the first "\u". */
  function ReadUnicode(s: string): (r: Option<(char, string)>)
    ensures r.Some? ==> |r.value.1| < |s|
  {
    match ReadHex4(s)
    case None => None
    case Some(hi) =>
      if hi < 0xd800 || 0xe000 <= hi < 0x10000 then Some((hi as char, s[4..]))
      else if 0xd800 <= hi < 0xdc00 && |s| >= 10 && s[4] == '\\' && s[5] == 'u' then
        match ReadHex4(s[6..])
        case Some(lo) =>
          if 0xdc00 <= lo < 0xe000
          then Some(((0x10000 + (hi - 0xd800) * 1024 + (lo - 0xdc00)) as char, s[10..]))
          else None
        case None => None
      else None
  }

  /** One character of a string literal: raw, or an escape sequence. */
  function ReadChar(s: string): (r: Option<(char, string)>)
    ensures r.Some? ==> |r.value.1| < |s|
  {
    if s == [] || s[0] == '"' || s[0] as int < 0x20 then None
    else if s[0] != '\\' then Some((s[0], s[1..]))
    else if |s| == 1 then None
    else if s[1] == 'u' then ReadUnicode(s[2..])
    else
      match SimpleEscape(s[1])
      case Some(c) => Some((c, s[2..]))
      case None => None
  }

  /** The rest of a string literal after its opening quote. */
  function ReadString(s: string): (r: Option<(string, string)>)
    ensures r.Some? ==> |r.value.1| < |s|
    decreases |s|
  {
    if s != [] && s[0] == '"' then Some(([], s[1..]))
    else
      match ReadChar(s)
      case None => None
      case Some((c, rest)) =>
        match ReadString(rest)
        case None => None
        case Some((cs, rest')) => Some(([c] + cs, rest'))
  }

  function ParseNumber(s: string): (r: Option<(Value, string)>)
    ensures r.Some? ==> |r.value.1| < |s|
  {
    var n := NumberPrefix(s);
    if n > 0 && IsNumber(s[..n]) then Some((Number(s[..n]), s[n..])) else None
  }

  function ParseValue(text: string): (r: Option<(Value, string)>)
    ensures r.Some? ==> |r.value.1| < |text|
    decreases |text|, 1
  {
    var s := SkipSpace(text);
    if s == [] then None
    else if "null" <= s then Some((Null, s[4..]))
    else if "true" <= s then Some((Bool(true), s[4..]))
    else if "false" <= s then Some((Bool(false), s[5..]))
    else if s[0] == '"' then
      match ReadString(s[1..])
      case Some((cs, rest)) => Some((String(cs), rest))
      case None => None
    else if s[0] == '[' then
      var s' := SkipSpace(s[1..]);
      if s' != [] && s'[0] == ']' then Some((Array([]), s'[1..]))
      else
        match ParseItems(s[1..])
        case Some((items, rest)) => Some((Array(items), rest))
        case None => None
    else if s[0] == '{' then
      var s' := SkipSpace(s[1..]);
      if s' != [] && s'[0] == '}' then Some((Object([]), s'[1..]))
      else
        match ParseMembers(s[1..])
        case Some((members, rest)) => Some((Object(members), rest))
        case None => None
    else ParseNumber(s)
  }

  /** Elements up to and including the closing bracket. */
  function ParseItems(text: string): (r: Option<(seq<Value>, string)>)
    ensures r.Some? ==> |r.value.1| < |text|
    decreases |text|, 2
  {
    match ParseValue(text)
    case None => None
    case Some((v, rest)) =>
      var s := SkipSpace(rest);
      if s != [] && s[0] == ']' then Some(([v], s[1..]))
      else if s != [] && s[0] == ',' then
        match ParseItems(s[1..])
        case Some((vs, rest')) => Some(([v] + vs, rest'))
        case None => None
      else None
  }

  function ParseMember(text: string): (r: Option<(Member, string)>)
    ensures r.Some? ==> |r.value.1| < |text|
    decreases |text|, 2
  {
    var s := SkipSpace(text);
    if s == [] || s[0] != '"' then None
    else
      match ReadString(s[1..])
      case None => None
      case Some((key, rest)) =>
        var s' := SkipSpace(rest);
        if s' == [] || s'[0] != ':' then None
        else
          match ParseValue(s'[1..])
          case Some((v, rest')) => Some((Member(key, v), rest'))
          case None => None
  }

  function ParseMembers(text: string): (r: Option<(seq<Member>, string)>)
    ensures r.Some? ==> |r.value.1| < |text|
    decreases |text|, 3
  {
    match ParseMember(text)
    case None => None
    case Some((m, rest)) =>
      var s := SkipSpace(rest);
      if s != [] && s[0] == '}' then Some(([m], s[1..]))
      else if s != [] && s[0] == ',' then
        match ParseMembers(s[1..])
        case Some((ms, rest')) => Some(([m] + ms, rest'))
        case None => None
      else None
  }

  /** A JSON text is one value with optional space around it. */
  function Parse(text: string): Option<Value> {
    match ParseValue(text)
    case Some((v, rest)) => if SkipSpace(rest) == [] then Some(v) else None
    case None => None
  }
}
