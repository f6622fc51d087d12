/**
 The streaming JSON array printer of _app/printing.py: a collection is written item by
 item, each item encoded at nesting level 0 and re-indented line by line.
 */
module Printing {
  import opened Common
  import opened JsonText

  // ------------------------------------------------------------- re-indenting

  /** Python's str.split("\n"). */
  function SplitLines(s: string): (lines: seq<string>)
    ensures |lines| > 0
  {
    if s == [] then [[]]
    else
      var rest := SplitLines(s[1..]);
      if s[0] == '\n' then [[]] + rest else [[s[0]] + rest[0]] + rest[1..]
  }

  /** The text with `pad` inserted after every line feed. */
  function Indented(s: string, pad: string): string {
    if s == [] then []
    else if s[0] == '\n' then "\n" + (pad + Indented(s[1..], pad))
    else [s[0]] + Indented(s[1..], pad)
  }

  /** Every line preceded by a line feed and `pad`. */
  function ContinuationLines(lines: seq<string>, pad: string): string {
    if lines == [] then [] else "\n" + (pad + (lines[0] + ContinuationLines(lines[1..], pad)))
  }

  /** Padded lines, separated by line feeds. */
  function LinesText(lines: seq<string>, pad: string): string {
    if lines == [] then [] else pad + (lines[0] + ContinuationLines(lines[1..], pad))
  }

  lemma {:induction false} ContinuationLinesAppend(lines: seq<string>, line: string, pad: string)
    ensures ContinuationLines(lines + [line], pad) == ContinuationLines(lines, pad) + ("\n" + pad + line)
  {
    if lines == [] {
      assert lines + [line] == [line];
      assert [line][1..] == [];
    } else {
      ContinuationLinesAppend(lines[1..], line, pad);
      assert (lines + [line])[1..] == lines[1..] + [line];
      AppendAfter("\n", pad, lines[0], ContinuationLines(lines[1..], pad), "\n" + pad + line);
    }
  }

  lemma AppendAfter(a: string, b: string, c: string, d: string, e: string)
    ensures a + (b + (c + (d + e))) == (a + (b + (c + d))) + e
  {
  }

  lemma LinesTextAppend(lines: seq<string>, line: string, pad: string)
    ensures LinesText(lines + [line], pad)
         == if lines == [] then pad + line else LinesText(lines, pad) + ("\n" + pad + line)
  {
    if lines == [] {
      assert lines + [line] == [line];
      assert [line][1..] == [];
    } else {
      assert (lines + [line])[1..] == lines[1..] + [line];
      ContinuationLinesAppend(lines[1..], line, pad);
      AppendAfter([], pad, lines[0], ContinuationLines(lines[1..], pad), "\n" + pad + line);
    }
  }

  /** Printing the lines of a text one by one with padding is inserting the padding
      before it and after each of its line feeds. */
  lemma {:induction false} LinesAreIndented(s: string, pad: string)
    ensures SplitLines(s)[0] + ContinuationLines(SplitLines(s)[1..], pad) == Indented(s, pad)
  {
    if s != [] {
      LinesAreIndented(s[1..], pad);
      var rest := SplitLines(s[1..]);
      if s[0] == '\n' {
        assert SplitLines(s)[1..] == rest;
      } else {
        assert SplitLines(s)[1..] == rest[1..];
        Regroup([s[0]], rest[0], ContinuationLines(rest[1..], pad));
      }
    }
  }

  lemma {:induction false} IndentedConcat(a: string, b: string, pad: string)
    ensures Indented(a + b, pad) == Indented(a, pad) + Indented(b, pad)
  {
    if a == [] {
      assert a + b == b;
    } else {
      IndentedConcat(a[1..], b, pad);
      assert (a + b)[1..] == a[1..] + b;
      var x, y := Indented(a[1..], pad), Indented(b, pad);
      if a[0] == '\n' {
        Regroup(pad, x, y);
        Regroup("\n", pad + x, y);
      } else {
        Regroup([a[0]], x, y);
      }
    }
  }

  lemma {:induction false} NoLineFeedUnchanged(s: string, pad: string)
    requires '\n' !in s
    ensures Indented(s, pad) == s
  {
    if s != [] {
      NoLineFeedUnchanged(s[1..], pad);
      assert s == [s[0]] + s[1..];
    }
  }

  // ----------------------------------- encoded text has no raw line feeds inside

  lemma HexHasNoLineFeed(n: nat)
    requires n < 0x10000
    ensures '\n' !in "\\u" + Hex4(n)
  {
    var (a, b) := (HexDigit(n / 4096), HexDigit(n / 256 % 16));
    var (c, d) := (HexDigit(n / 16 % 16), HexDigit(n % 16));
    assert "\\u" + Hex4(n) == ['\\', 'u', a, b, c, d];
  }

  lemma EscapeHasNoLineFeed(c: char)
    ensures '\n' !in EscapeChar(c)
  {
    if c as int >= 0x10000 {
      var n := c as int - 0x10000;
      HexHasNoLineFeed(0xd800 + n / 1024);
      HexHasNoLineFeed(0xdc00 + n % 1024);
      assert EscapeChar(c) == ("\\u" + Hex4(0xd800 + n / 1024)) + ("\\u" + Hex4(0xdc00 + n % 1024));
    } else {
      HexHasNoLineFeed(c as int);
    }
  }

  lemma {:induction false} EscapedHasNoLineFeed(s: string)
    ensures '\n' !in EscapeChars(s)
  {
    if s != [] {
      EscapedHasNoLineFeed(s[1..]);
      EscapeHasNoLineFeed(s[0]);
    }
  }

  lemma NumberHasNoLineFeed(n: NumberLexeme)
    ensures '\n' !in n
  {
    AcceptedAreNumberChars(Start, n);
  }

  lemma {:induction false} RepeatedHasNoLineFeed(s: string, n: nat)
    requires '\n' !in s
    ensures '\n' !in Repeat(s, n)
  {
    if n > 0 { RepeatedHasNoLineFeed(s, n - 1); }
  }

  lemma {:induction false} SpacesHaveNoLineFeed(n: nat)
    ensures '\n' !in Spaces(n)
  {
    if n > 0 { SpacesHaveNoLineFeed(n - 1); }
  }

  lemma LineStartShifts(pad: string, spaces: string)
    requires '\n' !in spaces
    ensures Indented("\n" + spaces, pad) == "\n" + (pad + spaces)
  {
    NoLineFeedUnchanged(spaces, pad);
    assert ("\n" + spaces)[1..] == spaces;
  }

  lemma BreakShifts(indent: nat, level: nat)
    requires indent > 0
    ensures Indented(Break(indent, level), Spaces(indent)) == Break(indent, level + 1)
  {
    SpacesHaveNoLineFeed(indent);
    RepeatedHasNoLineFeed(Spaces(indent), level);
    LineStartShifts(Spaces(indent), Repeat(Spaces(indent), level));
  }

  // ------------------------------------ indenting a value moves it one level down

  lemma {:induction false} StringShifts(s: string, pad: string)
    ensures Indented(EncodeString(s), pad) == EncodeString(s)
  {
    EscapedHasNoLineFeed(s);
    NoLineFeedUnchanged(EncodeString(s), pad);
  }

  lemma IndentedConcat3(a: string, b: string, c: string, pad: string)
    ensures Indented(a + b + c, pad) == Indented(a, pad) + Indented(b, pad) + Indented(c, pad)
  {
    IndentedConcat(a + b, c, pad);
    IndentedConcat(a, b, pad);
  }

  lemma IndentedConcat4(a: string, b: string, c: string, d: string, pad: string)
    ensures Indented(a + b + c + d, pad) == Indented(a, pad) + Indented(b, pad) + Indented(c, pad) + Indented(d, pad)
  {
    IndentedConcat(a + b + c, d, pad);
    IndentedConcat3(a, b, c, pad);
  }

  lemma IndentedConcat5(a: string, b: string, c: string, d: string, e: string, pad: string)
    ensures Indented(a + b + c + d + e, pad)
         == Indented(a, pad) + Indented(b, pad) + Indented(c, pad) + Indented(d, pad) + Indented(e, pad)
  {
    IndentedConcat(a + b + c + d, e, pad);
    IndentedConcat4(a, b, c, d, pad);
  }

  lemma {:induction false} ValueShifts(v: Value, indent: nat, level: nat)
    requires indent > 0
    ensures Indented(Dumps(v, indent, level), Spaces(indent)) == Dumps(v, indent, level + 1)
    decreases v, 2
  {
    match v
    case Array(items) => ArrayShifts(items, indent, level);
    case Object(members) => ObjectShifts(members, indent, level);
    case _ => ScalarShifts(v, indent, level);
  }

  lemma ScalarShifts(v: Value, indent: nat, level: nat)
    requires indent > 0 && !v.Array? && !v.Object?
    ensures Indented(Dumps(v, indent, level), Spaces(indent)) == Dumps(v, indent, level + 1)
  {
    var pad := Spaces(indent);
    match v
    case Null => NoLineFeedUnchanged("null", pad);
    case Bool(b) => NoLineFeedUnchanged(if b then "true" else "false", pad);
    case Number(lexeme) => NumberHasNoLineFeed(lexeme); NoLineFeedUnchanged(lexeme, pad);
    case NotFinite(w) => NoLineFeedUnchanged(WordText(w), pad);
    case String(s) => StringShifts(s, pad);
  }

  lemma {:induction false} ArrayShifts(items: seq<Value>, indent: nat, level: nat)
    requires indent > 0
    ensures Indented(Dumps(Array(items), indent, level), Spaces(indent)) == Dumps(Array(items), indent, level + 1)
    decreases items, 1
  {
    var pad := Spaces(indent);
    if items == [] {
      NoLineFeedUnchanged("[]", pad);
    } else {
      ItemsShift(items, indent, level + 1);
      BracketsShift("[", DumpItems(items, indent, level + 1, Break(indent, level + 1)), "]", indent, level);
    }
  }

  lemma {:induction false} ObjectShifts(members: seq<Member>, indent: nat, level: nat)
    requires indent > 0
    ensures Indented(Dumps(Object(members), indent, level), Spaces(indent)) == Dumps(Object(members), indent, level + 1)
    decreases members, 1
  {
    var pad := Spaces(indent);
    if members == [] {
      NoLineFeedUnchanged("{}", pad);
    } else {
      MembersShift(members, indent, level + 1);
      BracketsShift("{", DumpMembers(members, indent, level + 1), "}", indent, level);
    }
  }

  /** A bracketed text on lines of its own. */
  lemma BracketsShift(before: string, inner: string, after: string, indent: nat, level: nat)
    requires indent > 0 && '\n' !in before && '\n' !in after
    ensures Indented(before + Break(indent, level + 1) + inner + Break(indent, level) + after, Spaces(indent))
         == before + Break(indent, level + 2) + Indented(inner, Spaces(indent)) + Break(indent, level + 1) + after
  {
    var pad := Spaces(indent);
    NoLineFeedUnchanged(before, pad);
    NoLineFeedUnchanged(after, pad);
    BreakShifts(indent, level);
    BreakShifts(indent, level + 1);
    IndentedConcat5(before, Break(indent, level + 1), inner, Break(indent, level), after, pad);
  }

  lemma {:induction false} ItemsShift(items: seq<Value>, indent: nat, level: nat)
    requires indent > 0
    ensures Indented(DumpItems(items, indent, level, Break(indent, level)), Spaces(indent))
         == DumpItems(items, indent, level + 1, Break(indent, level + 1))
    decreases items, 0
  {
    if items != [] {
      ValueShifts(items[0], indent, level);
      if |items| > 1 {
        ItemsShift(items[1..], indent, level);
        BreakShifts(indent, level);
        NoLineFeedUnchanged(",", Spaces(indent));
        IndentedConcat4(Dumps(items[0], indent, level), ",", Break(indent, level),
          DumpItems(items[1..], indent, level, Break(indent, level)), Spaces(indent));
      }
    }
  }

  lemma {:induction false} MemberShifts(m: Member, indent: nat, level: nat)
    requires indent > 0
    ensures Indented(MemberText(m, indent, level), Spaces(indent)) == MemberText(m, indent, level + 1)
    decreases m, 3
  {
    ValueShifts(m.value, indent, level);
    StringShifts(m.key, Spaces(indent));
    NoLineFeedUnchanged(": ", Spaces(indent));
    IndentedConcat3(EncodeString(m.key), ": ", Dumps(m.value, indent, level), Spaces(indent));
  }

  lemma {:induction false} MembersShift(members: seq<Member>, indent: nat, level: nat)
    requires indent > 0
    ensures Indented(DumpMembers(members, indent, level), Spaces(indent)) == DumpMembers(members, indent, level + 1)
    decreases members, 0
  {
    if members != [] {
      MemberShifts(members[0], indent, level);
      if |members| > 1 {
        MembersShift(members[1..], indent, level);
        BreakShifts(indent, level);
        NoLineFeedUnchanged(",", Spaces(indent));
        IndentedConcat4(MemberText(members[0], indent, level), ",", Break(indent, level),
          DumpMembers(members[1..], indent, level), Spaces(indent));
      }
    }
  }

  // ---------------------------------------------------------------- the printer

  class Stdout {
    var text: string

    constructor ()
      ensures text == []
    {
      text := [];
    }

    /** print(s, end=end) */
    method Print(s: string, end: string)
      modifies this
      ensures text == old(text) + s + end
    {
      text := text + s + end;
    }
  }

  /** What the item printer writes for one item. */
  function ItemText(item: Value, indent: nat): string {
    if indent > 0 then Padded(Dumps(item, indent, 0), Spaces(indent)) else Dumps(item, 0, 0)
  }

  /** The text with `pad` before its first line and after every line feed. */
  function Padded(text: string, pad: string): string { pad + Indented(text, pad) }

  /** Items on their own lines, separated by commas. */
  function GluedItems(items: seq<Value>, indent: nat): string
    requires items != []
  {
    if |items| == 1 then "\n" + ItemText(items[0], indent)
    else "\n" + ItemText(items[0], indent) + ("," + GluedItems(items[1..], indent))
  }

  /** What the streaming printer writes for a collection. */
  function StreamText(items: seq<Value>, indent: nat): string {
    if items == [] then "[]" else "[" + GluedItems(items, indent) + "\n]"
  }

  lemma {:induction false} GluedItemsAppend(items: seq<Value>, item: Value, indent: nat)
    requires items != []
    ensures GluedItems(items + [item], indent) == GluedItems(items, indent) + ",\n" + ItemText(item, indent)
  {
    assert (items + [item])[1..] == items[1..] + [item];
    var line := "\n" + ItemText(items[0], indent);
    if |items| == 1 {
      Regroup(line, ",", "\n" + ItemText(item, indent));
      Regroup(line + ",", "\n", ItemText(item, indent));
    } else {
      GluedItemsAppend(items[1..], item, indent);
      AppendInside(line, GluedItems(items[1..], indent), ItemText(item, indent));
    }
  }

  lemma AppendInside(line: string, glued: string, last: string)
    ensures line + ("," + (glued + ",\n" + last)) == (line + ("," + glued)) + ",\n" + last
  {
  }

  /** What the loop prints for the `i`-th line. */
  function LineText(i: nat, line: string, pad: string): string {
    if i == 0 then pad + line else "\n" + pad + line
  }

  /** The output after the first `i` lines. */
  function Printed(before: string, lines: seq<string>, i: nat, pad: string): string
    requires i <= |lines|
  {
    before + LinesText(lines[..i], pad)
  }

  lemma LinesTextGrows(lines: seq<string>, line: string, pad: string)
    ensures LinesText(lines + [line], pad) == LinesText(lines, pad) + LineText(|lines|, line, pad)
  {
    LinesTextAppend(lines, line, pad);
    if lines == [] { assert [] + (pad + line) == pad + line; }
  }

  lemma OneLineMore(before: string, lines: seq<string>, i: nat, pad: string)
    requires i < |lines|
    ensures Printed(before, lines, i, pad) + LineText(i, lines[i], pad) + "" == Printed(before, lines, i + 1, pad)
  {
    LinesTextGrows(lines[..i], lines[i], pad);
    assert lines[..i + 1] == lines[..i] + [lines[i]];
    OneTextMore(before, LinesText(lines[..i], pad), LineText(i, lines[i], pad));
  }

  lemma OneTextMore(before: string, text: string, line: string)
    ensures before + text + line + "" == before + (text + line)
  {
  }

  lemma NothingPrinted(before: string, lines: seq<string>, pad: string)
    ensures Printed(before, lines, 0, pad) == before
    ensures Printed(before, lines, |lines|, pad) == before + LinesText(lines, pad)
  {
    assert lines[..0] == [] && lines[..|lines|] == lines;
  }

  /** The loop over the lines of an item. */
  method PrintLines(out: Stdout, lines: seq<string>, pad: string)
    modifies out
    ensures out.text == old(out.text) + LinesText(lines, pad)
  {
    var i := 0;
    ghost var before := out.text;
    NothingPrinted(before, lines, pad);
    while i < |lines|
      invariant 0 <= i <= |lines|
      invariant out.text == Printed(before, lines, i, pad)
    {
      OneLineMore(before, lines, i, pad);
      if i == 0 {
        out.Print(pad + lines[i], "");
      } else {
        out.Print("\n" + pad + lines[i], "");
      }
      i := i + 1;
    }
  }

  method PrintJsonItemWithArrayIndentation(out: Stdout, item: Value, indent: nat)
    modifies out
    ensures out.text == old(out.text) + ItemText(item, indent)
  {
    if indent > 0 {
      PrintLines(out, SplitLines(Dumps(item, indent, 0)), Spaces(indent));
      LinesAreIndented(Dumps(item, indent, 0), Spaces(indent));
    } else {
      out.Print(Dumps(item, 0, 0), "");
      assert ItemText(item, 0) + "" == ItemText(item, 0);
    }
  }

  /** The output after the first `i` items. */
  function Streamed(before: string, items: seq<Value>, i: nat, indent: nat): string
    requires 0 < i <= |items|
  {
    before + ("[" + GluedItems(items[..i], indent))
  }

  lemma FirstItem(before: string, items: seq<Value>, indent: nat)
    requires items != []
    ensures (before + "[" + "\n") + ItemText(items[0], indent) == Streamed(before, items, 1, indent)
  {
    assert items[..1] == [items[0]];
    FirstLine(before, ItemText(items[0], indent));
  }

  lemma OneItemMore(before: string, items: seq<Value>, i: nat, indent: nat)
    requires 0 < i < |items|
    ensures Streamed(before, items, i, indent) + "," + "\n" + ItemText(items[i], indent)
         == Streamed(before, items, i + 1, indent)
  {
    GluedItemsAppend(items[..i], items[i], indent);
    assert items[..i + 1] == items[..i] + [items[i]];
    NextLine(before, GluedItems(items[..i], indent), ItemText(items[i], indent));
  }

  lemma LastItem(before: string, items: seq<Value>, indent: nat)
    requires items != []
    ensures Streamed(before, items, |items|, indent) + "\n]" + "" == before + StreamText(items, indent)
  {
    assert items[..|items|] == items;
    CloseBracket(before, GluedItems(items, indent));
  }

  lemma CloseBracket(before: string, glued: string)
    ensures (before + ("[" + glued)) + "\n]" + "" == before + ("[" + glued + "\n]")
  {
  }

  method StreamCollectionAsJson(out: Stdout, items: seq<Value>, indent: nat)
    modifies out
    ensures out.text == old(out.text) + StreamText(items, indent)
  {
    if items == [] {
      out.Print("[]", "");
      return;
    }
    ghost var before := out.text;
    out.Print("[", "\n");
    PrintJsonItemWithArrayIndentation(out, items[0], indent);
    FirstItem(before, items, indent);
    var i := 1;
    while i < |items|
      invariant 1 <= i <= |items|
      invariant out.text == Streamed(before, items, i, indent)
    {
      out.Print(",", "\n");
      PrintJsonItemWithArrayIndentation(out, items[i], indent);
      OneItemMore(before, items, i, indent);
      i := i + 1;
    }
    out.Print("\n]", "");
    LastItem(before, items, indent);
  }

  lemma FirstLine(before: string, item: string)
    ensures (before + "[" + "\n") + item == before + ("[" + ("\n" + item))
  {
  }

  lemma NextLine(before: string, glued: string, item: string)
    ensures (before + ("[" + glued)) + "," + "\n" + item == before + ("[" + (glued + ",\n" + item))
  {
  }

  lemma RepeatedOnce(s: string)
    ensures Repeat(s, 1) == s
  {
    assert Repeat(s, 0) == [];
    assert s + [] == s;
  }

  lemma FirstBreak(indent: nat)
    requires indent > 0
    ensures Break(indent, 1) == "\n" + Spaces(indent)
  {
    RepeatedOnce(Spaces(indent));
  }

  lemma LineLayout(pad: string, text: string)
    ensures "\n" + (pad + text) == ("\n" + pad) + text
  {
  }

  lemma PaddedIs(text: string, pad: string, shifted: string)
    requires Indented(text, pad) == shifted
    ensures Padded(text, pad) == pad + shifted
  {
  }

  lemma ItemTextIsDumped(item: Value, indent: nat)
    requires indent > 0
    ensures ItemText(item, indent) == Spaces(indent) + Dumps(item, indent, 1)
  {
    ValueShifts(item, indent, 0);
    PaddedIs(Dumps(item, indent, 0), Spaces(indent), Dumps(item, indent, 1));
  }

  lemma ItemLineIsDumped(item: Value, indent: nat)
    requires indent > 0
    ensures "\n" + ItemText(item, indent) == Break(indent, 1) + Dumps(item, indent, 1)
  {
    var (pad, text) := (Spaces(indent), Dumps(item, indent, 1));
    ItemTextIsDumped(item, indent);
    FirstBreak(indent);
    LineLayout(pad, text);
    assert "\n" + ItemText(item, indent) == "\n" + (pad + text);
    assert Break(indent, 1) + text == ("\n" + pad) + text;
  }

  lemma {:induction false} GluedItemsAreDumped(items: seq<Value>, indent: nat)
    requires indent > 0 && items != []
    ensures GluedItems(items, indent) == Break(indent, 1) + DumpItems(items, indent, 1, Break(indent, 1))
  {
    ItemLineIsDumped(items[0], indent);
    if |items| > 1 {
      GluedItemsAreDumped(items[1..], indent);
      var br, others := Break(indent, 1), DumpItems(items[1..], indent, 1, Break(indent, 1));
      GlueAlgebra(br, Dumps(items[0], indent, 1), others);
    }
  }

  lemma GlueAlgebra(br: string, first: string, others: string)
    ensures (br + first) + ("," + (br + others)) == br + (first + "," + br + others)
  {
  }

  /** For every collection, the streamed text is the pretty-print of the whole list. */
  lemma StreamingRefinesBulk(items: seq<Value>, indent: nat)
    requires indent > 0
    ensures StreamText(items, indent) == Dumps(Array(items), indent, 0)
  {
    if items != [] {
      GluedItemsAreDumped(items, indent);
      assert Break(indent, 0) == "\n" + [] == "\n";
      var b, d := Break(indent, 1), DumpItems(items, indent, 1, Break(indent, 1));
      BracketAlgebra(b, d);
    }
  }

  lemma BracketAlgebra(br: string, items: string)
    ensures "[" + (br + items) + "\n]" == "[" + br + items + "\n" + "]"
  {
  }

  // ------------------------------------------------------- the compact form

  /** The text without its line feeds. */
  function Unbroken(s: string): string {
    if s == [] then [] else (if s[0] == '\n' then [] else [s[0]]) + Unbroken(s[1..])
  }

  lemma {:induction false} UnbrokenConcat(a: string, b: string)
    ensures Unbroken(a + b) == Unbroken(a) + Unbroken(b)
  {
    if a == [] {
      assert a + b == b;
    } else {
      assert (a + b)[1..] == a[1..] + b;
      UnbrokenConcat(a[1..], b);
      Regroup(if a[0] == '\n' then [] else [a[0]], Unbroken(a[1..]), Unbroken(b));
    }
  }

  lemma {:induction false} UnbrokenSame(s: string)
    requires '\n' !in s
    ensures Unbroken(s) == s
  {
    if s != [] {
      UnbrokenSame(s[1..]);
      assert s == [s[0]] + s[1..];
    }
  }

  /** Compact text is the same at every level, on one line. */
  lemma {:induction false} CompactOneLine(v: Value, level: nat)
    ensures Dumps(v, 0, level) == Dumps(v, 0, 0) && '\n' !in Dumps(v, 0, 0)
    decreases v, 2
  {
    match v
    case Number(lexeme) => NumberHasNoLineFeed(lexeme);
    case String(s) => EscapedHasNoLineFeed(s);
    case Array(items) =>
      CompactItems(items, level + 1);
      CompactItems(items, 1);
    case Object(members) =>
      CompactMembers(members, level + 1);
      CompactMembers(members, 1);
    case _ =>
  }

  lemma {:induction false} CompactItems(items: seq<Value>, level: nat)
    ensures DumpItems(items, 0, level, []) == DumpItems(items, 0, 0, []) && '\n' !in DumpItems(items, 0, 0, [])
    decreases items, 0
  {
    if items != [] {
      CompactOneLine(items[0], level);
      CompactItems(items[1..], level);
    }
  }

  lemma {:induction false} CompactMembers(members: seq<Member>, level: nat)
    ensures DumpMembers(members, 0, level) == DumpMembers(members, 0, 0) && '\n' !in DumpMembers(members, 0, 0)
    decreases members, 0
  {
    if members != [] {
      CompactOneLine(members[0].value, level);
      EscapedHasNoLineFeed(members[0].key);
      CompactMembers(members[1..], level);
    }
  }

  lemma {:induction false} CompactGlue(items: seq<Value>)
    requires items != []
    ensures Unbroken(GluedItems(items, 0)) == DumpItems(items, 0, 0, [])
  {
    var first := Dumps(items[0], 0, 0);
    CompactOneLine(items[0], 0);
    UnbrokenLine(first);
    if |items| > 1 {
      CompactGlue(items[1..]);
      UnbrokenNext(first, GluedItems(items[1..], 0), DumpItems(items[1..], 0, 0, []));
    }
  }

  lemma UnbrokenLine(line: string)
    requires '\n' !in line
    ensures Unbroken("\n" + line) == line
  {
    UnbrokenSame(line);
    assert ("\n" + line)[1..] == line;
  }

  lemma UnbrokenNext(line: string, glued: string, items: string)
    requires '\n' !in line && Unbroken(glued) == items
    ensures Unbroken("\n" + line + ("," + glued)) == line + "," + [] + items
  {
    UnbrokenConcat("\n" + line, "," + glued);
    UnbrokenLine(line);
    UnbrokenConcat(",", glued);
    UnbrokenSame(",");
  }

  lemma UnbrokenBrackets(glued: string, items: string)
    requires Unbroken(glued) == items
    ensures Unbroken("[" + glued + "\n]") == "[" + [] + items + [] + "]"
  {
    UnbrokenConcat("[" + glued, "\n]");
    UnbrokenConcat("[", glued);
    UnbrokenSame("[");
    UnbrokenLine("]");
    assert "\n" + "]" == "\n]";
  }

  /** With indent 0 the streamed text is the compact text of the whole list but for its line
      feeds, and each item stands on one line. */
  lemma CompactRefinesBulk(items: seq<Value>)
    ensures Unbroken(StreamText(items, 0)) == Dumps(Array(items), 0, 0)
    ensures forall i :: 0 <= i < |items| ==> '\n' !in ItemText(items[i], 0)
  {
    forall i | 0 <= i < |items|
      ensures '\n' !in ItemText(items[i], 0)
    {
      CompactOneLine(items[i], 0);
    }
    if items == [] {
      UnbrokenSame("[]");
    } else {
      CompactGlue(items);
      CompactItems(items, 1);
      UnbrokenBrackets(GluedItems(items, 0), DumpItems(items, 0, 0, []));
    }
  }

  /** A collection printed as JSON: indent 4, then the closing line feed of
      print_structured. */
  method PrintJsonCollection(out: Stdout, items: seq<Value>)
    modifies out
    ensures out.text == old(out.text) + (Dumps(Array(items), 4, 0) + "\n")
  {
    StreamCollectionAsJson(out, items, 4);
    StreamingRefinesBulk(items, 4);
    out.Print("", "\n");
    ClosingLineFeed(old(out.text), Dumps(Array(items), 4, 0));
  }

  lemma ClosingLineFeed(before: string, text: string)
    ensures (before + text) + "" + "\n" == before + (text + "\n")
  {
  }
}
