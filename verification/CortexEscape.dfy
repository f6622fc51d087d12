/**
 Texts put into SQL string literals by cortex/manager.py: the escaping, and a reader of
 literals with backslash escapes and doubled quotes that gives the texts back.
 */
module CortexEscape {
  import opened Common

  const QUOTE := '\''
  const BACKSLASH := '\\'

  /** str.replace for a single character. */
  function Replace(s: string, c: char, with: string): string {
    if s == "" then "" else (if s[0] == c then with else [s[0]]) + Replace(s[1..], c, with)
  }

  /** _escape_input: backslashes first, then quotes. */
  function EscapeInput(s: string): string {
    Replace(Replace(s, BACKSLASH, [BACKSLASH, BACKSLASH]), QUOTE, [BACKSLASH, QUOTE])
  }

  function EscapeChar(c: char): string {
    if c == BACKSLASH || c == QUOTE then [BACKSLASH, c] else [c]
  }

  /** A backslash before each backslash and each quote. */
  function Escaped(s: string): string {
    if s == "" then "" else EscapeChar(s[0]) + Escaped(s[1..])
  }

  lemma {:induction false} ReplaceAppend(a: string, b: string, c: char, with: string)
    ensures Replace(a + b, c, with) == Replace(a, c, with) + Replace(b, c, with)
    decreases |a|
  {
    if a == "" {
      assert a + b == b;
    } else {
      assert (a + b)[1..] == a[1..] + b;
      ReplaceAppend(a[1..], b, c, with);
    }
  }

  lemma ReplaceShort(a: char, b: char, c: char, with: string)
    ensures Replace([a], c, with) == if a == c then with else [a]
    ensures Replace([a, b], c, with) == (if a == c then with else [a]) + (if b == c then with else [b])
  {
    assert [a][1..] == "" && [a, b][1..] == [b] && [b][1..] == "";
    assert with + "" == with && [a] + "" == [a] && [b] + "" == [b];
  }

  /** The two replacements in sequence are one pass over the characters. */
  lemma {:induction false} EscapeIsOnePass(s: string)
    ensures EscapeInput(s) == Escaped(s)
  {
    if s != "" {
      var first: string := if s[0] == BACKSLASH then [BACKSLASH, BACKSLASH] else [s[0]];
      var rest := Replace(s[1..], BACKSLASH, [BACKSLASH, BACKSLASH]);
      ReplaceAppend(first, rest, QUOTE, [BACKSLASH, QUOTE]);
      ReplaceShort(s[0], BACKSLASH, QUOTE, [BACKSLASH, QUOTE]);
      ReplaceShort(BACKSLASH, BACKSLASH, QUOTE, [BACKSLASH, QUOTE]);
      EscapeIsOnePass(s[1..]);
    }
  }

  /** The replacements in the other order. */
  function EscapeQuotesFirst(s: string): string {
    Replace(Replace(s, QUOTE, [BACKSLASH, QUOTE]), BACKSLASH, [BACKSLASH, BACKSLASH])
  }

  lemma {:induction false} QuotesFirstIsLonger(s: string)
    ensures |EscapeQuotesFirst(s)| == |Escaped(s)| + multiset(s)[QUOTE]
  {
    if s != "" {
      var first: string := if s[0] == QUOTE then [BACKSLASH, QUOTE] else [s[0]];
      var rest := Replace(s[1..], QUOTE, [BACKSLASH, QUOTE]);
      ReplaceAppend(first, rest, BACKSLASH, [BACKSLASH, BACKSLASH]);
      ReplaceShort(s[0], QUOTE, BACKSLASH, [BACKSLASH, BACKSLASH]);
      ReplaceShort(BACKSLASH, QUOTE, BACKSLASH, [BACKSLASH, BACKSLASH]);
      QuotesFirstIsLonger(s[1..]);
      assert s == [s[0]] + s[1..];
    }
  }

  lemma {:induction false} NoQuotesNoDifference(s: string)
    requires QUOTE !in s
    ensures EscapeQuotesFirst(s) == EscapeInput(s)
  {
    EscapeIsOnePass(s);
    if s != "" {
      NoQuotesNoDifference(s[1..]);
      EscapeIsOnePass(s[1..]);
      var rest := Replace(s[1..], QUOTE, [BACKSLASH, QUOTE]);
      ReplaceAppend([s[0]], rest, BACKSLASH, [BACKSLASH, BACKSLASH]);
      ReplaceShort(s[0], s[0], BACKSLASH, [BACKSLASH, BACKSLASH]);
    }
  }

  /** The order of the replacements matters exactly for texts with a quote. */
  lemma OrderMatters(s: string)
    ensures EscapeQuotesFirst(s) == EscapeInput(s) <==> QUOTE !in s
  {
    EscapeIsOnePass(s);
    QuotesFirstIsLonger(s);
    if QUOTE in s {
      assert QUOTE in multiset(s);
    } else {
      NoQuotesNoDifference(s);
    }
  }

  // ------------------------------------------------------------ reading literals

  /** What a backslash and `c` stand for. */
  function Unescaped(c: char): char {
    match c
    case 'b' => '\U{8}'
    case 'f' => '\U{c}'
    case 'n' => '\n'
    case 'r' => '\r'
    case 't' => '\t'
    case '0' => '\0'
    case _ => c
  }

  /** A literal's text and the position after its closing quote. */
  datatype Literal = Literal(text: string, next: nat)

  /** Reads on from position `i` inside a literal. None when it is never closed. */
  function ReadLiteral(sql: string, i: nat): (r: Option<Literal>)
    requires i <= |sql|
    ensures r.Some? ==> i < r.value.next <= |sql|
    decreases |sql| - i
  {
    if i == |sql| then None
    else if sql[i] == BACKSLASH then
      if i + 1 == |sql| then None else Prepend(Unescaped(sql[i + 1]), ReadLiteral(sql, i + 2))
    else if sql[i] != QUOTE then Prepend(sql[i], ReadLiteral(sql, i + 1))
    else if i + 1 < |sql| && sql[i + 1] == QUOTE then Prepend(QUOTE, ReadLiteral(sql, i + 2))
    else Some(Literal("", i + 1))
  }

  function Prepend(c: char, r: Option<Literal>): Option<Literal> {
    if r.Some? then Some(Literal([c] + r.value.text, r.value.next)) else None
  }

  /** `piece` stands at position `i` of `sql`. */
  predicate At(sql: string, i: nat, piece: string) {
    i + |piece| <= |sql| && forall k :: 0 <= k < |piece| ==> sql[i + k] == piece[k]
  }

  lemma AtParts(sql: string, i: nat, a: string, b: string)
    requires At(sql, i, a + b)
    ensures At(sql, i, a) && At(sql, i + |a|, b)
  {
    forall k | 0 <= k < |a|
      ensures sql[i + k] == a[k]
    {
      assert (a + b)[k] == a[k];
    }
    forall k | 0 <= k < |b|
      ensures sql[i + |a| + k] == b[k]
    {
      assert (a + b)[|a| + k] == b[k];
    }
  }

  lemma CharAt(sql: string, i: nat, piece: string, k: nat)
    requires At(sql, i, piece) && k < |piece|
    ensures sql[i + k] == piece[k]
  {
  }

  lemma AtThree(sql: string, i: nat, a: string, b: string, c: string)
    requires At(sql, i, (a + b) + c)
    ensures At(sql, i, a) && At(sql, i + |a|, b + c)
  {
    assert (a + b) + c == a + (b + c);
    AtParts(sql, i, a, b + c);
  }

  lemma FirstEscaped(sql: string, i: nat, s: string, end: string)
    requires s != "" && At(sql, i, Escaped(s) + end)
    ensures At(sql, i, EscapeChar(s[0])) && At(sql, i + |EscapeChar(s[0])|, Escaped(s[1..]) + end)
  {
    var (e, rest) := (EscapeChar(s[0]), Escaped(s[1..]));
    assert At(sql, i, (e + rest) + end);
    AtThree(sql, i, EscapeChar(s[0]), Escaped(s[1..]), end);
  }

  lemma ReadOne(sql: string, i: nat, c: char)
    requires At(sql, i, EscapeChar(c))
    ensures ReadLiteral(sql, i) == Prepend(c, ReadLiteral(sql, i + |EscapeChar(c)|))
  {
    CharAt(sql, i, EscapeChar(c), 0);
    CharAt(sql, i, EscapeChar(c), |EscapeChar(c)| - 1);
  }

  lemma ReadEnd(sql: string, i: nat)
    requires i < |sql| && sql[i] == QUOTE && (i + 1 < |sql| ==> sql[i + 1] != QUOTE)
    ensures ReadLiteral(sql, i) == Some(Literal("", i + 1))
  {
  }

  lemma {:induction false} ClosesAtQuote(sql: string, i: nat, s: string)
    requires At(sql, i, Escaped(s) + [QUOTE])
    requires i + |Escaped(s)| + 1 < |sql| ==> sql[i + |Escaped(s)| + 1] != QUOTE
    ensures ReadLiteral(sql, i) == Some(Literal(s, i + |Escaped(s)| + 1))
    decreases |s|
  {
    if s == "" {
      CharAt(sql, i, Escaped(s) + [QUOTE], 0);
      ReadEnd(sql, i);
    } else {
      var e := EscapeChar(s[0]);
      FirstEscaped(sql, i, s, [QUOTE]);
      ReadOne(sql, i, s[0]);
      assert |Escaped(s)| == |e| + |Escaped(s[1..])|;
      var next := i + |e|;
      assert next + |Escaped(s[1..])| == i + |Escaped(s)|;
      ClosesAtQuote(sql, next, s[1..]);
      assert [s[0]] + s[1..] == s;
      assert Prepend(s[0], Some(Literal(s[1..], i + |Escaped(s)| + 1))) == Some(Literal(s, i + |Escaped(s)| + 1));
    }
  }

  /** With a second quote directly after it, the literal does not close there: it runs on
      beyond both, or to the end of the SQL. */
  lemma {:induction false} FollowingQuoteJoins(sql: string, i: nat, s: string)
    requires At(sql, i, Escaped(s) + [QUOTE, QUOTE])
    ensures var r := ReadLiteral(sql, i); r.Some? ==> i + |Escaped(s)| + 2 < r.value.next
    decreases |s|
  {
    if s == "" {
      CharAt(sql, i, Escaped(s) + [QUOTE, QUOTE], 0);
      CharAt(sql, i, Escaped(s) + [QUOTE, QUOTE], 1);
    } else {
      FirstEscaped(sql, i, s, [QUOTE, QUOTE]);
      ReadOne(sql, i, s[0]);
      FollowingQuoteJoins(sql, i + |EscapeChar(s[0])|, s[1..]);
    }
  }

  /** Read as a literal, an escaped text with the caller's quote after it first closes at
      that quote and decodes to the text, wherever it stands, exactly when no other quote
      follows directly. */
  lemma EscapeReadBack(sql: string, i: nat, s: string)
    requires At(sql, i, EscapeInput(s) + [QUOTE])
    ensures var next := i + |EscapeInput(s)| + 1;
            ReadLiteral(sql, i) == Some(Literal(s, next)) <==> (next < |sql| ==> sql[next] != QUOTE)
  {
    EscapeIsOnePass(s);
    var next := i + |Escaped(s)| + 1;
    if next < |sql| && sql[next] == QUOTE {
      forall k | 0 <= k < |Escaped(s)| + 2 ensures sql[i + k] == (Escaped(s) + [QUOTE, QUOTE])[k] {
        if k < |Escaped(s)| + 1 { CharAt(sql, i, Escaped(s) + [QUOTE], k); }
      }
      FollowingQuoteJoins(sql, i, s);
    } else {
      ClosesAtQuote(sql, i, s);
    }
  }

  // ------------------------------------------------------------ whole statements

  /** A text argument and the fixed SQL after it. */
  datatype Slot = Slot(text: string, after: string)

  /** The statements of the cortex commands: fixed SQL with a literal for each text. */
  function Rendered(slots: seq<Slot>): string {
    if slots == [] then ""
    else [QUOTE] + EscapeInput(slots[0].text) + [QUOTE] + slots[0].after + Rendered(slots[1..])
  }

  function Statement(head: string, slots: seq<Slot>): string { head + Rendered(slots) }

  /** The texts of all literals from position `i` on. */
  function Literals(sql: string, i: nat): Option<seq<string>>
    requires i <= |sql|
    decreases |sql| - i
  {
    if i == |sql| then Some([])
    else if sql[i] != QUOTE then Literals(sql, i + 1)
    else
      match ReadLiteral(sql, i + 1)
      case None => None
      case Some(Literal(text, next)) =>
        match Literals(sql, next)
        case None => None
        case Some(rest) => Some([text] + rest)
  }

  function Texts(slots: seq<Slot>): seq<string> {
    if slots == [] then [] else [slots[0].text] + Texts(slots[1..])
  }

  /** No quotes in the fixed SQL, and something between two literals. */
  predicate Fixed(slots: seq<Slot>) {
    forall k :: 0 <= k < |slots| ==> QUOTE !in slots[k].after && (k + 1 < |slots| ==> slots[k].after != "")
  }

  lemma {:induction false} SkipFixed(sql: string, i: nat, fixed: string)
    requires At(sql, i, fixed) && QUOTE !in fixed
    ensures Literals(sql, i) == Literals(sql, i + |fixed|)
    decreases |fixed|
  {
    if fixed != "" {
      CharAt(sql, i, fixed, 0);
      assert fixed == [fixed[0]] + fixed[1..];
      AtParts(sql, i, [fixed[0]], fixed[1..]);
      SkipFixed(sql, i + 1, fixed[1..]);
    }
  }

  lemma SlotParts(sql: string, i: nat, slot: Slot, rest: string)
    requires At(sql, i, [QUOTE] + EscapeInput(slot.text) + [QUOTE] + slot.after + rest)
    ensures var literal := Escaped(slot.text) + [QUOTE];
            && At(sql, i, [QUOTE])
            && At(sql, i + 1, literal)
            && At(sql, i + 1 + |literal|, slot.after)
            && At(sql, i + 1 + |literal| + |slot.after|, rest)
            && |[QUOTE] + EscapeInput(slot.text) + [QUOTE] + slot.after + rest| == 1 + |literal| + |slot.after| + |rest|
  {
    EscapeIsOnePass(slot.text);
    FiveParts([QUOTE], Escaped(slot.text), slot.after, rest);
    var literal := Escaped(slot.text) + [QUOTE];
    AtParts(sql, i, [QUOTE], literal + (slot.after + rest));
    AtParts(sql, i + 1, literal, slot.after + rest);
    AtParts(sql, i + 1 + |literal|, slot.after, rest);
  }

  lemma FiveParts(quote: string, text: string, after: string, rest: string)
    ensures quote + text + quote + after + rest == quote + ((text + quote) + (after + rest))
  {
  }

  /** One literal and the fixed SQL after it. */
  lemma SlotReadBack(sql: string, i: nat, slot: Slot, rest: string)
    requires At(sql, i, [QUOTE] + EscapeInput(slot.text) + [QUOTE] + slot.after + rest)
    requires QUOTE !in slot.after && (slot.after == "" ==> i + |Escaped(slot.text)| + 2 == |sql|)
    ensures var next := i + |Escaped(slot.text)| + 2 + |slot.after|;
            && next <= |sql|
            && At(sql, next, rest)
            && Literals(sql, i) ==
               (if Literals(sql, next).Some? then Some([slot.text] + Literals(sql, next).value) else None)
  {
    SlotParts(sql, i, slot, rest);
    var end := i + |Escaped(slot.text)| + 2;
    CharAt(sql, i, [QUOTE], 0);
    if slot.after != "" { CharAt(sql, end, slot.after, 0); }
    ClosesAtQuote(sql, i + 1, slot.text);
    SkipFixed(sql, end, slot.after);
  }

  lemma {:induction false} SlotsReadBack(sql: string, i: nat, slots: seq<Slot>)
    requires Fixed(slots) && At(sql, i, Rendered(slots)) && i + |Rendered(slots)| == |sql|
    ensures Literals(sql, i) == Some(Texts(slots))
    decreases |slots|
  {
    if slots != [] {
      var rest := Rendered(slots[1..]);
      SlotParts(sql, i, slots[0], rest);
      if slots[0].after == "" { assert slots[1..] == []; }
      SlotReadBack(sql, i, slots[0], rest);
      SlotsReadBack(sql, i + |Escaped(slots[0].text)| + 2 + |slots[0].after|, slots[1..]);
    }
  }

  /** Whatever the texts are, the statement that carries them has exactly these literals:
      no text changes where another begins or ends. */
  lemma StatementReadBack(head: string, slots: seq<Slot>)
    requires QUOTE !in head && Fixed(slots)
    ensures Literals(Statement(head, slots), 0) == Some(Texts(slots))
  {
    var sql := Statement(head, slots);
    assert At(sql, 0, sql);
    AtParts(sql, 0, head, Rendered(slots));
    SkipFixed(sql, 0, head);
    SlotsReadBack(sql, |head|, slots);
  }
}
