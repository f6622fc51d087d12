/**
 The lines of RELEASE-NOTES.md as the duplicate check reads them
 (scripts/check_release_notes_duplicates.py): headers, bullets and normalised texts.
 */
module ReleaseNoteText {
  import opened Common

  const UNRELEASED := "Unreleased version"

  // ------------------------------------------------------------ lines

  /** What \s matches, and what strip removes. */
  predicate IsSpace(c: char): (b: bool)
    ensures var n := c as int;
            b <==> 9 <= n < 14 || 28 <= n < 33 || n in {133, 160, 5760, 8232, 8233, 8239, 8287, 12288}
                   || 8192 <= n < 8203
  {
    || '\t' <= c <= '\r' || '\U{1c}' <= c <= ' ' || c == '\U{85}' || c == '\U{a0}'
    || c == '\U{1680}' || '\U{2000}' <= c <= '\U{200a}' || c == '\U{2028}' || c == '\U{2029}'
    || c == '\U{202f}' || c == '\U{205f}' || c == '\U{3000}'
  }

  predicate AllSpace(s: string) { forall i :: 0 <= i < |s| ==> IsSpace(s[i]) }

  function LeftStrip(s: string): string {
    if s != "" && IsSpace(s[0]) then LeftStrip(s[1..]) else s
  }

  function RightStrip(s: string): string {
    if s != "" && IsSpace(s[|s| - 1]) then RightStrip(s[..|s| - 1]) else s
  }

  function Strip(s: string): string { RightStrip(LeftStrip(s)) }

  /** The title of a top header, "#" with space and something after it. */
  function Header(line: string): Option<string> {
    if |line| >= 3 && line[0] == '#' && IsSpace(line[1]) then Some(Strip(line[1..])) else None
  }

  lemma {:induction false} LeftStripped(s: string) returns (lead: string)
    ensures s == lead + LeftStrip(s) && AllSpace(lead)
    ensures s != "" && IsSpace(s[0]) ==> lead != ""
    ensures LeftStrip(s) != "" ==> !IsSpace(LeftStrip(s)[0])
  {
    if s != "" && IsSpace(s[0]) {
      var rest := LeftStripped(s[1..]);
      lead := [s[0]] + rest;
      assert s == [s[0]] + s[1..];
    } else {
      lead := "";
    }
  }

  lemma {:induction false} RightStripped(s: string) returns (tail: string)
    ensures s == RightStrip(s) + tail && AllSpace(tail)
    ensures RightStrip(s) != "" ==> !IsSpace(RightStrip(s)[|RightStrip(s)| - 1]) && RightStrip(s)[0] == s[0]
  {
    if s != "" && IsSpace(s[|s| - 1]) {
      var rest := RightStripped(s[..|s| - 1]);
      tail := rest + [s[|s| - 1]];
      assert s == s[..|s| - 1] + [s[|s| - 1]];
    } else {
      tail := "";
    }
  }

  /** It neither begins nor ends with white space. */
  predicate Trimmed(s: string) { s != "" ==> !IsSpace(s[0]) && !IsSpace(s[|s| - 1]) }

  /** strip removes white space from both ends, and nothing else. */
  lemma Stripped(s: string) returns (lead: string, tail: string)
    ensures s == lead + Strip(s) + tail && AllSpace(lead) && AllSpace(tail) && Trimmed(Strip(s))
    ensures s != "" && IsSpace(s[0]) ==> lead != ""
  {
    lead := LeftStripped(s);
    tail := RightStripped(LeftStrip(s));
  }

  /** Headers are the lines that `^#\s+(.+?)\s*$` matches; the title is what is between the
      white space. */
  lemma HeaderLanguage(line: string)
    ensures Header(line).Some? <==>
            exists space, title, tail :: line == "#" + space + title + tail
              && space != "" && AllSpace(space) && title != "" && AllSpace(tail)
    ensures Header(line).Some? ==>
            exists space, tail :: line == "#" + space + Header(line).value + tail
              && space != "" && AllSpace(space) && Trimmed(Header(line).value) && AllSpace(tail)
  {
    if Header(line).Some? {
      assert line == "#" + [line[1]] + line[2..] + "";
      assert AllSpace([line[1]]) && AllSpace("");
      var space, tail := Stripped(line[1..]);
      assert line == "#" + line[1..];
      assert line == "#" + space + Header(line).value + tail;
    }
  }

  /** The text after the marker of a bullet. */
  function Bullet(line: string): Option<string> {
    var body := LeftStrip(line);
    if |body| >= 2 && (body[0] == '*' || body[0] == '-') && IsSpace(body[1]) then Some(Strip(body[1..])) else None
  }

  /** Bullets are the lines that `^\s*[*-]\s+(.*?)\s*$` matches; the text is what is between
      the white space after the marker. */
  lemma BulletLanguage(line: string)
    ensures Bullet(line).Some? <==>
            exists lead, marker: char, space: char, rest :: line == lead + [marker, space] + rest
              && AllSpace(lead) && (marker == '*' || marker == '-') && IsSpace(space)
    ensures Bullet(line).Some? ==>
            exists lead, marker: char, space, tail :: line == lead + [marker] + space + Bullet(line).value + tail
              && AllSpace(lead) && (marker == '*' || marker == '-')
              && space != "" && AllSpace(space) && Trimmed(Bullet(line).value) && AllSpace(tail)
  {
    var body := LeftStrip(line);
    if Bullet(line).Some? {
      var lead := LeftStripped(line);
      var space, tail := Stripped(body[1..]);
      assert body == [body[0], body[1]] + body[2..] && body == [body[0]] + body[1..];
      assert line == lead + [body[0], body[1]] + body[2..];
      assert line == lead + [body[0]] + space + Bullet(line).value + tail;
    }
    forall lead, marker: char, space: char, rest |
      line == lead + [marker, space] + rest && AllSpace(lead) && (marker == '*' || marker == '-') && IsSpace(space)
      ensures Bullet(line).Some?
    {
      LeftStripTo(lead, [marker, space] + rest);
      assert line == lead + ([marker, space] + rest);
    }
  }

  lemma {:induction false} LeftStripTo(lead: string, body: string)
    requires AllSpace(lead) && body != "" && !IsSpace(body[0])
    ensures LeftStrip(lead + body) == body
  {
    if lead == "" {
      assert lead + body == body;
    } else {
      assert (lead + body)[1..] == lead[1..] + body;
      LeftStripTo(lead[1..], body);
    }
  }

  function SkipDigits(s: string, i: nat): (j: nat)
    requires i <= |s|
    ensures i <= j <= |s|
    decreases |s| - i
  {
    if i < |s| && '0' <= s[i] <= '9' then SkipDigits(s, i + 1) else i
  }

  /** ^v\d+\.\d+\.\d+ */
  predicate Released(s: string) {
    if s == "" || s[0] != 'v' then false
    else
      var a := SkipDigits(s, 1);
      if a == 1 || a == |s| || s[a] != '.' then false
      else
        var b := SkipDigits(s, a + 1);
        a + 1 < b < |s| && s[b] == '.' && b + 1 < SkipDigits(s, b + 1)
  }

  predicate Digits(s: string) { s != "" && forall i :: 0 <= i < |s| ==> 48 <= s[i] as int < 58 }

  lemma {:induction false} SkippedDigits(s: string, i: nat)
    requires i <= |s|
    ensures i < SkipDigits(s, i) ==> Digits(s[i..SkipDigits(s, i)])
    decreases |s| - i
  {
    if i < |s| && '0' <= s[i] <= '9' {
      SkippedDigits(s, i + 1);
      assert s[i..SkipDigits(s, i)] == [s[i]] + s[i + 1..SkipDigits(s, i)];
    }
  }

  lemma {:induction false} SkipsThem(s: string, i: nat, digits: string, rest: string)
    requires i <= |s| && s[i..] == digits + rest && Digits(digits)
    requires rest != "" && !('0' <= rest[0] <= '9')
    ensures SkipDigits(s, i) == i + |digits|
    decreases |digits|
  {
    assert s[i] == digits[0];
    assert s[i + 1..] == digits[1..] + rest;
    if |digits| == 1 {
      assert s[i + 1..] == rest && s[i + 1] == rest[0];
    } else {
      SkipsThem(s, i + 1, digits[1..], rest);
    }
  }

  /** Three numbers between dots, after a "v". */
  function VersionText(major: string, minor: string, patch: string, rest: string): string {
    "v" + (major + ("." + (minor + ("." + (patch + rest)))))
  }

  lemma CutDot(s: string, i: nat, j: nat)
    requires i <= j < |s| && s[j] == '.'
    ensures s[i..] == s[i..j] + ("." + s[j + 1..])
  {
  }

  lemma CutRest(s: string, i: nat, j: nat)
    requires i <= j <= |s|
    ensures s[i..] == s[i..j] + s[j..]
  {
  }

  lemma VersionSlices(s: string, a: nat, b: nat, c: nat)
    requires 1 <= a < b < c <= |s| && s[0] == 'v' && s[a] == '.' && s[b] == '.'
    ensures s == VersionText(s[1..a], s[a + 1..b], s[b + 1..c], s[c..])
  {
    assert s == "v" + s[1..];
    CutDot(s, 1, a);
    CutDot(s, a + 1, b);
    CutRest(s, b + 1, c);
    Assembled(s[1..], s[a + 1..], s[b + 1..], s[1..a], s[a + 1..b], s[b + 1..c], s[c..]);
  }

  lemma Assembled(one: string, two: string, three: string, major: string, minor: string, patch: string, rest: string)
    requires one == major + ("." + two) && two == minor + ("." + three) && three == patch + rest
    ensures "v" + one == VersionText(major, minor, patch, rest)
  {
  }

  lemma ReleasedSplits(s: string) returns (major: string, minor: string, patch: string, rest: string)
    requires Released(s)
    ensures s == VersionText(major, minor, patch, rest) && Digits(major) && Digits(minor) && Digits(patch)
  {
    var a := SkipDigits(s, 1);
    var b := SkipDigits(s, a + 1);
    var c := SkipDigits(s, b + 1);
    major, minor, patch, rest := s[1..a], s[a + 1..b], s[b + 1..c], s[c..];
    assert Digits(major) by { SkippedDigits(s, 1); }
    assert Digits(minor) by { SkippedDigits(s, a + 1); }
    assert Digits(patch) by { SkippedDigits(s, b + 1); }
    VersionSlices(s, a, b, c);
  }

  /** Where the parts of a version stand. */
  lemma VersionParts(major: string, minor: string, patch: string, rest: string)
    ensures var s := VersionText(major, minor, patch, rest);
            var (a, b) := (1 + |major|, 2 + |major| + |minor|);
            && |s| == b + 1 + |patch| + |rest| && s[0] == 'v' && s[a] == '.' && s[b] == '.'
            && s[1..] == major + ("." + (minor + ("." + (patch + rest))))
            && s[a + 1..] == minor + ("." + (patch + rest))
            && s[b + 1..] == patch + rest && (patch != "" ==> s[b + 1] == patch[0])
  {
  }

  lemma ReleasedHere(s: string, major: string, middle: string, minor: string, last: string)
    requires Digits(major) && Digits(minor) && middle != "" && middle[0] == '.' && last != "" && last[0] == '.'
    requires |s| > 3 + |major| + |minor| && s[0] == 'v' && 48 <= s[3 + |major| + |minor|] as int < 58
    requires s[1 + |major|] == '.' && s[2 + |major| + |minor|] == '.'
    requires s[1..] == major + middle && s[2 + |major|..] == minor + last
    ensures Released(s)
  {
    SkipsThem(s, 1, major, middle);
    SkipsThem(s, 2 + |major|, minor, last);
  }

  lemma ReleasedJoins(major: string, minor: string, patch: string, rest: string)
    requires Digits(major) && Digits(minor) && Digits(patch)
    ensures Released(VersionText(major, minor, patch, rest))
  {
    var last := "." + (patch + rest);
    VersionParts(major, minor, patch, rest);
    ReleasedHere(VersionText(major, minor, patch, rest), major, "." + (minor + last), minor, last);
  }

  /** Released sections are those that `^v\d+\.\d+\.\d+` matches, on ASCII digits. */
  lemma ReleasedLanguage(s: string)
    ensures Released(s) <==>
            exists major, minor, patch, rest :: s == VersionText(major, minor, patch, rest)
              && Digits(major) && Digits(minor) && Digits(patch)
  {
    if Released(s) {
      var major, minor, patch, rest := ReleasedSplits(s);
    }
    forall major, minor, patch, rest |
      s == VersionText(major, minor, patch, rest) && Digits(major) && Digits(minor) && Digits(patch)
      ensures Released(s)
    {
      ReleasedJoins(major, minor, patch, rest);
    }
  }

  // ------------------------------------------------------------ normalised bullets

  /** re.sub(r"\s+", " ", s) */
  function Collapse(s: string): string
    decreases |s|
  {
    if s == "" then ""
    else if IsSpace(s[0]) then LeftStripShorter(s[1..]); " " + Collapse(LeftStrip(s[1..]))
    else [s[0]] + Collapse(s[1..])
  }

  lemma {:induction false} LeftStripShorter(s: string)
    ensures |LeftStrip(s)| <= |s|
  {
    if s != "" && IsSpace(s[0]) { LeftStripShorter(s[1..]); }
  }

  function Normalize(text: string): string { Lower(Strip(Collapse(text))) }

  /** The maximal runs of other characters. `word` is the run under way. */
  function WordsFrom(word: string, s: string): seq<string>
    decreases |s|
  {
    if s == "" then (if word == "" then [] else [word])
    else if IsSpace(s[0]) then (if word == "" then [] else [word]) + WordsFrom("", s[1..])
    else WordsFrom(word + [LowerChar(s[0])], s[1..])
  }

  /** The words of a text, in lower case. */
  function Words(s: string): seq<string> { WordsFrom("", s) }

  /** The words with one space between them. */
  function Spelled(words: seq<string>): string {
    if words == [] then ""
    else if |words| == 1 then words[0]
    else words[0] + " " + Spelled(words[1..])
  }

  predicate NoSpace(s: string) { forall i :: 0 <= i < |s| ==> !IsSpace(s[i]) }

  predicate IsLower(s: string) { forall i :: 0 <= i < |s| ==> LowerChar(s[i]) == s[i] }

  predicate AreWords(words: seq<string>) {
    forall i :: 0 <= i < |words| ==> words[i] != "" && NoSpace(words[i]) && IsLower(words[i])
  }

  lemma {:induction false} WordsAreWords(word: string, s: string)
    requires NoSpace(word) && IsLower(word)
    ensures AreWords(WordsFrom(word, s))
    decreases |s|
  {
    if s != "" {
      if IsSpace(s[0]) { WordsAreWords("", s[1..]); } else { WordsAreWords(word + [LowerChar(s[0])], s[1..]); }
    }
  }

  lemma {:induction false} WordGrows(word: string, run: string, s: string)
    requires NoSpace(run) && IsLower(run)
    ensures WordsFrom(word, run + s) == WordsFrom(word + run, s)
    decreases |run|
  {
    if run == "" {
      assert run + s == s && word + run == word;
    } else {
      assert (run + s)[1..] == run[1..] + s;
      assert word + [run[0]] + run[1..] == word + run;
      WordGrows(word + [run[0]], run[1..], s);
    }
  }

  /** Reading the spelling of words gives the words. */
  lemma {:induction false} WordsOfSpelled(words: seq<string>)
    requires AreWords(words)
    ensures Words(Spelled(words)) == words
    decreases |words|
  {
    if words == [] {
    } else if |words| == 1 {
      assert words[0] == words[0] + "" && "" + words[0] == words[0];
      WordGrows("", words[0], "");
    } else {
      var rest := " " + Spelled(words[1..]);
      assert words[0] + " " + Spelled(words[1..]) == words[0] + rest;
      assert "" + words[0] == words[0] && rest[1..] == Spelled(words[1..]);
      WordGrows("", words[0], rest);
      WordsOfSpelled(words[1..]);
    }
  }

  lemma {:induction false} LowerAppend(a: string, b: string)
    ensures Lower(a + b) == Lower(a) + Lower(b)
    decreases |a|
  {
    if a == "" {
      assert a + b == b;
    } else {
      assert (a + b)[1..] == a[1..] + b;
      LowerAppend(a[1..], b);
    }
  }

  lemma {:induction false} LowerIsLower(a: string)
    requires NoSpace(a)
    ensures |Lower(a)| == |a| && NoSpace(Lower(a)) && IsLower(Lower(a))
  {
    if a != "" { LowerIsLower(a[1..]); }
  }

  lemma {:induction false} RightStripKeeps(a: string, x: string)
    requires x != "" && !IsSpace(x[0])
    ensures RightStrip(a + x) == a + RightStrip(x)
    decreases |x|
  {
    if IsSpace(x[|x| - 1]) {
      assert (a + x)[..|a + x| - 1] == a + x[..|x| - 1];
      RightStripKeeps(a, x[..|x| - 1]);
    }
  }

  lemma RightStripWord(w: string)
    requires NoSpace(w)
    ensures RightStrip(w) == w && RightStrip(w + " ") == w
  {
    assert (w + " ")[..|w + " "| - 1] == w;
  }

  lemma {:induction false} LeftStripStarts(s: string)
    ensures LeftStrip(s) != "" ==> !IsSpace(LeftStrip(s)[0])
    ensures LeftStrip(LeftStrip(s)) == LeftStrip(s)
  {
    if s != "" && IsSpace(s[0]) { LeftStripStarts(s[1..]); }
  }

  lemma CollapseThenStrip(s: string)
    ensures LeftStrip(Collapse(s)) == Collapse(LeftStrip(s))
  {
    if s != "" && IsSpace(s[0]) {
      var rest := Collapse(LeftStrip(s[1..]));
      LeftStripStarts(s[1..]);
      assert (" " + rest)[1..] == rest;
      assert LeftStrip(rest) == rest;
    }
  }

  lemma {:induction false} WordsSkipSpace(s: string)
    ensures WordsFrom("", s) == WordsFrom("", LeftStrip(s))
  {
    if s != "" && IsSpace(s[0]) {
      WordsSkipSpace(s[1..]);
      assert [] + WordsFrom("", s[1..]) == WordsFrom("", s[1..]);
    }
  }

  lemma {:induction false} SomeWord(word: string, s: string)
    requires word != ""
    ensures WordsFrom(word, s) != []
    decreases |s|
  {
    if s != "" && !IsSpace(s[0]) { SomeWord(word + [LowerChar(s[0])], s[1..]); }
  }

  lemma {:induction false} CollapsedIsSpelled(w: string, s: string)
    requires NoSpace(w) && (w != "" || s == "" || !IsSpace(s[0]))
    ensures Lower(RightStrip(w + Collapse(s))) == Spelled(WordsFrom(Lower(w), s))
    decreases |s|
  {
    LowerIsLower(w);
    if s == "" {
      assert w + "" == w;
      RightStripWord(w);
    } else if !IsSpace(s[0]) {
      assert w + ([s[0]] + Collapse(s[1..])) == (w + [s[0]]) + Collapse(s[1..]);
      LowerAppend(w, [s[0]]);
      assert Lower([s[0]]) == [LowerChar(s[0])];
      CollapsedIsSpelled(w + [s[0]], s[1..]);
    } else {
      NextWord(w, s);
    }
  }

  lemma LowerStripApart(w: string, x: string)
    requires x != "" && !IsSpace(x[0])
    ensures Lower(RightStrip(w + (" " + x))) == Lower(w) + " " + Lower(RightStrip(x))
  {
    assert w + (" " + x) == (w + " ") + x;
    RightStripKeeps(w + " ", x);
    LowerAppend(w + " ", RightStrip(x));
    LowerAppend(w, " ");
    assert Lower(" ") == " " by { assert " "[1..] == ""; }
  }

  lemma NextWord(w: string, s: string)
    requires NoSpace(w) && w != "" && s != "" && IsSpace(s[0])
    ensures Lower(RightStrip(w + Collapse(s))) == Spelled(WordsFrom(Lower(w), s))
    decreases |s|, 0
  {
    var t := LeftStrip(s[1..]);
    var x := Collapse(t);
    LeftStripStarts(s[1..]);
    LeftStripShorter(s[1..]);
    WordsSkipSpace(s[1..]);
    LowerIsLower(w);
    assert WordsFrom(Lower(w), s) == [Lower(w)] + WordsFrom("", t);
    if t == "" {
      assert " " + x == " ";
      RightStripWord(w);
    } else {
      LowerStripApart(w, x);
      assert "" + x == x;
      CollapsedIsSpelled("", t);
      assert Lower("") == "";
      SomeWord("" + [LowerChar(t[0])], t[1..]);
      var rest := WordsFrom("", t);
      assert ([Lower(w)] + rest)[1..] == rest;
    }
  }

  /** A normalised text spells the words of the text, so two bullets count as the same
      exactly when they have the same words up to case and spacing. */
  lemma NormalizeSpellsWords(text: string)
    ensures Normalize(text) == Spelled(Words(text))
  {
    var s := LeftStrip(text);
    CollapseThenStrip(text);
    WordsSkipSpace(text);
    LeftStripStarts(text);
    assert "" + Collapse(s) == Collapse(s);
    CollapsedIsSpelled("", s);
    assert Lower("") == "";
  }

  lemma SameBullet(a: string, b: string)
    ensures Normalize(a) == Normalize(b) <==> Words(a) == Words(b)
  {
    NormalizeSpellsWords(a);
    NormalizeSpellsWords(b);
    WordsAreWords("", a);
    WordsAreWords("", b);
    WordsOfSpelled(Words(a));
    WordsOfSpelled(Words(b));
  }
}
