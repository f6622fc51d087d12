/**
 The quote-aware splitter of git-repository paths in api/stage_path.py.
 */
module PathSplitter {

  // ------------------------------------------------------------ plain strings

  predicate StartsWith(s: string, prefix: string) { prefix <= s }

  predicate EndsWithSlash(s: string) { s != [] && s[|s| - 1] == '/' }

  /** str.rstrip("/") */
  function RStripSlash(s: string): string {
    if EndsWithSlash(s) then RStripSlash(s[..|s| - 1]) else s
  }

  /** str.lstrip("/") */
  function LStripSlash(s: string): string {
    if s != [] && s[0] == '/' then LStripSlash(s[1..]) else s
  }

  function JoinSlash(parts: seq<string>): string {
    if parts == [] then []
    else if |parts| == 1 then parts[0]
    else parts[0] + "/" + JoinSlash(parts[1..])
  }

  /** The first position at or after `from` holding `c`; the length when there is none. */
  function IndexFrom(s: string, c: char, from: nat): (k: nat)
    requires from <= |s|
    ensures from <= k <= |s| && (k < |s| ==> s[k] == c)
    decreases |s| - from
  {
    if from == |s| || s[from] == c then from else IndexFrom(s, c, from + 1)
  }

  // ----------------------------------------------------------- the splitter

  /** Where the search for the next cut starts in the component at `start`: after the
      closing quote when the component opens with a quote right after a cut. */
  function SearchStart(s: string, start: nat, afterCut: bool): (k: nat)
    requires start <= |s|
    ensures start <= k <= |s|
  {
    if afterCut && start < |s| && s[start] == '"' then
      var q := IndexFrom(s, '"', start + 1);
      if q < |s| then q + 1 else |s|
    else start
  }

  function NextCut(s: string, start: nat, afterCut: bool): (p: nat)
    requires start <= |s|
    ensures start <= p <= |s| && (p < |s| ==> s[p] == '/')
  {
    IndexFrom(s, '/', SearchStart(s, start, afterCut))
  }

  /** What the splitter is for: cut at every slash outside a component quoted from its
      start, except at a trailing slash. */
  function ComponentsFrom(s: string, start: nat, afterCut: bool): (parts: seq<string>)
    requires start <= |s|
    ensures |parts| > 0
    decreases |s| - start
  {
    var p := NextCut(s, start, afterCut);
    if p + 1 < |s| then [s[start..p]] + ComponentsFrom(s, p + 1, true) else [s[start..]]
  }

  function Components(s: string): seq<string> { ComponentsFrom(s, 0, false) }

  /** What the loop still produces when the current component starts at `start`, the
      cursor is at `i` and `skipping` tells that a quote is open. */
  function Scan(s: string, start: nat, i: nat, skipping: bool): seq<string>
    requires start <= i <= |s|
    decreases |s| - i
  {
    if i + 1 >= |s| then [s[start..]]
    else if !skipping then
      if s[i] != '/' then Scan(s, start, i + 1, false)
      else [s[start..i]] + Scan(s, i + 1, i + 1, s[i + 1] == '"')
    else Scan(s, start, i + 1, s[i + 1] != '"')
  }

  /** What the loop produces once it has found the next candidate for a cut at `p`. */
  function CutAt(s: string, start: nat, p: nat): seq<string>
    requires start <= p <= |s|
  {
    if p + 1 < |s| then [s[start..p]] + Scan(s, p + 1, p + 1, s[p + 1] == '"') else [s[start..]]
  }

  lemma {:induction false} ScanFindsSlash(s: string, start: nat, i: nat)
    requires start <= i <= |s|
    ensures Scan(s, start, i, false) == CutAt(s, start, IndexFrom(s, '/', i))
    decreases |s| - i
  {
    if i + 1 < |s| && s[i] != '/' {
      ScanFindsSlash(s, start, i + 1);
    }
  }

  lemma {:induction false} ScanFindsQuote(s: string, start: nat, i: nat)
    requires start <= i < |s|
    ensures var q := IndexFrom(s, '"', i + 1);
            Scan(s, start, i, true) ==
            if q < |s| then Scan(s, start, q, false) else [s[start..]]
    decreases |s| - i
  {
    if i + 1 < |s| && s[i + 1] != '"' {
      ScanFindsQuote(s, start, i + 1);
    }
  }

  predicate OpensQuote(s: string, start: nat, afterCut: bool) {
    afterCut && start < |s| && s[start] == '"'
  }

  /** The slash sought after a closing quote is the one sought from that quote on. */
  lemma QuotedCut(s: string, start: nat)
    requires start < |s| && s[start] == '"'
    ensures var q := IndexFrom(s, '"', start + 1);
            NextCut(s, start, true) == if q < |s| then IndexFrom(s, '/', q) else |s|
  {
    var q := IndexFrom(s, '"', start + 1);
    if q < |s| {
      assert IndexFrom(s, '/', q) == IndexFrom(s, '/', q + 1);
    }
  }

  /** The loop leaves the component at `start` at its next cut. */
  lemma ScanLeavesQuoted(s: string, start: nat)
    requires start < |s| && s[start] == '"'
    ensures Scan(s, start, start, true) == CutAt(s, start, NextCut(s, start, true))
  {
    var q := IndexFrom(s, '"', start + 1);
    QuotedCut(s, start);
    ScanFindsQuote(s, start, start);
    if q < |s| {
      ScanFindsSlash(s, start, q);
    } else {
      NoCut(s, start);
    }
  }

  lemma NoCut(s: string, start: nat)
    requires start <= |s|
    ensures CutAt(s, start, |s|) == [s[start..]]
  {
  }

  lemma ScanLeavesPlain(s: string, start: nat)
    requires start <= |s|
    ensures Scan(s, start, start, false) == CutAt(s, start, IndexFrom(s, '/', start))
  {
    ScanFindsSlash(s, start, start);
  }

  lemma ScanLeaves(s: string, start: nat, afterCut: bool)
    requires start <= |s|
    ensures Scan(s, start, start, OpensQuote(s, start, afterCut)) == CutAt(s, start, NextCut(s, start, afterCut))
  {
    if OpensQuote(s, start, afterCut) {
      ScanLeavesQuoted(s, start);
    } else {
      ScanLeavesPlain(s, start);
    }
  }

  /** The loop cuts exactly where it should. */
  lemma {:induction false} ScanIsComponents(s: string, start: nat, afterCut: bool)
    requires start <= |s|
    ensures Scan(s, start, start, OpensQuote(s, start, afterCut)) == ComponentsFrom(s, start, afterCut)
    decreases |s| - start
  {
    var p := NextCut(s, start, afterCut);
    ScanLeaves(s, start, afterCut);
    if p + 1 < |s| {
      assert OpensQuote(s, p + 1, true) == (s[p + 1] == '"');
      ScanIsComponents(s, p + 1, true);
    }
  }

  lemma JoinCons(first: string, rest: seq<string>)
    requires rest != []
    ensures JoinSlash([first] + rest) == first + "/" + JoinSlash(rest)
  {
    assert ([first] + rest)[1..] == rest;
  }

  lemma JoinCut(s: string, start: nat, p: nat, rest: seq<string>, parts: seq<string>)
    requires start <= p < |s| && s[p] == '/'
    requires rest != [] && JoinSlash(rest) == s[p + 1..] && parts == [s[start..p]] + rest
    ensures JoinSlash(parts) == s[start..]
  {
    JoinCons(s[start..p], rest);
    SlashBetween(s, start, p);
  }

  lemma SlashBetween(s: string, start: nat, p: nat)
    requires start <= p < |s| && s[p] == '/'
    ensures s[start..] == s[start..p] + "/" + s[p + 1..]
  {
  }

  /** Joining the parts with slashes restores the input. */
  lemma {:induction false} JoinComponents(s: string, start: nat, afterCut: bool)
    requires start <= |s|
    ensures JoinSlash(ComponentsFrom(s, start, afterCut)) == s[start..]
    decreases |s| - start
  {
    var p := NextCut(s, start, afterCut);
    if p + 1 < |s| {
      JoinComponents(s, p + 1, true);
      JoinCut(s, start, p, ComponentsFrom(s, p + 1, true), ComponentsFrom(s, start, afterCut));
    } else {
      assert ComponentsFrom(s, start, afterCut) == [s[start..]];
      JoinOne(s[start..]);
    }
  }

  lemma JoinOne(part: string)
    ensures JoinSlash([part]) == part
  {
  }

  /** The loop of _split_repo_path. */
  method SplitParts(s: string) returns (parts: seq<string>)
    ensures parts == Components(s)
    ensures JoinSlash(parts) == s
  {
    parts := [];
    var slashIndex := 0;
    var skipping := false;
    var i := 0;
    ghost var all := Scan(s, 0, 0, false);
    while i + 1 < |s|
      invariant 0 <= slashIndex <= i <= |s|
      invariant all == parts + Scan(s, slashIndex, i, skipping)
    {
      var c, nextChar := s[i], s[i + 1];
      if !skipping {
        if c == '/' {
          parts := parts + [s[slashIndex..i]];
          slashIndex := i + 1;
          if nextChar == '"' {
            skipping := !skipping;
          }
        }
      } else if nextChar == '"' {
        skipping := !skipping;
      }
      i := i + 1;
    }
    parts := parts + [s[slashIndex..]];
    ScanIsComponents(s, 0, false);
    assert s[0..] == s;
    JoinComponents(s, 0, false);
  }
}
