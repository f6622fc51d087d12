/**
 Stage and git-repository paths of api/stage_path.py: the printer undoes the parser, and
 the prefix relation ignores the case of unquoted names.
 */
module StagePaths {
  import opened Common
  import opened PathSplitter

  // ---------------------------------------------------------- PurePosixPath

  /** str.split("/") */
  function SplitSlash(s: string): (parts: seq<string>)
    ensures |parts| > 0
  {
    if s == [] then [[]] else Prepend(s[0], SplitSlash(s[1..]))
  }

  /** The parts once one more character is put in front. */
  function Prepend(c: char, parts: seq<string>): (r: seq<string>)
    requires |parts| > 0
    ensures |r| > 0
  {
    if c == '/' then [[]] + parts else [[c] + parts[0]] + parts[1..]
  }

  lemma PrependConcat(c: char, a: seq<string>, b: seq<string>)
    requires |a| > 0
    ensures Prepend(c, a + b) == Prepend(c, a) + b
  {
    assert (a + b)[1..] == a[1..] + b;
  }

  /** A component that PurePosixPath keeps. */
  predicate IsName(c: string): (b: bool)
    ensures !b <==> |c| == 0 || (|c| == 1 && c[0] == '.')
  {
    c != "" && c != "."
  }

  function KeepName(c: string): seq<string> { if IsName(c) then [c] else [] }

  function OnlyNames(parts: seq<string>): seq<string> {
    if parts == [] then []
    else KeepName(parts[0]) + OnlyNames(parts[1..])
  }

  function Names(s: string): seq<string> { OnlyNames(SplitSlash(s)) }

  /** A parsed path: its root ("", "/" or "//") and its components. */
  datatype PurePath = PurePath(root: string, names: seq<string>) {
    predicate IsDot() { root == "" && names == [] }

    /** str(path) */
    function Text(): (s: string)
      ensures root == "" && |names| == 0 ==> |s| == 1 && s[0] == '.'
      ensures root != "" || |names| > 0 ==> s == root + JoinSlash(names)
    {
      if IsDot() then "." else root + JoinSlash(names)
    }

    /** path / other: a rooted right operand replaces the left one. */
    function Join(other: PurePath): PurePath {
      if other.root != "" then other else PurePath(root, names + other.names)
    }

    /** path.parts */
    function Parts(): (parts: seq<string>)
      ensures root == "" ==> parts == names
      ensures root != "" ==> parts != [] && parts[0] == root && parts[1..] == names
    {
      (if root == "" then [] else [root]) + names
    }
  }

  /** PurePosixPath(s); exactly two leading slashes are kept apart from one or three. */
  function ParsePath(s: string): (p: PurePath)
    ensures p.names == Names(s)
    ensures p.root == if |s| == 0 || s[0] != '/' then ""
                      else if |s| > 1 && s[1] == '/' && (|s| == 2 || s[2] != '/') then ['/', '/'] else ['/']
  {
    var root := if !StartsWith(s, "/") then "" else if StartsWith(s, "//") && !StartsWith(s, "///") then "//" else "/";
    PurePath(root, Names(s))
  }

  lemma {:induction false} JoinSplit(s: string)
    ensures JoinSlash(SplitSlash(s)) == s
  {
    if s != [] {
      JoinSplit(s[1..]);
      var rest := SplitSlash(s[1..]);
      if s[0] == '/' {
        JoinCons([], rest);
      } else if |rest| == 1 {
        assert [[s[0]] + rest[0]] + rest[1..] == [[s[0]] + rest[0]];
      } else {
        JoinCons([s[0]] + rest[0], rest[1..]);
        JoinCons(rest[0], rest[1..]);
        assert rest == [rest[0]] + rest[1..];
      }
    }
  }

  lemma {:induction false} SplitConcat(a: string, b: string)
    ensures SplitSlash(a + "/" + b) == SplitSlash(a) + SplitSlash(b)
  {
    if a == [] {
      SplitAfterSlash(b);
    } else {
      SplitConcat(a[1..], b);
      FirstOff(a, b);
      PrependConcat(a[0], SplitSlash(a[1..]), SplitSlash(b));
    }
  }

  lemma SplitAfterSlash(b: string)
    ensures SplitSlash([] + "/" + b) == [[]] + SplitSlash(b)
  {
    assert ([] + "/" + b)[1..] == b;
  }

  lemma FirstOff(a: string, b: string)
    requires a != []
    ensures (a + "/" + b)[0] == a[0] && (a + "/" + b)[1..] == a[1..] + "/" + b
  {
  }

  lemma {:induction false} OnlyNamesConcat(a: seq<string>, b: seq<string>)
    ensures OnlyNames(a + b) == OnlyNames(a) + OnlyNames(b)
  {
    if a == [] {
      assert a + b == b;
    } else {
      OnlyNamesConcat(a[1..], b);
      assert (a + b)[1..] == a[1..] + b;
      Regroup(KeepName(a[0]), OnlyNames(a[1..]), OnlyNames(b));
    }
  }

  lemma NamesConcat(a: string, b: string)
    ensures Names(a + "/" + b) == Names(a) + Names(b)
  {
    SplitConcat(a, b);
    OnlyNamesConcat(SplitSlash(a), SplitSlash(b));
  }

  lemma {:induction false} AllNamesKept(parts: seq<string>)
    requires forall i :: 0 <= i < |parts| ==> IsName(parts[i])
    ensures OnlyNames(parts) == parts
  {
    if parts != [] {
      AllNamesKept(parts[1..]);
      assert parts == [parts[0]] + parts[1..];
    }
  }

  // -------------------------------------------------------------- stage paths

  const SNOW_PREFIX := "snow://"

  function StripAt(s: string): string { if StartsWith(s, "@") then s[1..] else s }

  function StripSnow(s: string): string { if StartsWith(s, SNOW_PREFIX) then s[|SNOW_PREFIX|..] else s }

  function StripStagePrefixes(s: string): string { StripAt(StripSnow(s)) }

  function AddAt(s: string): string { if StartsWith(s, "@") then s else "@" + s }

  function AddSnow(s: string): string { if StartsWith(s, SNOW_PREFIX) then s else SNOW_PREFIX + s }

  datatype StagePath = StagePath(stageName: string, path: PurePath, gitRef: string, trailingSlash: bool, isSnow: bool)

  /** The constructor; an absent path or git ref is the empty string. */
  function NewStagePath(stageName: string, path: string, gitRef: string, trailingSlash: bool): StagePath {
    StagePath(StripStagePrefixes(stageName), if path == "" then PurePath("", []) else ParsePath(path),
              gitRef, trailingSlash, StartsWith(stageName, SNOW_PREFIX))
  }

  /** from_git_str; None stands for the IndexError on fewer than three parts. */
  function FromGitStr(s: string): Option<StagePath> {
    var parts := Components(StripStagePrefixes(s));
    if |parts| < 3 then None
    else
      var repo := Prefixed(parts[0], StartsWith(s, "@"), StartsWith(s, SNOW_PREFIX));
      Some(NewStagePath(repo, JoinSlash(parts[3..]), parts[1] + "/" + parts[2], EndsWithSlash(s)))
  }

  /** The prefixes of the input put back in front of a name. */
  function Prefixed(name: string, isAt: bool, isSnow: bool): string {
    var name' := if isAt then AddAt(name) else name;
    if isSnow then AddSnow(name') else name'
  }

  function AbsolutePath(p: StagePath): string {
    var path := ParsePath(p.stageName);
    var path' := if p.gitRef != "" then path.Join(ParsePath(p.gitRef)) else path;
    var path'' := if !p.path.IsDot() then path'.Join(p.path) else path';
    var text := if p.isSnow then AddSnow(path''.Text()) else AddAt(path''.Text());
    if p.trailingSlash then RStripSlash(text) + "/" else text
  }

  /** Components between slashes are proper names; only the last may be empty, which is
      a trailing slash. */
  predicate Normal(body: string) {
    var c := SplitSlash(body);
    forall i :: 0 <= i < |c| ==> IsName(c[i]) || (i == |c| - 1 && i > 0 && c[i] == "")
  }

  // ------------------------------------------------------ printing what was parsed

  lemma {:induction false} PartsHaveNoSlash(s: string)
    ensures forall i :: 0 <= i < |SplitSlash(s)| ==> '/' !in SplitSlash(s)[i]
  {
    if s != [] { PartsHaveNoSlash(s[1..]); }
  }

  lemma {:induction false} JoinSnoc(parts: seq<string>, last: string)
    requires parts != []
    ensures JoinSlash(parts + [last]) == JoinSlash(parts) + "/" + last
  {
    if |parts| == 1 {
      assert parts + [last] == [parts[0]] + [last];
      JoinCons(parts[0], [last]);
    } else {
      JoinSnoc(parts[1..], last);
      assert parts + [last] == [parts[0]] + (parts[1..] + [last]);
      assert parts == [parts[0]] + parts[1..];
      JoinCons(parts[0], parts[1..] + [last]);
      JoinCons(parts[0], parts[1..]);
      Glue(parts[0], JoinSlash(parts[1..]), last);
    }
  }

  lemma Glue(a: string, b: string, c: string)
    ensures a + "/" + (b + "/" + c) == (a + "/" + b) + "/" + c
  {
  }

  function WithoutTrailingSlash(s: string): string {
    if EndsWithSlash(s) then s[..|s| - 1] else s
  }

  lemma EndsLike(a: string, b: string)
    requires b != "" && !EndsWithSlash(b)
    ensures a + b != "" && !EndsWithSlash(a + b)
  {
    assert (a + b)[|a + b| - 1] == b[|b| - 1];
  }

  lemma {:induction false} NamesEnd(names: seq<string>)
    requires names != [] && IsName(names[|names| - 1]) && '/' !in names[|names| - 1]
    ensures JoinSlash(names) != "" && !EndsWithSlash(JoinSlash(names))
  {
    if |names| > 1 {
      var rest := names[1..];
      assert rest[|rest| - 1] == names[|names| - 1];
      NamesEnd(rest);
      EndsLike(names[0] + "/", JoinSlash(rest));
    }
  }

  lemma SlashAdded(core: string)
    ensures EndsWithSlash(core + "/" + "") && WithoutTrailingSlash(core + "/" + "") == core
  {
    assert core + "/" + "" == core + "/";
  }

  lemma TrailingPartDropped(init: seq<string>)
    requires init != []
    ensures OnlyNames(init + [""]) == OnlyNames(init)
    ensures JoinSlash(init + [""]) == JoinSlash(init) + "/" + ""
  {
    OnlyNamesConcat(init, [""]);
    assert [""][1..] == [];
    assert OnlyNames([""]) == [];
    JoinSnoc(init, "");
  }

  /** The components of a normal text spell it, up to a trailing slash. */
  lemma NormalNames(body: string)
    requires Normal(body)
    ensures Names(body) != []
    ensures JoinSlash(Names(body)) == WithoutTrailingSlash(body)
    ensures WithoutTrailingSlash(body) != "" && !EndsWithSlash(WithoutTrailingSlash(body))
  {
    var c := SplitSlash(body);
    var n := |c| - 1;
    JoinSplit(body);
    PartsHaveNoSlash(body);
    if c[n] == "" {
      var init := c[..n];
      assert n > 0 && c == init + [""];
      TrailingPartDropped(init);
      AllNamesKept(init);
      NamesEnd(init);
      SlashAdded(JoinSlash(init));
    } else {
      AllNamesKept(c);
      NamesEnd(c);
    }
  }

  /** Each side of a slash in a normal text is normal, except that nothing may follow. */
  lemma NormalSides(a: string, b: string)
    requires Normal(a + "/" + b)
    ensures Normal(a) && !EndsWithSlash(a) && (b == "" || Normal(b))
  {
    SplitConcat(a, b);
    JoinSplit(a); JoinSplit(b);
    var x, y := SplitSlash(a), SplitSlash(b);
    forall i | 0 <= i < |x|
      ensures IsName(x[i])
    {
      assert (x + y)[i] == x[i];
    }
    PartsHaveNoSlash(a);
    NamesEnd(x);
    forall i | 0 <= i < |y|
      ensures IsName(y[i]) || (i == |y| - 1 && y[i] == "")
    {
      assert (x + y)[|x| + i] == y[i];
    }
    if b != "" && |y| == 1 { assert y[0] == b; }
  }

  lemma NormalFirst(body: string)
    requires Normal(body)
    ensures body != "" && body[0] != '/'
  {
    assert IsName(SplitSlash(body)[0]);
  }

  lemma NormalStart(body: string)
    requires Normal(body)
    ensures body != "" && body[0] != '/' && !StartsWith(body, SNOW_PREFIX)
  {
    NormalFirst(body);
    if StartsWith(body, SNOW_PREFIX) {
      var y := body[|SNOW_PREFIX|..];
      assert body == "snow:" + "/" + ("/" + y);
      NormalSides("snow:", "/" + y);
      NormalFirst("/" + y);
    }
  }

  predicate EndsInPart(parts: seq<string>) { parts != [] && parts[|parts| - 1] != "" }

  lemma EndsInLast(first: string, rest: seq<string>)
    requires EndsInPart(rest)
    ensures EndsInPart([first] + rest)
  {
    assert ([first] + rest)[|rest|] == rest[|rest| - 1];
  }

  lemma {:induction false} LastPartNotEmpty(s: string, start: nat, afterCut: bool)
    requires start < |s|
    ensures EndsInPart(ComponentsFrom(s, start, afterCut))
    decreases |s| - start
  {
    var p := NextCut(s, start, afterCut);
    if p + 1 < |s| {
      LastPartNotEmpty(s, p + 1, true);
      EndsInLast(s[start..p], ComponentsFrom(s, p + 1, true));
    } else {
      assert s[start..] != "";
    }
  }

  lemma {:induction false} JoinNotEmpty(parts: seq<string>)
    requires parts != [] && parts[|parts| - 1] != ""
    ensures JoinSlash(parts) != ""
  {
    if |parts| > 1 { JoinNotEmpty(parts[1..]); }
  }

  /** The first three of several parts set apart. */
  lemma JoinThree(a: string, b: string, c: string, rest: seq<string>)
    ensures JoinSlash([a] + ([b] + ([c] + rest)))
         == a + "/" + (if rest == [] then b + "/" + c else b + "/" + c + "/" + JoinSlash(rest))
  {
    JoinCons(a, [b] + ([c] + rest));
    JoinCons(b, [c] + rest);
    if rest == [] {
      assert [c] + rest == [c];
    } else {
      JoinCons(c, rest);
      Glue(b, c, JoinSlash(rest));
    }
  }

  /** The three fields a git path is parsed into, put back together. */
  lemma FieldsSpell(body: string)
    requires |Components(body)| >= 3
    ensures var parts := Components(body);
            var path := JoinSlash(parts[3..]);
            && (path == "" <==> |parts| == 3)
            && body == parts[0] + "/" + (if path == "" then parts[1] + "/" + parts[2]
                                         else parts[1] + "/" + parts[2] + "/" + path)
  {
    var parts := Components(body);
    var rest := parts[3..];
    JoinComponents(body, 0, false);
    assert body[0..] == body;
    assert parts == [parts[0]] + ([parts[1]] + ([parts[2]] + rest));
    JoinThree(parts[0], parts[1], parts[2], rest);
    if rest != [] {
      LastPartNotEmpty(body, 0, false);
      JoinNotEmpty(rest);
    }
  }

  /** The printed path of a parsed normal body, before prefix and trailing slash. */
  function PrintedPath(stage: string, ref: string, path: string): PurePath {
    var p := ParsePath(stage).Join(ParsePath(ref));
    if path == "" then p else p.Join(ParsePath(path))
  }

  lemma PrintedPathText(stage: string, ref: string, path: string)
    requires Normal(stage + "/" + (if path == "" then ref else ref + "/" + path))
    requires ref != ""
    ensures var body := stage + "/" + (if path == "" then ref else ref + "/" + path);
            && PrintedPath(stage, ref, path).Text() == WithoutTrailingSlash(body)
            && Normal(stage) && (path != "" ==> !ParsePath(path).IsDot())
  {
    var rest := if path == "" then ref else ref + "/" + path;
    NormalSides(stage, rest);
    NormalStart(stage); NormalStart(rest);
    NamesConcat(stage, rest);
    NormalNames(stage + "/" + rest);
    NormalNames(stage);
    if path != "" {
      NormalSides(ref, path);
      NormalStart(ref); NormalStart(path);
      NamesConcat(ref, path);
      NormalNames(path);
      Regroup(Names(stage), Names(ref), Names(path));
    }
  }

  predicate IsPrefix(prefix: string) { prefix == "@" || prefix == SNOW_PREFIX }

  lemma PrefixTold(prefix: string, body: string)
    requires IsPrefix(prefix)
    ensures StartsWith(prefix + body, "@") <==> prefix == "@"
    ensures StartsWith(prefix + body, SNOW_PREFIX) <==> prefix == SNOW_PREFIX
  {
    assert (prefix + body)[0] == prefix[0] && prefix <= prefix + body;
  }

  /** A name that carries no prefix itself. */
  predicate IsPlain(name: string) { name != "" && name[0] != '@' && !StartsWith(name, SNOW_PREFIX) }

  lemma PrefixedName(prefix: string, name: string, path: string, gitRef: string, trailingSlash: bool)
    requires IsPrefix(prefix) && IsPlain(name)
    ensures Prefixed(name, prefix == "@", prefix == SNOW_PREFIX) == prefix + name
    ensures NewStagePath(prefix + name, path, gitRef, trailingSlash)
         == StagePath(name, if path == "" then PurePath("", []) else ParsePath(path),
                      gitRef, trailingSlash, prefix == SNOW_PREFIX)
  {
    StripPrefix(prefix, name);
    PrefixTold(prefix, name);
    assert "@" != SNOW_PREFIX;
  }

  /** Parsing a prefixed body of at least three parts. */
  lemma ParsedGitPath(prefix: string, body: string)
    requires IsPrefix(prefix) && |Components(body)| >= 3
    requires body != "" && body[0] != '@' && IsPlain(Components(body)[0])
    ensures var parts := Components(body);
            FromGitStr(prefix + body)
            == Some(StagePath(parts[0], if |parts| == 3 then PurePath("", []) else ParsePath(JoinSlash(parts[3..])),
                              parts[1] + "/" + parts[2], EndsWithSlash(prefix + body), prefix == SNOW_PREFIX))
  {
    var parts := Components(body);
    StripPrefix(prefix, body);
    PrefixTold(prefix, body);
    FieldsSpell(body);
    PrefixedName(prefix, parts[0], JoinSlash(parts[3..]), parts[1] + "/" + parts[2], EndsWithSlash(prefix + body));
  }

  /** Printing undoes parsing: for a git path with an "@" or "snow://" in front of a normal
      body of at least three parts, absolute_path(from_git_str(s)) is s. */
  lemma GitPathRoundTrip(prefix: string, body: string)
    requires IsPrefix(prefix) && Normal(body) && !StartsWith(body, "@") && |Components(body)| >= 3
    ensures var p := FromGitStr(prefix + body);
            p.Some? && AbsolutePath(p.value) == prefix + body
  {
    var parts := Components(body);
    var stage, ref, path := parts[0], parts[1] + "/" + parts[2], JoinSlash(parts[3..]);
    FieldsSpell(body);
    PrintedPathText(stage, ref, path);
    NormalStart(body); NormalStart(stage);
    assert stage[0] == body[0];
    ParsedGitPath(prefix, body);
    var p := FromGitStr(prefix + body).value;
    var core := WithoutTrailingSlash(body);
    assert PrintedPath(stage, ref, path).Text() == core;
    NormalNames(body);
    PrefixAdded(prefix, body);
    TrailingSlash(prefix, body);
  }

  // ------------------------------------------------------------ plain stage paths

  /** str.split("/", maxsplit=1): what is before the first slash, and what is after it. */
  function BeforeSlash(s: string): string { s[..IndexFrom(s, '/', 0)] }

  function AfterSlash(s: string): string {
    var k := IndexFrom(s, '/', 0);
    if k < |s| then s[k + 1..] else ""
  }

  function RemovePrefix(s: string, prefix: string): string {
    if StartsWith(s, prefix) then s[|prefix|..] else s
  }

  /** The parts between slashes that are not empty, at most two; None when there is none. */
  function StageFields(rest: string): Option<(string, string)> {
    if BeforeSlash(rest) != "" then Some((BeforeSlash(rest), AfterSlash(rest)))
    else if AfterSlash(rest) != "" then Some((AfterSlash(rest), ""))
    else None
  }

  /** from_stage_str; None stands for its IndexError. */
  function FromStageStr(s: string): Option<StagePath> {
    var body := StripStagePrefixes(s);
    var isSnow := StartsWith(s, SNOW_PREFIX);
    var resource := if isSnow then BeforeSlash(body) else "";
    var rest := if isSnow then RemovePrefix(body, resource + "/") else body;
    match StageFields(rest)
    case None => None
    case Some((stage, path)) =>
      var stage' := if StartsWith(s, "@") then AddAt(stage) else stage;
      var stage'' := if isSnow then AddSnow(resource + "/" + stage') else stage';
      Some(NewStagePath(stage'', path, "", EndsWithSlash(rest)))
  }

  lemma NormalFields(rest: string)
    requires Normal(rest)
    ensures BeforeSlash(rest) != "" && StageFields(rest) == Some((BeforeSlash(rest), AfterSlash(rest)))
    ensures BeforeSlash(rest)[0] == rest[0]
  {
    NormalFirst(rest);
    assert IndexFrom(rest, '/', 0) > 0;
  }

  lemma SlashSides(s: string)
    ensures s == BeforeSlash(s) + "/" + AfterSlash(s) || (s == BeforeSlash(s) && AfterSlash(s) == "")
  {
    var k := IndexFrom(s, '/', 0);
    if k < |s| { CutAt(s, k); }
  }

  lemma CutAt(s: string, k: nat)
    requires k < |s| && s[k] == '/'
    ensures s == s[..k] + "/" + s[k + 1..]
  {
  }

  /** A stage name and a path, put together as AbsolutePath does. */
  function StageAndPath(stage: string, path: string): PurePath {
    if path == "" then ParsePath(stage) else ParsePath(stage).Join(ParsePath(path))
  }

  lemma StageAndPathText(stage: string, path: string, body: string)
    requires Normal(body) && (body == stage + "/" + path || (body == stage && path == ""))
    ensures StageAndPath(stage, path).Text() == WithoutTrailingSlash(body)
    ensures Normal(stage) && (path != "" ==> !ParsePath(path).IsDot())
  {
    NormalNames(body);
    NormalStart(body);
    if body != stage || path != "" {
      StageNames(stage, path);
    }
  }

  lemma StageNames(stage: string, path: string)
    requires Normal(stage + "/" + path)
    ensures Normal(stage) && StageAndPath(stage, path) == PurePath("", Names(stage + "/" + path))
    ensures path != "" ==> !ParsePath(path).IsDot()
  {
    NormalSides(stage, path);
    NormalFirst(stage);
    NamesConcat(stage, path);
    if path != "" {
      NormalFirst(path);
      NormalNames(path);
    } else {
      assert Names("") == [] by {
        assert SplitSlash("") == [""];
        TrailingPartDropped([""]);
        assert OnlyNames([""]) == [];
      }
      assert Names(stage) + [] == Names(stage);
    }
  }

  /** The text a stage path stands for, given its fields. */
  lemma StagePathPrinted(prefix: string, stage: string, path: string, body: string)
    requires IsPrefix(prefix) && Normal(body) && !StartsWith(body, "@")
    requires body == stage + "/" + path || (body == stage && path == "")
    ensures AbsolutePath(NewStagePath(prefix + stage, path, "", EndsWithSlash(body))) == prefix + body
  {
    StageAndPathText(stage, path, body);
    NormalStart(body); NormalStart(stage);
    assert stage[0] == body[0];
    PrefixedName(prefix, stage, path, "", EndsWithSlash(body));
    NormalNames(body);
    PrefixAdded(prefix, body);
    TrailingSlash(prefix, body);
  }

  /** Printing undoes parsing for every "@" path with a normal body. */
  lemma StagePathRoundTrip(body: string)
    requires Normal(body) && !StartsWith(body, "@")
    ensures var p := FromStageStr("@" + body);
            p.Some? && AbsolutePath(p.value) == "@" + body
  {
    var (stage, path) := (BeforeSlash(body), AfterSlash(body));
    NormalFirst(body);
    AtParsed(body);
    SlashSides(body);
    StagePathPrinted("@", stage, path, body);
  }

  lemma AtParsed(body: string)
    requires Normal(body) && !StartsWith(body, "@")
    ensures FromStageStr("@" + body)
         == Some(NewStagePath("@" + BeforeSlash(body), AfterSlash(body), "", EndsWithSlash(body)))
  {
    NormalFirst(body);
    StripPrefix("@", body);
    PrefixTold("@", body);
    NormalFields(body);
  }

  lemma SnowParsed(resource: string, rest: string)
    requires Normal(resource + "/" + rest) && rest != "" && '/' !in resource && !StartsWith(resource, "@")
    ensures FromStageStr(SNOW_PREFIX + (resource + "/" + rest))
         == Some(NewStagePath(SNOW_PREFIX + (resource + "/" + BeforeSlash(rest)), AfterSlash(rest), "",
                              EndsWithSlash(rest)))
  {
    var body := resource + "/" + rest;
    NormalSides(resource, rest);
    NormalFirst(resource);
    assert body[0] == resource[0];
    StripPrefix(SNOW_PREFIX, body);
    PrefixTold(SNOW_PREFIX, body);
    FirstSlashAt(resource, rest);
    PrefixRemoved(resource + "/", rest);
    NormalFields(rest);
    NotSnow(resource, rest);
  }

  lemma PrefixRemoved(prefix: string, rest: string)
    ensures RemovePrefix(prefix + rest, prefix) == rest
  {
    assert prefix <= prefix + rest && (prefix + rest)[|prefix|..] == rest;
  }

  lemma NotSnow(resource: string, rest: string)
    requires Normal(resource + "/" + rest) && rest != ""
    ensures AddSnow(resource + "/" + BeforeSlash(rest)) == SNOW_PREFIX + (resource + "/" + BeforeSlash(rest))
  {
    var (stage, path) := (BeforeSlash(rest), AfterSlash(rest));
    SlashSides(rest);
    if rest == stage + "/" + path {
      Glue(resource, stage, path);
      NormalSides(resource + "/" + stage, path);
    }
    NormalStart(resource + "/" + stage);
  }

  /** And for every "snow://" path with a resource type and something after it. */
  lemma SnowPathRoundTrip(resource: string, rest: string)
    requires Normal(resource + "/" + rest) && rest != "" && '/' !in resource && !StartsWith(resource, "@")
    ensures var p := FromStageStr(SNOW_PREFIX + (resource + "/" + rest));
            p.Some? && AbsolutePath(p.value) == SNOW_PREFIX + (resource + "/" + rest)
  {
    var body := resource + "/" + rest;
    var (stage, path) := (BeforeSlash(rest), AfterSlash(rest));
    SnowParsed(resource, rest);
    SlashSides(rest);
    Glue(resource, stage, path);
    EndsWithRest(resource + "/", rest);
    NormalSides(resource, rest);
    NormalStart(resource);
    assert body[0] == resource[0];
    StagePathPrinted(SNOW_PREFIX, resource + "/" + stage, path, body);
  }

  /** What is left after "snow://", when that is a resource type with or without a slash. */
  lemma SnowResourceTexts(resource: string)
    requires Normal(resource) && '/' !in resource && !StartsWith(resource, "@")
    ensures BeforeSlash(resource + "/") == resource && RemovePrefix(resource + "/", resource + "/") == ""
    ensures BeforeSlash(resource) == resource && AfterSlash(resource) == ""
    ensures RemovePrefix(resource, resource + "/") == resource && !EndsWithSlash(resource)
    ensures !StartsWith(resource + "/" + resource, SNOW_PREFIX)
  {
    FirstSlashAt(resource, "");
    assert resource + "/" + "" == resource + "/";
    NoSlashAtAll(resource, 0);
    OneSlash(resource);
  }

  /** The rest is needed: a "snow://" path that is only a resource type is taken for a
      stage of that type with the same name and printed as such, and with a slash after it
      for an error. */
  lemma SnowResourceAlone(resource: string)
    requires Normal(resource) && '/' !in resource && !StartsWith(resource, "@")
    ensures FromStageStr(SNOW_PREFIX + (resource + "/")) == None
    ensures FromStageStr(SNOW_PREFIX + resource)
         == Some(NewStagePath(SNOW_PREFIX + (resource + "/" + resource), "", "", false))
    ensures var text := AbsolutePath(FromStageStr(SNOW_PREFIX + resource).value);
            text == SNOW_PREFIX + (resource + "/" + resource) && text != SNOW_PREFIX + resource
  {
    PrintedTwice(resource);
    NormalStart(resource);
    StripPrefix(SNOW_PREFIX, resource);
    StripPrefix(SNOW_PREFIX, resource + "/");
    SnowResourceTexts(resource);
  }

  lemma PrintedTwice(resource: string)
    requires Normal(resource) && '/' !in resource && !StartsWith(resource, "@")
    ensures AbsolutePath(NewStagePath(SNOW_PREFIX + (resource + "/" + resource), "", "", false))
         == SNOW_PREFIX + (resource + "/" + resource) != SNOW_PREFIX + resource
  {
    NormalStart(resource);
    TwiceNormal(resource);
    assert (resource + "/" + resource)[0] == resource[0];
    StagePathPrinted(SNOW_PREFIX, resource + "/" + resource, "", resource + "/" + resource);
    assert |SNOW_PREFIX + (resource + "/" + resource)| > |SNOW_PREFIX + resource|;
  }

  lemma TwiceNormal(resource: string)
    requires Normal(resource) && '/' !in resource
    ensures Normal(resource + "/" + resource) && !EndsWithSlash(resource + "/" + resource)
  {
    SplitConcat(resource, resource);
    OnePart(resource);
    NormalStart(resource);
  }

  lemma {:induction false} OnePart(s: string)
    requires '/' !in s
    ensures SplitSlash(s) == [s]
  {
    if s != [] {
      OnePart(s[1..]);
      assert s == [s[0]] + s[1..];
    }
  }

  lemma OneSlash(resource: string)
    requires '/' !in resource
    ensures !StartsWith(resource + "/" + resource, SNOW_PREFIX)
  {
    var s := resource + "/" + resource;
    assert forall i :: 0 <= i < |s| ==> (s[i] == '/' <==> i == |resource|);
    assert SNOW_PREFIX[5] == '/' && SNOW_PREFIX[6] == '/';
  }

  lemma {:induction false} NoSlashAtAll(s: string, from: nat)
    requires from <= |s| && '/' !in s
    ensures IndexFrom(s, '/', from) == |s|
    decreases |s| - from
  {
    if from < |s| { NoSlashAtAll(s, from + 1); }
  }

  lemma FirstSlashAt(a: string, b: string)
    requires '/' !in a
    ensures IndexFrom(a + "/" + b, '/', 0) == |a| && BeforeSlash(a + "/" + b) == a
  {
    NoSlashBefore(a + "/" + b, 0, |a|);
  }

  lemma {:induction false} NoSlashBefore(s: string, from: nat, to: nat)
    requires from <= to < |s| && s[to] == '/' && forall i :: from <= i < to ==> s[i] != '/'
    ensures IndexFrom(s, '/', from) == to
    decreases |s| - from
  {
    if from < to { NoSlashBefore(s, from + 1, to); }
  }

  lemma EndsWithRest(a: string, b: string)
    requires b != ""
    ensures EndsWithSlash(a + b) == EndsWithSlash(b)
  {
  }

  lemma PrefixAdded(prefix: string, body: string)
    requires IsPrefix(prefix) && body != "" && body[0] != '@' && !StartsWith(body, SNOW_PREFIX)
    requires WithoutTrailingSlash(body) != ""
    ensures var core := WithoutTrailingSlash(body);
            (if prefix == SNOW_PREFIX then AddSnow(core) else AddAt(core)) == prefix + core
  {
    var core := WithoutTrailingSlash(body);
    assert core <= body && core[0] == body[0];
  }

  lemma StripPrefix(prefix: string, body: string)
    requires IsPrefix(prefix) && body != "" && body[0] != '@'
    ensures StripStagePrefixes(prefix + body) == body
  {
    assert (prefix + body)[0] == prefix[0] && (prefix + body)[|prefix|..] == body;
  }

  lemma TrailingSlash(prefix: string, body: string)
    requires body != "" && WithoutTrailingSlash(body) != "" && !EndsWithSlash(WithoutTrailingSlash(body))
    ensures EndsWithSlash(prefix + body) == EndsWithSlash(body)
    ensures var core := WithoutTrailingSlash(body);
            (if EndsWithSlash(body) then RStripSlash(prefix + core) + "/" else prefix + core) == prefix + body
  {
    var core := WithoutTrailingSlash(body);
    assert !EndsWithSlash(prefix + core);
    if EndsWithSlash(body) {
      assert body == core + "/";
    }
  }

  // --------------------------------------------------------- joining and prefixes

  /** joinpath, for a path that is not a file. */
  function JoinPath(p: StagePath, other: string): StagePath {
    StagePath(StripStagePrefixes(p.stageName), p.path.Join(ParsePath(LStripSlash(other))), p.gitRef, false, p.isSnow)
  }

  /** PurePosixPath(*parts) for parts of another path. */
  function FromParts(parts: seq<string>): PurePath {
    if parts != [] && (parts[0] == "/" || parts[0] == "//") then PurePath(parts[0], parts[1..]) else PurePath("", parts)
  }

  predicate IsIdentifierChar(c: char): (b: bool)
    ensures var code := c as int;
            b <==> 65 <= code < 65 + 26 || 97 <= code < 97 + 26 || 48 <= code < 48 + 10 || code == 95 || code == 36
  {
    'A' <= c <= 'Z' || 'a' <= c <= 'z' || '0' <= c <= '9' || c == '_' || c == '$'
  }

  /** The unquoted-identifier pattern; its final anchor also accepts one line feed. */
  predicate IsUnquoted(s: string): (b: bool)
    ensures b <==> |s| > 0 && IsIdentifierChar(s[0])
                   && forall i :: 0 < i < |s| ==> IsIdentifierChar(s[i]) || (i == |s| - 1 && s[i] == '\n')
  {
    var core := if s != [] && s[|s| - 1] == '\n' then s[..|s| - 1] else s;
    core != [] && forall i :: 0 <= i < |core| ==> IsIdentifierChar(core[i])
  }

  /** Two components name the same thing. */
  predicate Matches(s: string, o: string) {
    if IsUnquoted(s) && IsUnquoted(o) then Lower(s) == Lower(o) else s == o
  }

  ghost predicate AllMatch(a: seq<string>, b: seq<string>) {
    |a| == |b| && forall i :: 0 <= i < |a| ==> Matches(a[i], b[i])
  }

  /** When a path is below another, and by what. */
  ghost function RelativeParts(a: seq<string>, b: seq<string>): Option<seq<string>> {
    if |b| <= |a| && AllMatch(a[..|b|], b) then Some(a[|b|..]) else None
  }

  lemma RelativeSpelled(a: seq<string>, b: seq<string>)
    ensures RelativeParts(a, b).Some? <==> |b| <= |a| && forall i :: 0 <= i < |b| ==>
              if IsUnquoted(a[i]) && IsUnquoted(b[i]) then Lower(a[i]) == Lower(b[i]) else a[i] == b[i]
    ensures RelativeParts(a, b).Some? ==> RelativeParts(a, b).value == a[|b|..]
    ensures RelativeParts(a, b).Some? ==> FromParts(RelativeParts(a, b).value).Parts() == a[|b|..]
  {
    if |b| <= |a| {
      PartsBack(a[|b|..]);
      assert forall i :: 0 <= i < |b| ==> a[..|b|][i] == a[i];
    }
  }

  lemma PartsBack(parts: seq<string>)
    ensures FromParts(parts).Parts() == parts
  {
    if parts != [] { assert parts == [parts[0]] + parts[1..]; }
  }

  lemma NotBelow(a: seq<string>, b: seq<string>, i: nat)
    requires i < |b| <= |a| && !Matches(a[i], b[i])
    ensures RelativeParts(a, b) == None
  {
    assert a[..|b|][i] == a[i];
  }

  /** The loop of relative_to. */
  method StartMatches(a: seq<string>, b: seq<string>) returns (ok: bool)
    requires |b| <= |a|
    ensures ok <==> RelativeParts(a, b).Some?
  {
    for i := 0 to |b|
      invariant forall j :: 0 <= j < i ==> Matches(a[j], b[j])
    {
      var s, o := a[i], b[i];
      if IsUnquoted(s) && IsUnquoted(o) {
        if Lower(s) != Lower(o) {
          NotBelow(a, b, i);
          return false;
        }
      } else if s != o {
        NotBelow(a, b, i);
        return false;
      }
    }
    assert AllMatch(a[..|b|], b);
    return true;
  }

  /** relative_to; None stands for its ValueError. */
  method RelativeTo(self: StagePath, other: StagePath) returns (r: Option<PurePath>)
    ensures r == match RelativeParts(self.path.Parts(), other.path.Parts())
                 case Some(rest) => Some(FromParts(rest))
                 case None => None
    // it is below exactly when no component of the other differs, up to case if both are unquoted
    ensures var (a, b) := (self.path.Parts(), other.path.Parts());
      && (r.Some? <==> |b| <= |a| && forall i :: 0 <= i < |b| ==>
            if IsUnquoted(a[i]) && IsUnquoted(b[i]) then Lower(a[i]) == Lower(b[i]) else a[i] == b[i])
      && (r.Some? ==> r.value.Parts() == a[|b|..])
  {
    var selfParts, otherParts := self.path.Parts(), other.path.Parts();
    if |selfParts| < |otherParts| {
      return None;
    }
    var below := StartMatches(selfParts, otherParts);
    RelativeSpelled(selfParts, otherParts);
    if !below {
      return None;
    }
    var remainder := selfParts[|otherParts|..];
    if remainder != [] {
      return Some(FromParts(remainder));
    }
    return Some(PurePath("", []));
  }

  /** Matching of components is an equivalence relation. */
  lemma MatchesIsEquivalence(a: string, b: string, c: string)
    ensures Matches(a, a)
    ensures Matches(a, b) ==> Matches(b, a)
    ensures Matches(a, b) && Matches(b, c) ==> Matches(a, c)
    // it goes beyond equality exactly for two unquoted names that differ in case alone
    ensures Matches(a, b) && a != b ==> IsUnquoted(a) && IsUnquoted(b) && Lower(a) == Lower(b)
    ensures IsUnquoted(a) && IsUnquoted(b) && Lower(a) == Lower(b) ==> Matches(a, b)
  {
  }

  lemma BelowItself(base: seq<string>, n: seq<string>)
    ensures RelativeParts(base + n, base) == Some(n)
  {
    assert (base + n)[..|base|] == base && (base + n)[|base|..] == n;
  }

  lemma PlainParts(n: seq<string>)
    requires forall i :: 0 <= i < |n| ==> '/' !in n[i]
    ensures FromParts(n) == PurePath("", n)
  {
    if n != [] { assert '/' in "/" && '/' in "//"; }
  }

  lemma JoinedParts(base: PurePath, way: PurePath)
    requires way.root == ""
    ensures base.Join(way).Parts() == base.Parts() + way.names
  {
  }

  lemma WayIsPlain(q: string)
    ensures var way := ParsePath(LStripSlash(q)); way.root == "" && FromParts(way.names) == way
  {
    NoLeadingSlash(q);
    NamesHaveNoSlash(LStripSlash(q));
    PlainParts(Names(LStripSlash(q)));
  }

  /** Going down from p by q and asking for the way back to p gives q, for every q; spelled
      as it was when it is normal and has no trailing slash. */
  lemma JoinThenRelative(p: StagePath, q: string)
    ensures var way := ParsePath(LStripSlash(q));
            RelativeParts(JoinPath(p, q).path.Parts(), p.path.Parts()) == Some(way.names) && FromParts(way.names) == way
    ensures var joined := JoinPath(p, q);
            && joined.stageName == StripStagePrefixes(p.stageName) && joined.gitRef == p.gitRef
            && joined.isSnow == p.isSnow && !joined.trailingSlash
    ensures Normal(q) && !EndsWithSlash(q) ==>
              RelativeParts(JoinPath(p, q).path.Parts(), p.path.Parts()).value == Names(q)
              && FromParts(Names(q)).Text() == q
  {
    if Normal(q) {
      NormalStart(q);
      NormalNames(q);
    }
    var way := ParsePath(LStripSlash(q));
    WayIsPlain(q);
    JoinedParts(p.path, way);
    BelowItself(p.path.Parts(), way.names);
  }

  lemma {:induction false} NoLeadingSlash(q: string)
    ensures !StartsWith(LStripSlash(q), "/")
  {
    if q != [] && q[0] == '/' { NoLeadingSlash(q[1..]); }
  }

  lemma {:induction false} OnlyNamesAreParts(parts: seq<string>)
    ensures forall n :: n in OnlyNames(parts) ==> n in parts && IsName(n)
  {
    if parts != [] { OnlyNamesAreParts(parts[1..]); }
  }

  lemma NamesHaveNoSlash(s: string)
    ensures forall n :: n in Names(s) ==> '/' !in n
  {
    OnlyNamesAreParts(SplitSlash(s));
    PartsHaveNoSlash(s);
  }

  /** Being below is transitive: the remainder is something equivalent to the way from c
      to b, followed by exactly the way from b to a. */
  lemma RelativeIsTransitive(a: seq<string>, b: seq<string>, c: seq<string>)
    requires RelativeParts(a, b).Some? && RelativeParts(b, c).Some?
    ensures var x, y, z := RelativeParts(a, b), RelativeParts(b, c), RelativeParts(a, c);
            && z.Some? && |z.value| == |y.value| + |x.value|
            && z.value[|y.value|..] == x.value
            && AllMatch(z.value[..|y.value|], y.value)
  {
    forall i | 0 <= i < |c|
      ensures Matches(a[..|c|][i], c[i])
    {
      assert Matches(a[..|b|][i], b[i]) && Matches(b[..|c|][i], c[i]);
      MatchesIsEquivalence(a[i], b[i], c[i]);
    }
    var y, z := b[|c|..], a[|c|..];
    forall i | 0 <= i < |y|
      ensures Matches(z[..|y|][i], y[i])
    {
      assert Matches(a[..|b|][i + |c|], b[i + |c|]);
    }
  }
}
