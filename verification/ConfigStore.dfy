/**
 The configuration store of api/config.py: one nested table kept in two files, where
 connections.toml, when it exists, stands in for the connections table of config.toml.
 */
module ConfigStore {
  import opened Common

  datatype Toml = Text(s: string) | Number(n: int) | Flag(b: bool) | Table(entries: Tables)

  type Tables = map<string, Toml>

  type KeyPath = seq<string>

  const CONNECTIONS := "connections"

  /** Python's truth value. */
  predicate Truthy(t: Toml): (b: bool)
    ensures !b <==> (t.Text? && |t.s| == 0) || (t.Number? && t.n == 0) || (t.Flag? && !t.b)
                    || (t.Table? && t.entries.Keys == {})
  {
    match t
    case Text(s) => s != ""
    case Number(n) => n != 0
    case Flag(b) => b
    case Table(entries) => entries != map[]
  }

  datatype Error = IndexError | TypeError | ValueError | MissingConfiguration

  datatype Result<+T> = Ok(value: T) | Err(error: Error)

  // ------------------------------------------------------------ one nested table

  function Get(t: Tables, path: KeyPath): Option<Toml>
    requires path != []
    decreases |path|
  {
    if path[0] !in t then None
    else if |path| == 1 then Some(t[path[0]])
    else if t[path[0]].Table? then Get(t[path[0]].entries, path[1..])
    else None
  }

  /** The walk of set_config_value: missing tables on the way are created, and anything
      but a table on the way is an error. */
  function SetIn(t: Tables, path: KeyPath, value: Toml): Result<Tables>
    decreases |path|
  {
    if path == [] then Err(IndexError)
    else if |path| == 1 then Ok(t[path[0] := value])
    else if path[0] in t && !t[path[0]].Table? then Err(TypeError)
    else
      match SetIn(if path[0] in t then t[path[0]].entries else map[], path[1..], value)
      case Ok(child) => Ok(t[path[0] := Table(child)])
      case Err(e) => Err(e)
  }

  /** remove_key_from_nested_dict_if_exists: parents that become empty go too. The flag
      tells whether there was anything to remove. */
  function UnsetIn(t: Tables, path: KeyPath): Result<(bool, Tables)>
    decreases |path|
  {
    if path == [] then Ok((true, t))
    else if path[0] !in t then Ok((false, t))
    else if |path| == 1 then Ok((true, t - {path[0]}))
    else if !t[path[0]].Table? then Err(ValueError)
    else
      match UnsetIn(t[path[0]].entries, path[1..])
      case Err(e) => Err(e)
      case Ok((false, _)) => Ok((false, t))
      case Ok((true, child)) => Ok((true, if child == map[] then t - {path[0]} else t[path[0] := Table(child)]))
  }

  /** Neither path lies on the way to the other. */
  predicate Apart(p: KeyPath, q: KeyPath) { !(p <= q) && !(q <= p) }

  lemma {:induction false} GetAfterSet(t: Tables, path: KeyPath, value: Toml)
    requires SetIn(t, path, value).Ok?
    ensures Get(SetIn(t, path, value).value, path) == Some(value)
    decreases |path|
  {
    if |path| > 1 {
      GetAfterSet(if path[0] in t then t[path[0]].entries else map[], path[1..], value);
    }
  }

  lemma {:induction false} SetFrame(t: Tables, path: KeyPath, value: Toml, q: KeyPath)
    requires SetIn(t, path, value).Ok? && Apart(path, q) && q != []
    ensures Get(SetIn(t, path, value).value, q) == Get(t, q)
    decreases |path|
  {
    if q[0] == path[0] {
      var child: Tables := if path[0] in t then t[path[0]].entries else map[];
      assert |path| > 1 && |q| > 1 by {
        assert path == [path[0]] + path[1..] && q == [q[0]] + q[1..];
      }
      assert Apart(path[1..], q[1..]) by {
        assert path == [path[0]] + path[1..] && q == [q[0]] + q[1..];
      }
      SetFrame(child, path[1..], value, q[1..]);
    }
  }

  lemma {:induction false} SetTwice(t: Tables, path: KeyPath, v: Toml, w: Toml)
    requires SetIn(t, path, v).Ok?
    ensures SetIn(SetIn(t, path, v).value, path, w) == SetIn(t, path, w)
    decreases |path|
  {
    var key := path[0];
    if |path| == 1 {
      assert t[key := v][key := w] == t[key := w];
    } else {
      var child: Tables := if key in t then t[key].entries else map[];
      SetTwice(child, path[1..], v, w);
      var first, second := SetIn(child, path[1..], v), SetIn(child, path[1..], w);
      assert second.Ok? ==> t[key := Table(first.value)][key := Table(second.value)] == t[key := Table(second.value)];
    }
  }

  /** Setting fails exactly when something that is not a table is on the way. */
  lemma {:induction false} SetFailsExactly(t: Tables, path: KeyPath, value: Toml)
    requires path != []
    ensures SetIn(t, path, value).Err? <==>
            exists i :: 0 < i < |path| && Get(t, path[..i]).Some? && !Get(t, path[..i]).value.Table?
    decreases |path|
  {
    if |path| > 1 {
      assert path[..1] == [path[0]];
      if path[0] in t && t[path[0]].Table? {
        var child := t[path[0]].entries;
        SetFailsExactly(child, path[1..], value);
        forall i | 1 < i < |path|
          ensures Get(t, path[..i]) == Get(child, path[1..][..i - 1])
        {
          assert path[..i][1..] == path[1..][..i - 1];
        }
        if i :| 0 < i < |path[1..]| && Get(child, path[1..][..i]).Some? && !Get(child, path[1..][..i]).value.Table? {
          assert Get(t, path[..i + 1]) == Get(child, path[1..][..i]);
        }
      } else if path[0] !in t {
        SetFailsExactly(map[], path[1..], value);
        forall i | 0 < i < |path|
          ensures Get(t, path[..i]) == None
        {
        }
      }
    }
  }

  lemma {:induction false} GetAfterUnset(t: Tables, path: KeyPath)
    requires path != [] && UnsetIn(t, path).Ok?
    ensures UnsetIn(t, path).value.0 <==> Get(t, path).Some?
    ensures Get(UnsetIn(t, path).value.1, path) == None
    ensures !UnsetIn(t, path).value.0 ==> UnsetIn(t, path).value.1 == t
    decreases |path|
  {
    if |path| > 1 && path[0] in t {
      GetAfterUnset(t[path[0]].entries, path[1..]);
    }
  }

  lemma {:induction false} UnsetFrame(t: Tables, path: KeyPath, q: KeyPath)
    requires UnsetIn(t, path).Ok? && Apart(path, q) && q != []
    ensures Get(UnsetIn(t, path).value.1, q) == Get(t, q)
    decreases |path|
  {
    if q[0] == path[0] && path[0] in t {
      assert path == [path[0]] + path[1..] && q == [q[0]] + q[1..];
      assert |path| > 1 && |q| > 1;
      assert Apart(path[1..], q[1..]);
      UnsetFrame(t[path[0]].entries, path[1..], q[1..]);
    }
  }

  /** An empty table strictly above the last key of `path`. */
  ghost predicate EmptyTableOnTheWay(t: Tables, path: KeyPath) {
    exists i :: 0 < i < |path| && Get(t, path[..i]) == Some(Table(map[]))
  }

  lemma EmptyTableBelow(t: Tables, path: KeyPath)
    requires |path| > 1 && path[0] in t && t[path[0]].Table?
    ensures EmptyTableOnTheWay(t, path)
       <==> t[path[0]] == Table(map[]) || EmptyTableOnTheWay(t[path[0]].entries, path[1..])
  {
    var child := t[path[0]].entries;
    assert path[..1] == [path[0]];
    forall i | 1 < i < |path|
      ensures Get(t, path[..i]) == Get(child, path[1..][..i - 1])
    {
      assert path[..i][1..] == path[1..][..i - 1];
    }
    if i :| 0 < i < |path[1..]| && Get(child, path[1..][..i]) == Some(Table(map[])) {
      assert Get(t, path[..i + 1]) == Get(child, path[1..][..i]);
    }
    if t[path[0]] == Table(map[]) {
      assert Get(t, path[..1]) == Some(Table(map[]));
    }
  }

  /** Unsetting undoes the setting of an absent key, if and only if no empty table was on
      the way: such a table is taken for one that the removal emptied. */
  lemma {:induction false} UnsetUndoesSet(t: Tables, path: KeyPath, value: Toml)
    requires SetIn(t, path, value).Ok? && Get(t, path) == None
    ensures var u := UnsetIn(SetIn(t, path, value).value, path);
            && u.Ok? && u.value.0
            && (u.value.1 == t <==> !EmptyTableOnTheWay(t, path))
    decreases |path|
  {
    var key := path[0];
    if |path| > 1 {
      if key in t {
        var child := t[key].entries;
        UnsetUndoesSet(child, path[1..], value);
        EmptyTableBelow(t, path);
        var c := UnsetIn(SetIn(child, path[1..], value).value, path[1..]).value.1;
        var u := UnsetIn(SetIn(t, path, value).value, path).value.1;
        if c == map[] {
          assert key !in u;
        } else {
          assert u[key] == Table(c);
          if c == child { assert u == t; }
        }
      } else {
        UnsetUndoesSet(map[], path[1..], value);
        forall i | 0 < i < |path|
          ensures Get(t, path[..i]) == None && (i < |path[1..]| ==> Get(map[], path[1..][..i]) == None)
        {
        }
        var s := SetIn(t, path, value).value;
        assert s - {key} == t;
      }
    } else {
      assert t[key := value] - {key} == t;
    }
  }

  // ------------------------------------------------------------ the walks as loops

  /** Puts `child` back under the tables it was reached through. */
  function Plug(parents: seq<Tables>, keys: KeyPath, child: Tables): Tables
    requires |parents| == |keys|
    decreases |keys|
  {
    if keys == [] then child
    else
      var last := |keys| - 1;
      Plug(parents[..last], keys[..last], parents[last][keys[last] := Table(child)])
  }

  /** The same, except that a parent whose only child became empty loses it. */
  function PlugOrPrune(parents: seq<Tables>, keys: KeyPath, child: Tables): Tables
    requires |parents| == |keys|
    decreases |keys|
  {
    if keys == [] then child
    else
      var last := |keys| - 1;
      PlugOrPrune(parents[..last], keys[..last],
                  if child == map[] then parents[last] - {keys[last]} else parents[last][keys[last] := Table(child)])
  }

  /** What SetIn gives, when `rest` is what it gives for the table the walk has reached. */
  function SetSoFar(parents: seq<Tables>, keys: KeyPath, rest: Result<Tables>): Result<Tables>
    requires |parents| == |keys|
  {
    if rest.Ok? then Ok(Plug(parents, keys, rest.value)) else rest
  }

  function UnsetSoFar(t: Tables, parents: seq<Tables>, keys: KeyPath, rest: Result<(bool, Tables)>)
    : Result<(bool, Tables)>
    requires |parents| == |keys|
  {
    if rest.Err? then rest
    else if !rest.value.0 then Ok((false, t))
    else Ok((true, PlugOrPrune(parents, keys, rest.value.1)))
  }

  lemma StepIn(parents: seq<Tables>, keys: KeyPath, here: Tables, key: string, child: Tables)
    requires |parents| == |keys|
    ensures Plug(parents + [here], keys + [key], child) == Plug(parents, keys, here[key := Table(child)])
    ensures PlugOrPrune(parents + [here], keys + [key], child)
         == PlugOrPrune(parents, keys, if child == map[] then here - {key} else here[key := Table(child)])
  {
    assert (parents + [here])[..|keys|] == parents;
    assert (keys + [key])[..|keys|] == keys;
  }

  lemma SetStep(parents: seq<Tables>, keys: KeyPath, here: Tables, rest: KeyPath, value: Toml)
    requires |parents| == |keys| && |rest| > 1
    requires rest[0] in here ==> here[rest[0]].Table?
    ensures SetSoFar(parents, keys, SetIn(here, rest, value))
         == SetSoFar(parents + [here], keys + [rest[0]],
                     SetIn(if rest[0] in here then here[rest[0]].entries else map[], rest[1..], value))
  {
    var r := SetIn(if rest[0] in here then here[rest[0]].entries else map[], rest[1..], value);
    if r.Ok? {
      StepIn(parents, keys, here, rest[0], r.value);
    }
  }

  lemma UnsetStep(t: Tables, parents: seq<Tables>, keys: KeyPath, here: Tables, rest: KeyPath)
    requires |parents| == |keys| && |rest| > 1
    requires rest[0] in here && here[rest[0]].Table?
    ensures UnsetSoFar(t, parents, keys, UnsetIn(here, rest))
         == UnsetSoFar(t, parents + [here], keys + [rest[0]], UnsetIn(here[rest[0]].entries, rest[1..]))
  {
    var r := UnsetIn(here[rest[0]].entries, rest[1..]);
    if r.Ok? && r.value.0 {
      StepIn(parents, keys, here, rest[0], r.value.1);
    }
  }

  lemma OneKeyFurther<T>(path: seq<T>, i: nat)
    requires i < |path|
    ensures path[..i + 1] == path[..i] + [path[i]]
    ensures path[i..] == [path[i]] + path[i + 1..] && path[i..][1..] == path[i + 1..] && path[i..][0] == path[i]
  {
  }

  /** The loop of set_config_value; assigning through the last dictionary changes the
      whole nest, which the second loop spells out. */
  method SetNested(t: Tables, path: KeyPath, value: Toml) returns (r: Result<Tables>)
    ensures r == SetIn(t, path, value)
  {
    if path == [] { return Err(IndexError); }
    var current, parents: seq<Tables> := t, [];
    var i := 0;
    assert path[..0] == [] && path[0..] == path;
    while i < |path| - 1
      invariant 0 <= i < |path| && |parents| == i
      invariant SetIn(t, path, value) == SetSoFar(parents, path[..i], SetIn(current, path[i..], value))
    {
      var key := path[i];
      OneKeyFurther(path, i);
      if key in current && !current[key].Table? { return Err(TypeError); }
      SetStep(parents, path[..i], current, path[i..], value);
      parents := parents + [current];
      current := if key in current then current[key].entries else map[];
      i := i + 1;
    }
    assert path[i..] == [path[i]];
    current := current[path[i] := value];
    assert parents[..i] == parents;
    while i > 0
      invariant 0 <= i < |path| && i <= |parents|
      invariant SetIn(t, path, value) == Ok(Plug(parents[..i], path[..i], current))
    {
      i := i - 1;
      OneKeyFurther(path, i);
      OneKeyFurther(parents, i);
      StepIn(parents[..i], path[..i], parents[i], path[i], current);
      current := parents[i][path[i] := Table(current)];
    }
    return Ok(current);
  }

  /** The two loops of remove_key_from_nested_dict_if_exists. */
  method RemoveNested(t: Tables, path: KeyPath) returns (r: Result<(bool, Tables)>)
    ensures r == UnsetIn(t, path)
  {
    if path == [] { return Ok((true, t)); }
    var current, parents: seq<Tables> := t, [];
    var i := 0;
    assert path[..0] == [] && path[0..] == path;
    while i < |path| - 1
      invariant 0 <= i < |path| && |parents| == i
      invariant UnsetIn(t, path) == UnsetSoFar(t, parents, path[..i], UnsetIn(current, path[i..]))
    {
      var key := path[i];
      OneKeyFurther(path, i);
      if key !in current { return Ok((false, t)); }
      if !current[key].Table? { return Err(ValueError); }
      UnsetStep(t, parents, path[..i], current, path[i..]);
      parents := parents + [current];
      current := current[key].entries;
      i := i + 1;
    }
    assert path[i..] == [path[i]];
    if path[i] !in current { return Ok((false, t)); }
    assert parents[..i] == parents;
    current := current - {path[i]};
    while i > 0
      invariant 0 <= i < |path| && i <= |parents|
      invariant UnsetIn(t, path) == Ok((true, PlugOrPrune(parents[..i], path[..i], current)))
    {
      i := i - 1;
      OneKeyFurther(path, i);
      OneKeyFurther(parents, i);
      StepIn(parents[..i], path[..i], parents[i], path[i], current);
      current := if current == map[] then parents[i] - {path[i]} else parents[i][path[i] := Table(current)];
    }
    return Ok((true, current));
  }

  // ------------------------------------------------------------ two files, one table

  /** config.toml, and connections.toml when it exists. */
  datatype Files = Files(config: Tables, connections: Option<Tables>)

  /** What the configuration manager reads: connections.toml replaces the connections of
      config.toml. */
  function View(f: Files): Tables {
    match f.connections
    case None => f.config
    case Some(c) => f.config[CONNECTIONS := Table(c)]
  }

  /** `config_and_connections.get("connections") or {}`. */
  function ConnectionsToSave(view: Tables): Toml {
    if CONNECTIONS in view && Truthy(view[CONNECTIONS]) then view[CONNECTIONS] else Table(map[])
  }

  /** _dump_config. A value that is no table fails to serialise, with connections.toml
      already truncated and config.toml not yet written. */
  function Dumped(f: Files, view: Tables): (r: (Files, Option<Error>))
  {
    if f.connections.None? then (Files(view, None), None)
    else if !ConnectionsToSave(view).Table? then (f.(connections := Some(map[])), Some(TypeError))
    else
      var own := CONNECTIONS in f.config && Truthy(f.config[CONNECTIONS]);
      (Files(if own then view[CONNECTIONS := f.config[CONNECTIONS]] else view - {CONNECTIONS},
             Some(ConnectionsToSave(view).entries)), None)
  }

  /** What a write leaves in the two files themselves. connections.toml gets exactly the
      connections of the view; config.toml gets the rest of it, and keeps connections of its
      own, if any, but never gets those of the other file. */
  ghost predicate WrittenAs(before: Files, view: Tables, after: Files) {
    match before.connections
    case None => after.connections.None? && after.config == view
    case Some(_) =>
      && after.connections == Some(if "connections" in view && view["connections"].Table?
                                   then view["connections"].entries else map[])
      && ("connections" in after.config <==>
            "connections" in before.config && Truthy(before.config["connections"]))
      && ("connections" in after.config ==> after.config["connections"] == before.config["connections"])
      && forall k :: k != "connections" ==>
           (k in after.config <==> k in view) && (k in view ==> after.config[k] == view[k])
  }

  lemma DumpedIsWritten(f: Files, view: Tables)
    ensures Dumped(f, view).1 == None ==> WrittenAs(f, view, Dumped(f, view).0)
    ensures Dumped(f, view).1.Some? <==>
              f.connections.Some? && CONNECTIONS in view && Truthy(view[CONNECTIONS]) && !view[CONNECTIONS].Table?
    ensures Dumped(f, view).1.Some? ==> Dumped(f, view) == (Files(f.config, Some(map[])), Some(TypeError))
  {
    if CONNECTIONS in view && view[CONNECTIONS].Table? && !Truthy(view[CONNECTIONS]) {
      assert view[CONNECTIONS].entries == map[];
    }
  }

  datatype Command =
    | Set(path: KeyPath, value: Toml)
    | Unset(path: KeyPath)
    | AddConnection(name: string, options: Tables)
    | RemoveConnection(name: string)

  function AfterSet(f: Files, path: KeyPath, value: Toml): (Files, Option<Error>) {
    match SetIn(View(f), path, value)
    case Ok(view) => Dumped(f, view)
    case Err(e) => (f, Some(e))
  }

  function AfterUnset(f: Files, path: KeyPath): (Files, Option<Error>) {
    match UnsetIn(View(f), path)
    case Ok((_, view)) => Dumped(f, view)
    case Err(e) => (f, Some(e))
  }

  function After(f: Files, c: Command): (Files, Option<Error>) {
    match c
    case Set(path, value) => AfterSet(f, path, value)
    case Unset(path) => AfterUnset(f, path)
    case AddConnection(name, options) =>
      if f.connections.Some? then (f.(connections := Some(f.connections.value[name := Table(options)])), None)
      else AfterSet(f, [CONNECTIONS, name], Table(options))
    case RemoveConnection(name) =>
      if f.connections.None? then AfterUnset(f, [CONNECTIONS, name])
      else if name !in f.connections.value then (f, Some(MissingConfiguration))
      else (f.(connections := Some(f.connections.value - {name})), None)
  }

  class ConfigStore {
    var config: Tables
    var connections: Option<Tables>

    constructor (config: Tables, connections: Option<Tables>)
      ensures Current() == Files(config, connections)
    {
      this.config, this.connections := config, connections;
    }

    function Current(): Files
      reads this
    {
      Files(config, connections)
    }

    method Dump(view: Tables) returns (error: Option<Error>)
      modifies this
      ensures (Current(), error) == Dumped(old(Current()), view)
      ensures error.None? ==> WrittenAs(old(Current()), view, Current())
      ensures error.Some? <==> old(connections).Some? && "connections" in view && Truthy(view["connections"])
                               && !view["connections"].Table?
      ensures error.Some? ==> config == old(config) && connections == Some(map[])
    {
      DumpedIsWritten(Current(), view);
      var toConfig := view;
      if connections.Some? {
        connections := Some(map[]);
        var toConnections :=
          if CONNECTIONS in view && Truthy(view[CONNECTIONS]) then view[CONNECTIONS] else Table(map[]);
        if !toConnections.Table? { return Some(TypeError); }
        connections := Some(toConnections.entries);
        if CONNECTIONS in config && Truthy(config[CONNECTIONS]) {
          toConfig := toConfig[CONNECTIONS := config[CONNECTIONS]];
        } else {
          toConfig := toConfig - {CONNECTIONS};
        }
      }
      config := toConfig;
      return None;
    }

    method SetConfigValue(path: KeyPath, value: Toml) returns (error: Option<Error>)
      modifies this
      ensures (Current(), error) == AfterSet(old(Current()), path, value)
      ensures var changed := SetIn(match old(connections) case None => old(config)
                                                          case Some(c) => old(config)["connections" := Table(c)],
                                   path, value);
        if changed.Err? then Current() == old(Current()) && error == Some(changed.error)
        else if old(connections).Some? && path == ["connections"] && Truthy(value) && !value.Table? then
          config == old(config) && connections == Some(map[]) && error == Some(TypeError)
        else
          error.None? && WrittenAs(old(Current()), changed.value, Current())
    {
      if SetIn(View(Current()), path, value).Ok? && connections.Some? {
        SetKeepsConnectionsTable(View(Current()), path, value);
      }
      var view := View(Current());
      var changed := SetNested(view, path, value);
      if changed.Err? { return Some(changed.error); }
      error := Dump(changed.value);
    }

    method UnsetConfigValue(path: KeyPath) returns (error: Option<Error>)
      modifies this
      ensures (Current(), error) == AfterUnset(old(Current()), path)
      ensures var changed := UnsetIn(match old(connections) case None => old(config)
                                                            case Some(c) => old(config)["connections" := Table(c)],
                                     path);
        if changed.Err? then Current() == old(Current()) && error == Some(changed.error)
        else error.None? && WrittenAs(old(Current()), changed.value.1, Current())
    {
      UnsetNeverFailsHalfWay(Current(), path);
      var view := View(Current());
      var changed := RemoveNested(view, path);
      if changed.Err? { return Some(changed.error); }
      error := Dump(changed.value.1);
    }

    method AddConnectionToProperFile(name: string, options: Tables) returns (error: Option<Error>)
      modifies this
      ensures (Current(), error) == After(old(Current()), AddConnection(name, options))
    {
      if connections.Some? {
        connections := Some(connections.value[name := Table(options)]);
        return None;
      }
      error := SetConfigValue([CONNECTIONS, name], Table(options));
    }

    method RemoveConnectionFromProperFile(name: string) returns (error: Option<Error>)
      modifies this
      ensures (Current(), error) == After(old(Current()), RemoveConnection(name))
    {
      if connections.Some? {
        if name !in connections.value { return Some(MissingConfiguration); }
        connections := Some(connections.value - {name});
        return None;
      }
      error := UnsetConfigValue([CONNECTIONS, name]);
    }
  }

  /** With two files the connections entry of the view is never absent. */
  function Normalised(f: Files, view: Tables): Tables {
    if f.connections.Some? && CONNECTIONS !in view then view[CONNECTIONS := Table(map[])] else view
  }

  /** Writing a view and reading it back gives the view, exactly when its connections
      are a table or there is only one file. */
  lemma ReadBack(f: Files, view: Tables)
    ensures var (g, error) := Dumped(f, view);
            && (View(g) == Normalised(f, view) <==>
                (f.connections.Some? && CONNECTIONS in view ==> view[CONNECTIONS].Table?))
            && g.connections.Some? == f.connections.Some?
  {
    var (g, error) := Dumped(f, view);
    if f.connections.Some? {
      if CONNECTIONS in view && !view[CONNECTIONS].Table? {
        assert View(g)[CONNECTIONS].Table?;
      } else {
        assert View(g) == Normalised(f, view);
      }
    }
  }

  lemma SetKeepsConnectionsTable(t: Tables, path: KeyPath, value: Toml)
    requires SetIn(t, path, value).Ok? && CONNECTIONS in t && t[CONNECTIONS].Table?
    ensures var u := SetIn(t, path, value).value;
            CONNECTIONS in u && (u[CONNECTIONS].Table? <==> (path == [CONNECTIONS] ==> value.Table?))
  {
  }

  /** The two files refine one nested table: set_config_value changes the logical view
      exactly as it would change that table, but for one family of calls: putting something
      other than a table in place of all connections while connections.toml exists. */
  lemma SetRefinesOneTable(f: Files, path: KeyPath, value: Toml)
    requires SetIn(View(f), path, value).Ok?
    ensures View(AfterSet(f, path, value).0) == SetIn(View(f), path, value).value
       <==> !(f.connections.Some? && path == [CONNECTIONS] && !value.Table?)
  {
    ReadBack(f, SetIn(View(f), path, value).value);
    if f.connections.Some? {
      SetKeepsConnectionsTable(View(f), path, value);
    }
  }

  /** Reading after a write: the new value at the path, the old one at every path apart. */
  lemma ReadAfterSet(f: Files, path: KeyPath, value: Toml, q: KeyPath)
    requires SetIn(View(f), path, value).Ok?
    requires !(f.connections.Some? && path == [CONNECTIONS] && !value.Table?)
    requires Apart(path, q)
    ensures var g := AfterSet(f, path, value).0;
            && Get(View(g), path) == Some(value)
            && Get(View(g), q) == Get(View(f), q)
  {
    SetRefinesOneTable(f, path, value);
    GetAfterSet(View(f), path, value);
    SetFrame(View(f), path, value, q);
  }

  lemma UnsetKeepsConnectionsTable(t: Tables, path: KeyPath)
    requires UnsetIn(t, path).Ok?
    ensures var u := UnsetIn(t, path).value.1;
            CONNECTIONS in u ==> CONNECTIONS in t && (t[CONNECTIONS].Table? ==> u[CONNECTIONS].Table?)
  {
  }

  /** Unsetting refines the one table too, up to an absent against an empty connections
      table, and never fails half way. */
  lemma UnsetRefinesOneTable(f: Files, path: KeyPath)
    requires UnsetIn(View(f), path).Ok?
    ensures AfterUnset(f, path).1 == None
    ensures View(AfterUnset(f, path).0) == Normalised(f, UnsetIn(View(f), path).value.1)
  {
    ReadBack(f, UnsetIn(View(f), path).value.1);
    UnsetKeepsConnectionsTable(View(f), path);
  }

  lemma UnsetNeverFailsHalfWay(f: Files, path: KeyPath)
    ensures UnsetIn(View(f), path).Ok? ==> AfterUnset(f, path).1 == None
  {
    if UnsetIn(View(f), path).Ok? { UnsetKeepsConnectionsTable(View(f), path); }
  }

  /** With two files, a command below the connections leaves the rest of config.toml alone,
      and any other leaves connections.toml alone. */
  lemma SetTouchesOnePart(f: Files, path: KeyPath, value: Toml)
    requires f.connections.Some? && path != [] && AfterSet(f, path, value).1 == None
    ensures var g := AfterSet(f, path, value).0;
            if path[0] == "connections" then g.config - {"connections"} == f.config - {"connections"}
            else g.connections == f.connections
                 && g.config - {path[0], "connections"} == f.config - {path[0], "connections"}
  {
    var view := SetIn(View(f), path, value).value;
    DumpedIsWritten(f, view);
    assert forall k :: k != path[0] ==> (k in view <==> k in View(f)) && (k in view ==> view[k] == View(f)[k]);
  }

  lemma UnsetTouchesOnePart(f: Files, path: KeyPath)
    requires f.connections.Some? && path != [] && UnsetIn(View(f), path).Ok?
    ensures var g := AfterUnset(f, path).0;
            if path[0] == "connections" then g.config - {"connections"} == f.config - {"connections"}
            else g.connections == f.connections
                 && g.config - {path[0], "connections"} == f.config - {path[0], "connections"}
  {
    var view := UnsetIn(View(f), path).value.1;
    UnsetNeverFailsHalfWay(f, path);
    DumpedIsWritten(f, view);
    assert forall k :: k != path[0] ==> (k in view <==> k in View(f)) && (k in view ==> view[k] == View(f)[k]);
  }

  function Run(f: Files, commands: seq<Command>): Files
    decreases |commands|
  {
    if commands == [] then f else Run(After(f, commands[0]).0, commands[1..])
  }

  lemma ShadowedSurvivesOne(f: Files, c: Command)
    requires f.connections.Some?
    requires CONNECTIONS in f.config && Truthy(f.config[CONNECTIONS])
    ensures var g := After(f, c).0;
            g.connections.Some? && CONNECTIONS in g.config && g.config[CONNECTIONS] == f.config[CONNECTIONS]
  {
  }

  /** The connections of config.toml that connections.toml stands in for survive every run
      of commands, failing ones included, when there are any. */
  lemma {:induction false} ShadowedConnectionsSurvive(f: Files, commands: seq<Command>)
    requires f.connections.Some?
    requires CONNECTIONS in f.config && Truthy(f.config[CONNECTIONS])
    ensures var g := Run(f, commands);
            g.connections.Some? && CONNECTIONS in g.config && g.config[CONNECTIONS] == f.config[CONNECTIONS]
    decreases |commands|
  {
    if commands != [] {
      ShadowedSurvivesOne(f, commands[0]);
      ShadowedConnectionsSurvive(After(f, commands[0]).0, commands[1..]);
    }
  }

  lemma NothingLeaksOnce(f: Files, c: Command)
    requires f.connections.Some?
    ensures var g := After(f, c).0;
            && g.connections.Some?
            && ("connections" in g.config ==>
                  "connections" in f.config && g.config["connections"] == f.config["connections"])
  {
    match c
    case Set(path, value) =>
      if SetIn(View(f), path, value).Ok? { DumpedIsWritten(f, SetIn(View(f), path, value).value); }
    case Unset(path) =>
      if UnsetIn(View(f), path).Ok? { DumpedIsWritten(f, UnsetIn(View(f), path).value.1); }
    case _ =>
  }

  /** Over every run of commands, failing ones included, config.toml never comes to hold
      connections of connections.toml: whatever section it has is the one it had. */
  lemma {:induction false} NothingLeaks(f: Files, commands: seq<Command>)
    requires f.connections.Some?
    ensures var g := Run(f, commands);
            && g.connections.Some?
            && ("connections" in g.config ==>
                  "connections" in f.config && g.config["connections"] == f.config["connections"])
    decreases |commands|
  {
    if commands != [] {
      NothingLeaksOnce(f, commands[0]);
      NothingLeaks(After(f, commands[0]).0, commands[1..]);
    }
  }

  lemma BelowConnections(t: Tables, c: Tables, name: string, value: Toml)
    requires CONNECTIONS in t && t[CONNECTIONS] == Table(c)
    ensures SetIn(t, [CONNECTIONS, name], value) == Ok(t[CONNECTIONS := Table(c[name := value])])
    ensures UnsetIn(t, [CONNECTIONS, name]) ==
            Ok(if name !in c then (false, t)
               else (true, if c - {name} == map[] then t - {CONNECTIONS} else t[CONNECTIONS := Table(c - {name})]))
  {
    var path := [CONNECTIONS, name];
    assert path[1..] == [name];
    assert SetIn(c, path[1..], value) == Ok(c[name := value]);
    assert UnsetIn(c, path[1..]) == Ok(if name !in c then (false, c) else (true, c - {name}));
  }

  /** Adding a connection has the same logical effect with one file and with two. */
  lemma AddAgrees(one: Files, two: Files, name: string, options: Tables)
    requires one.connections.None? && two.connections.Some? && View(one) == View(two)
    ensures After(one, AddConnection(name, options)).1 == After(two, AddConnection(name, options)).1 == None
    ensures View(After(one, AddConnection(name, options)).0) == View(After(two, AddConnection(name, options)).0)
  {
    var c := two.connections.value;
    assert View(one)[CONNECTIONS] == Table(c);
    BelowConnections(View(one), c, name, Table(options));
    var g := After(two, AddConnection(name, options)).0;
    assert View(g) == View(two)[CONNECTIONS := Table(c[name := Table(options)])];
  }

  /** Removing a connection: the views stay equal exactly when other connections remain or
      there was nothing to remove; removing the last one leaves an empty table in the one
      case and none in the other. A missing name is an error only with two files. */
  lemma RemoveAgrees(one: Files, two: Files, name: string)
    requires one.connections.None? && two.connections.Some? && View(one) == View(two)
    ensures var (f, g) := (After(one, RemoveConnection(name)), After(two, RemoveConnection(name)));
            && f.1 == None && (g.1 == None <==> name in two.connections.value)
            && Normalised(two, View(f.0)) == View(g.0)
            && (View(f.0) == View(g.0) <==> two.connections.value.Keys != {name})
            && name !in g.0.connections.value
  {
    var c := two.connections.value;
    assert View(one)[CONNECTIONS] == Table(c);
    BelowConnections(View(one), c, name, Table(map[]));
    var g := After(two, RemoveConnection(name)).0;
    if name in c {
      assert View(g) == View(two)[CONNECTIONS := Table(c - {name})];
      assert c - {name} == map[] <==> c.Keys == {name} by {
        assert (c - {name}).Keys == c.Keys - {name};
        if c - {name} == map[] { assert c.Keys - {name} == {}; }
      }
    }
  }
}
