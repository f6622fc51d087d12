/**
 The version check of _app/version_check.py: a cache file with two throttles, one for
 asking the package repositories and one for showing the upgrade banner.
 */
module VersionCache {
  import opened Common

  const REFRESH_INTERVAL: real := 3600.0
  const MESSAGE_INTERVAL: real := 604800.0

  /** The JSON object in the cache file; a key may be absent. */
  datatype Cache = Cache(lastTime: Option<real>, version: Option<string>, lastTimeShown: Option<real>)

  datatype CacheFile = Missing | Garbage | Data(cache: Cache)

  /** What a package repository answers: an exception, no version, or some text. */
  datatype Reply = Raised | Nothing | Text(version: string)

  /** How version texts are read, where unreadable ones are None, and the version that is
      running. Versions are totally ordered; only their rank matters here. */
  datatype Setup = Setup(versionOf: string -> Option<int>, current: int)

  datatype Event = Refreshed(at: real, forced: bool, text: string) | BannerShown(at: real)

  datatype Repository = Brew | Pypi

  /** A question to a package repository and its answer. */
  datatype Request = Request(repository: Repository, reply: Reply)

  datatype State = State(file: CacheFile, clock: real, log: seq<Event>, asked: seq<Request>)

  const START := State(Missing, 0.0, [], [])

  datatype Command = NewVersionMsg(ignored: bool) | VersionInfo(force: bool)

  /** What the world does during one command: the clock at each of its readings, and the
      answers of the two repositories, should they be asked. */
  datatype World = World(read: real, saved: real, asked: real, shown: real, brew: Reply, pypi: Reply)

  /** The clock is positive and never goes back. */
  predicate Possible(clock: real, w: World) {
    0.0 < w.read && clock <= w.read <= w.saved <= w.asked <= w.shown
  }

  // ------------------------------------------------------------ one command

  /** `brew() or pypi()`: an exception of either is final, and so is an empty text from
      the second. */
  function Fetched(brew: Reply, pypi: Reply): Option<string> {
    match brew
    case Raised => None
    case Text(v) => if v != "" then Some(v) else FromPypi(pypi)
    case Nothing => FromPypi(pypi)
  }

  function FromPypi(pypi: Reply): Option<string> {
    if pypi.Text? then Some(pypi.version) else None
  }

  /** An answer without a version, for which `or` goes on. */
  predicate WithoutVersion(reply: Reply) { reply == Nothing || reply == Text("") }

  /** The questions of one refresh. */
  function Asks(brew: Reply, pypi: Reply): seq<Request> {
    if WithoutVersion(brew) then [Request(Brew, brew), Request(Pypi, pypi)] else [Request(Brew, brew)]
  }

  function Saved(file: CacheFile, version: string, at: real): CacheFile {
    Data(Cache(Some(at), Some(version), if file.Data? then file.cache.lastTimeShown else None))
  }

  function Shown(file: CacheFile, at: real): CacheFile {
    if file.Data? then Data(file.cache.(lastTimeShown := Some(at))) else Data(Cache(None, None, Some(at)))
  }

  datatype Source = FromCache(entry: Option<string>) | FromRepository | Unreadable

  /** Where get_last_version looks, at time `now`. */
  function LooksAt(file: CacheFile, force: bool, now: real): Source {
    if force || file.Missing? then FromRepository
    else if file.Garbage? || file.cache.lastTime.None? then Unreadable
    else if file.cache.lastTime.value > now - REFRESH_INTERVAL then FromCache(file.cache.version)
    else FromRepository
  }

  /** The text get_last_version finds. */
  function Found(file: CacheFile, force: bool, w: World): Option<string> {
    match LooksAt(file, force, w.read)
    case FromCache(entry) => entry
    case FromRepository => Fetched(w.brew, w.pypi)
    case Unreadable => None
  }

  function AsVersion(setup: Setup, text: Option<string>): Option<int> {
    if text.Some? then setup.versionOf(text.value) else None
  }

  function AfterLook(s: State, force: bool, w: World): State {
    if LooksAt(s.file, force, w.read) != FromRepository then s.(clock := w.saved)
    else
      match Fetched(w.brew, w.pypi)
      case None => s.(clock := w.saved, asked := s.asked + Asks(w.brew, w.pypi))
      case Some(text) =>
        State(Saved(s.file, text, w.saved), w.saved, s.log + [Refreshed(w.saved, force, text)],
              s.asked + Asks(w.brew, w.pypi))
  }

  predicate ShownRecently(lastTimeShown: Option<real>, now: real) {
    lastTimeShown.Some? && lastTimeShown.value != 0.0 && lastTimeShown.value >= now - MESSAGE_INTERVAL
  }

  function LastShown(file: CacheFile): Option<real> {
    if file.Data? then file.cache.lastTimeShown else None
  }

  predicate ShowsBanner(setup: Setup, s: State, w: World) {
    var v := AsVersion(setup, Found(s.file, false, w));
    v.Some? && v.value > setup.current && !ShownRecently(LastShown(AfterLook(s, false, w).file), w.asked)
  }

  function After(setup: Setup, s: State, c: Command, w: World): State {
    match c
    case VersionInfo(force) => AfterLook(s, force, w).(clock := w.shown)
    case NewVersionMsg(true) => s.(clock := w.shown)
    case NewVersionMsg(false) =>
      var looked := AfterLook(s, false, w);
      if ShowsBanner(setup, s, w)
      then State(Shown(looked.file, w.shown), w.shown, looked.log + [BannerShown(w.shown)], looked.asked)
      else looked.(clock := w.shown)
  }

  class VersionCache {
    const setup: Setup
    var file: CacheFile
    var clock: real
    ghost var log: seq<Event>
    ghost var asked: seq<Request>

    constructor (setup: Setup)
      ensures this.setup == setup && Current() == START
    {
      this.setup := setup;
      file, clock, log, asked := Missing, 0.0, [], [];
    }

    ghost function Current(): State
      reads this
    {
      State(file, clock, log, asked)
    }

    method Now() returns (t: real)
      modifies `clock
      ensures t == clock && clock >= old(clock) && clock > 0.0
    {
      var passed: real := *;
      if passed > 0.0 {
        clock := clock + passed;
      }
      if clock <= 0.0 {
        clock := 1.0;
      }
      t := clock;
    }

    /** Keeps when the banner was last shown. */
    method SaveLatestVersion(version: string, ghost forced: bool) returns (t: real)
      modifies this
      ensures t >= old(clock) && t > 0.0
      ensures Current() ==
              State(Saved(old(file), version, t), t, old(log) + [Refreshed(t, forced, version)], old(asked))
    {
      t := Now();
      var data := Cache(Some(t), Some(version), None);
      if file.Data? && file.cache.lastTimeShown.Some? {
        data := data.(lastTimeShown := file.cache.lastTimeShown);
      }
      file := Data(data);
      log := log + [Refreshed(t, forced, version)];
    }

    method UpdateLastTimeShown() returns (t: real)
      modifies this
      ensures t >= old(clock) && t > 0.0
      ensures Current() == State(Shown(old(file), t), t, old(log) + [BannerShown(t)], old(asked))
    {
      var data := if file.Data? then file.cache else Cache(None, None, None);
      t := Now();
      file := Data(data.(lastTimeShown := Some(t)));
      log := log + [BannerShown(t)];
    }

    /** _get_version_from_brew and _get_version_from_pypi; the reply is the world's. */
    method GetVersionFrom(repository: Repository, reply: Reply) returns (r: Reply)
      modifies `asked
      ensures r == reply && asked == old(asked) + [Request(repository, reply)]
    {
      asked := asked + [Request(repository, reply)];
      r := reply;
    }

    method UpdateLatestVersion(brew: Reply, pypi: Reply, ghost forced: bool) returns (text: Option<string>)
      modifies this
      ensures text == Fetched(brew, pypi)
      ensures clock >= old(clock) && asked == old(asked) + Asks(brew, pypi)
      ensures if text.Some?
              then clock > 0.0 && file == Saved(old(file), text.value, clock)
                && log == old(log) + [Refreshed(clock, forced, text.value)]
              else file == old(file) && clock == old(clock) && log == old(log)
    {
      var version := GetVersionFrom(Brew, brew);
      if version.Raised? { return None; }
      if version.Nothing? || version.version == "" {
        version := GetVersionFrom(Pypi, pypi);
      }
      if !version.Text? { return None; }
      var _ := SaveLatestVersion(version.version, forced);
      return Some(version.version);
    }

    /** get_last_version with _read_latest_version: every exception gives None. */
    method GetLastVersion(force: bool, brew: Reply, pypi: Reply)
      returns (version: Option<int>, ghost w: World, ghost text: Option<string>)
      modifies this
      ensures w == World(w.read, clock, clock, clock, brew, pypi) && Possible(old(clock), w)
      ensures Current() == AfterLook(old(Current()), force, w)
      ensures version == AsVersion(setup, Found(old(file), force, w))
      // the text is that of a cache less than an hour old, or the first that a repository has
      ensures var f := old(file);
        text ==
          if !force && (f.Garbage? || (f.Data? && f.cache.lastTime.None?)) then None
          else if !force && f.Data? && f.cache.lastTime.value > w.read - 3600.0 then f.cache.version
          else if brew.Raised? then None
          else if brew.Text? && brew.version != "" then Some(brew.version)
          else if pypi.Text? then Some(pypi.version) else None
      ensures version == if text.Some? then setup.versionOf(text.value) else None
      // without such a cache the repositories are asked in turn, and what they have is kept
      ensures var f := old(file);
        if !force && (f.Garbage? || (f.Data? && (f.cache.lastTime.None? || f.cache.lastTime.value > w.read - 3600.0)))
        then file == f && asked == old(asked) && log == old(log)
        else
          && asked == old(asked) + [Request(Brew, brew)]
                      + (if brew.Nothing? || (brew.Text? && brew.version == "") then [Request(Pypi, pypi)] else [])
          && file == (if text.None? then f
                      else Data(Cache(Some(w.saved), text, if f.Data? then f.cache.lastTimeShown else None)))
    {
      var now := Now();
      w := World(now, now, now, now, brew, pypi);
      if !force && !file.Missing? {
        if file.Garbage? || file.cache.lastTime.None? { return None, w, None; }
        if file.cache.lastTime.value > now - REFRESH_INTERVAL {
          text := file.cache.version;
          version := if file.cache.version.Some? then setup.versionOf(file.cache.version.value) else None;
          return;
        }
      }
      var fetched := UpdateLatestVersion(brew, pypi, force);
      w, text := World(now, clock, clock, clock, brew, pypi), fetched;
      version := if fetched.Some? then setup.versionOf(fetched.value) else None;
    }

    method GetNewVersionMsg(ignored: bool, brew: Reply, pypi: Reply)
      returns (newest: Option<int>, ghost w: World, ghost text: Option<string>)
      modifies this
      ensures w.brew == brew && w.pypi == pypi && Possible(old(clock), w)
      ensures Current() == After(setup, old(Current()), NewVersionMsg(ignored), w)
      ensures newest == if !ignored && ShowsBanner(setup, old(Current()), w)
                        then AsVersion(setup, Found(old(file), false, w)) else None
      ensures ignored ==> newest.None? && file == old(file) && asked == old(asked) && log == old(log)
      // a newer version is told unless one was told within the week; the telling is noted
      ensures !ignored ==> var f := old(file);
        text ==
          if (f.Garbage? || (f.Data? && f.cache.lastTime.None?)) then None
          else if f.Data? && f.cache.lastTime.value > w.read - 3600.0 then f.cache.version
          else if brew.Raised? then None
          else if brew.Text? && brew.version != "" then Some(brew.version)
          else if pypi.Text? then Some(pypi.version) else None
      ensures !ignored ==> var f := old(file);
        newest.Some? <==>
          && text.Some? && setup.versionOf(text.value).Some? && setup.versionOf(text.value).value > setup.current
          && !(f.Data? && f.cache.lastTimeShown.Some? && f.cache.lastTimeShown.value != 0.0
               && f.cache.lastTimeShown.value >= w.asked - 604800.0)
      ensures newest.Some? ==> newest == setup.versionOf(text.value)
                               && file.Data? && file.cache.lastTimeShown == Some(w.shown)
      ensures newest.None? ==> LastShown(file) == LastShown(old(file))
    {
      if ignored {
        var now := Now();
        return None, World(now, now, now, now, brew, pypi), None;
      }
      ghost var was := Current();
      var last;
      last, w, text := GetLastVersion(false, brew, pypi);
      ghost var asked';
      newest, asked' := ShowUnlessRecent(last);
      w := w.(asked := asked', shown := clock);
      assert AfterLook(was, false, w) == AfterLook(was, false, w.(asked := w.saved, shown := w.saved));
    }

    /** The banner part of get_new_version_msg, for the version that was found. */
    method ShowUnlessRecent(last: Option<int>) returns (newest: Option<int>, ghost now': real)
      modifies this
      ensures old(clock) <= now' <= clock && 0.0 < now'
      ensures newest == if last.Some? && last.value > setup.current && !ShownRecently(LastShown(old(file)), now')
                        then last else None
      ensures Current() == if newest.Some?
                           then State(Shown(old(file), clock), clock, old(log) + [BannerShown(clock)], old(asked))
                           else State(old(file), now', old(log), old(asked))
    {
      var lastTimeShown := if file.Data? then file.cache.lastTimeShown else None;
      var now := Now();
      now' := now;
      newest := None;
      if last.Some? && last.value > setup.current && !ShownRecently(lastTimeShown, now) {
        var t := UpdateLastTimeShown();
        newest := last;
      }
    }

    method GetVersionInfo(force: bool, brew: Reply, pypi: Reply)
      returns (latest: Option<int>, updateAvailable: bool, ghost w: World, ghost text: Option<string>)
      modifies this
      ensures w.brew == brew && w.pypi == pypi && Possible(old(clock), w)
      ensures Current() == After(setup, old(Current()), VersionInfo(force), w)
      ensures latest == AsVersion(setup, Found(old(file), force, w))
      ensures var f := old(file);
        text ==
          if !force && (f.Garbage? || (f.Data? && f.cache.lastTime.None?)) then None
          else if !force && f.Data? && f.cache.lastTime.value > w.read - 3600.0 then f.cache.version
          else if brew.Raised? then None
          else if brew.Text? && brew.version != "" then Some(brew.version)
          else if pypi.Text? then Some(pypi.version) else None
      ensures latest == if text.Some? then setup.versionOf(text.value) else None
      ensures updateAvailable <==> latest.Some? && latest.value > setup.current
    {
      latest, w, text := GetLastVersion(force, brew, pypi);
      updateAvailable := latest.Some? && latest.value > setup.current;
    }
  }

  // ------------------------------------------------------------ every run

  function LastRefresh(log: seq<Event>): Option<Event> {
    if log == [] then None
    else if log[|log| - 1].Refreshed? then Some(log[|log| - 1])
    else LastRefresh(log[..|log| - 1])
  }

  function LastBanner(log: seq<Event>): Option<real> {
    if log == [] then None
    else if log[|log| - 1].BannerShown? then Some(log[|log| - 1].at)
    else LastBanner(log[..|log| - 1])
  }

  predicate TimesOrdered(log: seq<Event>, clock: real) {
    && (forall i :: 0 <= i < |log| ==> 0.0 < log[i].at <= clock)
    && (forall i, j :: 0 <= i < j < |log| ==> log[i].at <= log[j].at)
  }

  /** The two throttles: banners are more than a week apart, and an unforced refresh comes
      at least an hour after any earlier one, forced or not. */
  predicate Throttled(log: seq<Event>) {
    forall i, j :: 0 <= i < j < |log| ==>
      && (log[i].BannerShown? && log[j].BannerShown? ==> log[j].at > log[i].at + MESSAGE_INTERVAL)
      && (log[i].Refreshed? && log[j].Refreshed? && !log[j].forced ==> log[j].at >= log[i].at + REFRESH_INTERVAL)
  }

  /** An existing cache file holds the version and the time of the last refresh, and no
      refresh has lost the time of the last banner. */
  predicate FileInvariant(file: CacheFile, log: seq<Event>) {
    && !file.Garbage?
    && (file.Data? ==> file.cache.lastTime.Some? && file.cache.version.Some?)
    && (file.Data? <==> LastRefresh(log).Some?)
    && (file.Data? ==>
          && LastRefresh(log).value.Refreshed?
          && Some(LastRefresh(log).value.at) == file.cache.lastTime
          && Some(LastRefresh(log).value.text) == file.cache.version)
    && LastBanner(log) == LastShown(file)
  }

  predicate Invariant(s: State) {
    TimesOrdered(s.log, s.clock) && Throttled(s.log) && FileInvariant(s.file, s.log)
  }

  lemma {:induction false} LastRefreshBounds(log: seq<Event>, clock: real)
    requires TimesOrdered(log, clock)
    ensures LastRefresh(log).Some? ==> LastRefresh(log).value.Refreshed? && 0.0 < LastRefresh(log).value.at <= clock
    ensures forall i :: 0 <= i < |log| && log[i].Refreshed? ==>
              LastRefresh(log).Some? && log[i].at <= LastRefresh(log).value.at
  {
    if log != [] {
      LastRefreshBounds(log[..|log| - 1], clock);
      assert forall i :: 0 <= i < |log| - 1 ==> log[i] == log[..|log| - 1][i];
    }
  }

  lemma {:induction false} LastBannerBounds(log: seq<Event>, clock: real)
    requires TimesOrdered(log, clock)
    ensures LastBanner(log).Some? ==> 0.0 < LastBanner(log).value <= clock
    ensures forall i :: 0 <= i < |log| && log[i].BannerShown? ==>
              LastBanner(log).Some? && log[i].at <= LastBanner(log).value
  {
    if log != [] {
      LastBannerBounds(log[..|log| - 1], clock);
      assert forall i :: 0 <= i < |log| - 1 ==> log[i] == log[..|log| - 1][i];
    }
  }

  lemma LogGrows(log: seq<Event>, clock: real, e: Event)
    requires TimesOrdered(log, clock) && e.at >= clock && e.at > 0.0
    ensures TimesOrdered(log + [e], e.at)
    ensures LastRefresh(log + [e]) == if e.Refreshed? then Some(e) else LastRefresh(log)
    ensures LastBanner(log + [e]) == if e.BannerShown? then Some(e.at) else LastBanner(log)
  {
    assert (log + [e])[..|log|] == log;
  }

  lemma RefreshKeepsThrottle(log: seq<Event>, clock: real, e: Event)
    requires TimesOrdered(log, clock) && Throttled(log) && e.Refreshed?
    requires !e.forced && LastRefresh(log).Some? ==> e.at >= LastRefresh(log).value.at + REFRESH_INTERVAL
    ensures Throttled(log + [e])
  {
    LastRefreshBounds(log, clock);
  }

  lemma BannerKeepsThrottle(log: seq<Event>, clock: real, e: Event)
    requires TimesOrdered(log, clock) && Throttled(log) && e.BannerShown?
    requires LastBanner(log).Some? ==> e.at > LastBanner(log).value + MESSAGE_INTERVAL
    ensures Throttled(log + [e])
  {
    LastBannerBounds(log, clock);
  }

  lemma LookKeepsInvariant(s: State, force: bool, w: World)
    requires Invariant(s) && Possible(s.clock, w)
    ensures Invariant(AfterLook(s, force, w))
    ensures Found(s.file, force, w).Some? ==> AfterLook(s, force, w).file.Data?
  {
    if LooksAt(s.file, force, w.read) == FromRepository && Fetched(w.brew, w.pypi).Some? {
      var e := Refreshed(w.saved, force, Fetched(w.brew, w.pypi).value);
      LogGrows(s.log, s.clock, e);
      RefreshKeepsThrottle(s.log, s.clock, e);
    }
  }

  lemma BannerKeepsInvariant(s: State, asked: real, at: real)
    requires Invariant(s) && s.file.Data? && s.clock <= at && asked <= at && 0.0 < at
    requires !ShownRecently(LastShown(s.file), asked)
    ensures Invariant(State(Shown(s.file, at), at, s.log + [BannerShown(at)], s.asked))
  {
    LastBannerBounds(s.log, s.clock);
    LogGrows(s.log, s.clock, BannerShown(at));
    BannerKeepsThrottle(s.log, s.clock, BannerShown(at));
  }

  lemma ClockKeepsInvariant(s: State, t: real)
    requires Invariant(s) && t >= s.clock
    ensures Invariant(s.(clock := t))
  {
  }

  lemma StepKeepsInvariant(setup: Setup, s: State, c: Command, w: World)
    requires Invariant(s) && Possible(s.clock, w)
    ensures Invariant(After(setup, s, c, w))
  {
    if c == NewVersionMsg(true) {
      ClockKeepsInvariant(s, w.shown);
    } else {
      var force := c.VersionInfo? && c.force;
      var looked := AfterLook(s, force, w);
      LookKeepsInvariant(s, force, w);
      assert looked.clock == w.saved;
      if c.NewVersionMsg? && ShowsBanner(setup, s, w) {
        BannerKeepsInvariant(looked, w.asked, w.shown);
      } else {
        ClockKeepsInvariant(looked, w.shown);
      }
    }
  }

  function Run(setup: Setup, s: State, commands: seq<Command>, worlds: seq<World>): State
    requires |commands| == |worlds|
    decreases |commands|
  {
    if commands == [] then s
    else After(setup, Run(setup, s, commands[..|commands| - 1], worlds[..|commands| - 1]),
               commands[|commands| - 1], worlds[|commands| - 1])
  }

  /** The world of each command starts no earlier than the one before ended. */
  predicate PossibleRun(clock: real, worlds: seq<World>) {
    && (forall i :: 0 <= i < |worlds| ==> Possible(clock, worlds[i]))
    && (forall i :: 0 < i < |worlds| ==> Possible(worlds[i - 1].shown, worlds[i]))
  }

  /** Over every run with a clock that does not go back, and whatever the repositories
      answer, both throttles hold and the cache file is sound. */
  lemma {:induction false} EveryRunThrottled(setup: Setup, commands: seq<Command>, worlds: seq<World>)
    requires |commands| == |worlds| && PossibleRun(0.0, worlds)
    ensures Invariant(Run(setup, START, commands, worlds))
    ensures Run(setup, START, commands, worlds).clock == if worlds == [] then 0.0 else worlds[|worlds| - 1].shown
    decreases |commands|
  {
    if commands != [] {
      var n := |commands| - 1;
      EveryRunThrottled(setup, commands[..n], worlds[..n]);
      StepKeepsInvariant(setup, Run(setup, START, commands[..n], worlds[..n]), commands[n], worlds[n]);
    }
  }

  /** A version answered from the cache was fetched less than an hour ago, and is the one
      that was fetched then. */
  lemma CachedVersionIsFresh(setup: Setup, commands: seq<Command>, worlds: seq<World>, w: World)
    requires |commands| == |worlds| && PossibleRun(0.0, worlds)
    requires Possible(Run(setup, START, commands, worlds).clock, w)
    requires LooksAt(Run(setup, START, commands, worlds).file, false, w.read).FromCache?
    ensures var s := Run(setup, START, commands, worlds);
            && LastRefresh(s.log).Some? && LastRefresh(s.log).value.Refreshed?
            && LastRefresh(s.log).value.at > w.read - REFRESH_INTERVAL
            && AfterLook(s, false, w).asked == s.asked
            && Found(s.file, false, w) == Some(LastRefresh(s.log).value.text)
  {
    EveryRunThrottled(setup, commands, worlds);
  }

  /** What no unforced command can get past: a file that is no JSON object, or lacks the
      time of the last check. */
  predicate Stuck(file: CacheFile) {
    file.Garbage? || (file.Data? && file.cache.lastTime.None?)
  }

  predicate Repairs(c: Command, w: World) {
    c.VersionInfo? && c.force && Fetched(w.brew, w.pypi).Some?
  }

  /** A damaged cache file silences the check until a forced refresh succeeds, and only
      that repairs it. */
  lemma {:induction false} DamageLastsUntilForced(setup: Setup, s: State, commands: seq<Command>, worlds: seq<World>)
    requires |commands| == |worlds| && Stuck(s.file)
    ensures Stuck(Run(setup, s, commands, worlds).file)
       <==> forall i :: 0 <= i < |commands| ==> !Repairs(commands[i], worlds[i])
    ensures Stuck(Run(setup, s, commands, worlds).file) ==>
              Run(setup, s, commands, worlds).file == s.file && Run(setup, s, commands, worlds).log == s.log
    decreases |commands|
  {
    if commands != [] {
      var n := |commands| - 1;
      DamageLastsUntilForced(setup, s, commands[..n], worlds[..n]);
      var before := Run(setup, s, commands[..n], worlds[..n]);
      if Stuck(before.file) {
        assert Stuck(After(setup, before, commands[n], worlds[n]).file) <==> !Repairs(commands[n], worlds[n]);
      } else {
        SoundStaysSound(setup, before, commands[n], worlds[n]);
        var i :| 0 <= i < n && Repairs(commands[..n][i], worlds[..n][i]);
        assert Repairs(commands[i], worlds[i]);
      }
    }
  }

  lemma SoundStaysSound(setup: Setup, s: State, c: Command, w: World)
    requires !Stuck(s.file)
    ensures !Stuck(After(setup, s, c, w).file)
  {
  }

  /** Whether the question after the `i`-th goes to the second repository. */
  predicate PypiNext(asked: seq<Request>, i: nat) {
    i + 1 < |asked| && asked[i + 1].repository == Pypi
  }

  /** The second repository is asked right after the first answered without a version, then
      always, and at no other time. */
  predicate AskedInTurn(asked: seq<Request>) {
    && (asked != [] ==> asked[0].repository == Brew)
    && forall i: nat :: i < |asked| ==>
         (PypiNext(asked, i) <==> asked[i].repository == Brew && WithoutVersion(asked[i].reply))
  }

  lemma AsksInTurn(asked: seq<Request>, brew: Reply, pypi: Reply)
    requires AskedInTurn(asked)
    ensures AskedInTurn(asked + Asks(brew, pypi))
  {
    var all := asked + Asks(brew, pypi);
    forall i: nat | i < |all|
      ensures PypiNext(all, i) <==> all[i].repository == Brew && WithoutVersion(all[i].reply)
    {
      if i < |asked| {
        assert i + 1 < |asked| ==> all[i + 1] == asked[i + 1];
        assert PypiNext(asked, i) ==> PypiNext(all, i);
      }
    }
  }

  /** Over every run, whatever the repositories answer, the second one is asked exactly when
      the first has just answered without a version. The comment in the source promises it
      whenever the first is not available; after an exception it is not asked. */
  lemma {:induction false} FallbackExactly(setup: Setup, s: State, commands: seq<Command>, worlds: seq<World>)
    requires |commands| == |worlds| && AskedInTurn(s.asked)
    ensures AskedInTurn(Run(setup, s, commands, worlds).asked)
    decreases |commands|
  {
    if commands != [] {
      var n := |commands| - 1;
      FallbackExactly(setup, s, commands[..n], worlds[..n]);
      AsksInTurn(Run(setup, s, commands[..n], worlds[..n]).asked, worlds[n].brew, worlds[n].pypi);
    }
  }

  /** So an unavailable first repository leaves a refresh without a version, although the
      second one has one. */
  lemma UnavailableBrewEndsTheCheck(s: State, w: World, version: string)
    requires w.brew == Raised && w.pypi == Text(version)
    ensures AfterLook(s, true, w).asked == s.asked + [Request(Brew, Raised)]
    ensures AfterLook(s, true, w).file == s.file && Found(s.file, true, w) == None
  {
  }
}
