/**
 The upload, build and teardown pipeline of _plugins/apps (commands.py, manager.py).
 The server holds stages and workspaces, and every call to it may fail.
 */
module AppPipeline {
  import opened Common

  datatype Fqn = Fqn(database: string, schema: string, name: string)

  type Path = seq<string>
  type Files = map<Path, string>

  /** A workspace is shared between apps: one subdirectory each. */
  type Workspace = map<string, Files>

  function CodeIn(w: Workspace, dir: string): Files {
    if dir in w then w[dir] else map[]
  }

  /** How a server call ends: done, a ProgrammingError, or some other exception. */
  datatype Reply = Done | ProgrammingError | OtherError

  /** How a step of the pipeline ends; CliError is the command's own error. */
  datatype Outcome = Ok | Programming | Other | CliError

  function AsOutcome(r: Reply): Outcome {
    match r case Done => Ok case ProgrammingError => Programming case OtherError => Other
  }

  datatype Location = OnStage(stage: Fqn) | InWorkspace(workspace: Fqn, dir: string)

  /** Where the code of an app lives in a storage. */
  function AtStorage(kind: StorageType, fqn: Fqn, dir: string): Location {
    if kind.WorkspaceStorage? then InWorkspace(fqn, dir) else OnStage(fqn)
  }

  /** What a run does, in order. A call to the server is logged with its reply; `made` tells
      that there had been no such stage, `jobNamed` that the build's job was named. */
  datatype Event =
    | Bundled
    | BundleCleaned
    | StageExists(fqn: Fqn, reply: Reply)
    | StageDrop(fqn: Fqn, reply: Reply)
    | StageCreate(fqn: Fqn, reply: Reply, made: bool)
    | StagePut(fqn: Fqn, reply: Reply)
    | WorkspaceCreate(fqn: Fqn, reply: Reply)
    | WorkspaceClear(fqn: Fqn, dir: string, reply: Reply)
    | WorkspacePut(fqn: Fqn, dir: string, reply: Reply)
    | RepoExists(reply: Reply, found: bool)
    | RepoCreate(reply: Reply)
    | BuildCall(source: Location, files: Files, reply: Reply, jobNamed: bool)
    | PollEnded(done: bool)

  predicate IsStageOp(e: Event) { e.StageExists? || e.StageDrop? || e.StageCreate? || e.StagePut? }

  predicate IsWorkspaceOp(e: Event) { e.WorkspaceCreate? || e.WorkspaceClear? || e.WorkspacePut? }

  predicate IsUploadOp(e: Event) { IsStageOp(e) || IsWorkspaceOp(e) }

  predicate IsCall(e: Event) { !e.Bundled? && !e.BundleCleaned? && !e.PollEnded? }

  /** A call that raised, or a build whose job cannot be told from the reply. */
  predicate Failed(e: Event) { IsCall(e) && (!e.reply.Done? || (e.BuildCall? && !e.jobNamed)) }

  /** Some of the files, when an upload was cut short. */
  function Part(files: Files, sent: set<Path>): Files
    requires sent <= files.Keys
  {
    map p | p in sent :: files[p]
  }

  lemma PartGrows(base: Files, files: Files, sent: set<Path>, p: Path)
    requires sent <= files.Keys && p in files
    ensures (base + Part(files, sent))[p := files[p]] == base + Part(files, sent + {p})
  {
  }

  lemma WholePart(files: Files)
    ensures Part(files, files.Keys) == files
  {
  }

  /** What stood there before, with some of the files put over it. */
  predicate PartlyOver(before: Files, files: Files, after: Files) {
    && before.Keys <= after.Keys
    && forall p :: p in after ==> (p in files && after[p] == files[p]) || (p in before && after[p] == before[p])
  }

  /** What dropping a stage leaves: one that the role cannot see stays. */
  function Dropped(stages: map<Fqn, Files>, visible: set<Fqn>, f: Fqn): map<Fqn, Files> {
    if f in visible then stages - {f} else stages
  }

  class Server {
    var stages: map<Fqn, Files>
    var visible: set<Fqn>  // the names under which the role can see, and use, a stage
    var workspaces: map<Fqn, Workspace>
    ghost var log: seq<Event>

    /** The code at a location, as far as the role can read it. */
    ghost function LocationFiles(l: Location): Files
      reads `stages, `visible, `workspaces
    {
      match l
      case OnStage(f) => if f in stages && f in visible then stages[f] else map[]
      case InWorkspace(f, dir) => if f in workspaces then CodeIn(workspaces[f], dir) else map[]
    }

    /** SHOW STAGES lists the stages the role can see. */
    method CheckStageExists(f: Fqn) returns (reply: Reply, exists_: bool)
      modifies `log
      ensures log == old(log) + [StageExists(f, reply)]
      ensures exists_ == (f in stages && f in visible)
    {
      reply := *;
      exists_ := f in stages && f in visible;
      log := log + [StageExists(f, reply)];
    }

    method DropStageIfExists(f: Fqn) returns (reply: Reply)
      modifies `stages, `log
      ensures log == old(log) + [StageDrop(f, reply)]
      ensures stages == if reply.Done? then Dropped(old(stages), visible, f) else old(stages)
    {
      reply := *;
      if reply.Done? && f in visible {
        stages := stages - {f};
      }
      log := log + [StageDrop(f, reply)];
    }

    /** CREATE STAGE IF NOT EXISTS; the role sees what it creates. */
    method CreateStage(f: Fqn) returns (reply: Reply)
      modifies `stages, `visible, `log
      ensures log == old(log) + [StageCreate(f, reply, reply.Done? && f !in old(stages))]
      ensures stages == if reply.Done? && f !in old(stages) then old(stages)[f := map[]] else old(stages)
      ensures visible == if reply.Done? && f !in old(stages) then old(visible) + {f} else old(visible)
    {
      reply := *;
      log := log + [StageCreate(f, reply, reply.Done? && f !in stages)];
      if reply.Done? && f !in stages {
        stages := stages[f := map[]];
        visible := visible + {f};
      }
    }

    /** One PUT for each file, several at a time and in any order. When one fails, any
        of the others may or may not have been sent. A stage the role cannot see takes
        none. */
    method UploadToStage(files: Files, f: Fqn) returns (reply: Reply)
      requires f in stages
      modifies `stages, `log
      ensures log == old(log) + [StagePut(f, reply)]
      ensures f in stages && stages == old(stages)[f := stages[f]]
      ensures f !in visible ==> stages == old(stages) && (reply.Done? ==> files == map[])
      ensures PartlyOver(old(stages)[f], files, stages[f])
      ensures reply.Done? && f in visible ==> stages[f] == old(stages)[f] + files
    {
      reply := Done;
      var rest := files.Keys;
      ghost var sent := {};
      assert old(stages)[f] + Part(files, sent) == old(stages)[f];
      while rest != {}
        invariant rest <= files.Keys && sent <= files.Keys && log == old(log)
        invariant stages == old(stages)[f := old(stages)[f] + Part(files, sent)]
        invariant reply.Done? ==> sent == files.Keys - rest
        invariant f !in visible ==> sent == {}
      {
        var p :| p in rest;
        rest := rest - {p};
        var r: Reply := *;
        if r.Done? && f !in visible {
          r := ProgrammingError;
        }
        if r.Done? {
          PartGrows(old(stages)[f], files, sent, p);
          stages := stages[f := stages[f][p := files[p]]];
          sent := sent + {p};
        } else if reply.Done? {
          reply := r;
        }
      }
      log := log + [StagePut(f, reply)];
      if f !in visible {
        assert stages == old(stages);
      }
      if reply.Done? {
        assert sent == files.Keys;
        WholePart(files);
        assert Part(files, sent) == files;
      }
    }

    /** CREATE WORKSPACE IF NOT EXISTS, then ADD LIVE VERSION, whose "already has one"
        error is ignored. */
    method CreateWorkspace(f: Fqn) returns (reply: Reply)
      modifies `workspaces, `log
      ensures log == old(log) + [WorkspaceCreate(f, reply)]
      ensures reply.Done? ==> f in workspaces
      ensures workspaces == old(workspaces) || (f !in old(workspaces) && workspaces == old(workspaces)[f := map[]])
    {
      reply := *;
      if reply.Done? {
        if f !in workspaces {
          workspaces := workspaces[f := map[]];
        }
        reply := *;
        var alreadyLive: bool := *;
        if reply.ProgrammingError? && alreadyLive {
          reply := Done;
        }
      }
      log := log + [WorkspaceCreate(f, reply)];
    }

    /** REMOVE of one subdirectory; fails when there is no such workspace. */
    method ClearWorkspaceSubdirectory(f: Fqn, dir: string) returns (reply: Reply)
      modifies `workspaces, `log
      ensures log == old(log) + [WorkspaceClear(f, dir, reply)]
      ensures reply.Done? ==> f in old(workspaces) && workspaces == old(workspaces)[f := old(workspaces)[f] - {dir}]
      ensures !reply.Done? ==> workspaces == old(workspaces)
    {
      reply := *;
      if reply.Done? && f !in workspaces {
        reply := ProgrammingError;
      }
      if reply.Done? {
        workspaces := workspaces[f := workspaces[f] - {dir}];
      }
      log := log + [WorkspaceClear(f, dir, reply)];
    }

    method UploadToWorkspace(files: Files, f: Fqn, dir: string) returns (reply: Reply)
      requires f in workspaces
      modifies `workspaces, `log
      ensures log == old(log) + [WorkspacePut(f, dir, reply)]
      ensures f in workspaces && workspaces == old(workspaces)[f := workspaces[f]]
      ensures workspaces[f] - {dir} == old(workspaces)[f] - {dir}
      ensures PartlyOver(CodeIn(old(workspaces)[f], dir), files, CodeIn(workspaces[f], dir))
      ensures reply.Done? ==> CodeIn(workspaces[f], dir) == CodeIn(old(workspaces)[f], dir) + files
    {
      reply := Done;
      var rest := files.Keys;
      ghost var sent := {};
      ghost var base := CodeIn(workspaces[f], dir);
      assert base + Part(files, sent) == base;
      while rest != {}
        invariant rest <= files.Keys && sent <= files.Keys && log == old(log)
        invariant f in workspaces && workspaces == old(workspaces)[f := workspaces[f]]
        invariant workspaces[f] - {dir} == old(workspaces)[f] - {dir}
        invariant CodeIn(workspaces[f], dir) == base + Part(files, sent)
        invariant reply.Done? ==> sent == files.Keys - rest
      {
        var p :| p in rest;
        rest := rest - {p};
        var r: Reply := *;
        if r.Done? {
          PartGrows(base, files, sent, p);
          var w := workspaces[f];
          workspaces := workspaces[f := w[dir := CodeIn(w, dir)[p := files[p]]]];
          assert workspaces[f] - {dir} == w - {dir};
          sent := sent + {p};
        } else if reply.Done? {
          reply := r;
        }
      }
      log := log + [WorkspacePut(f, dir, reply)];
      if reply.Done? {
        assert sent == files.Keys;
        WholePart(files);
        assert Part(files, sent) == files;
      }
    }
  }

  // -------------------------------------------------- choosing the code storage

  datatype StorageType = WorkspaceStorage | StageStorage

  datatype CodeStorageRef = CodeStorageRef(name: string, database: Option<string>, schema: Option<string>)

  datatype CodeStorage = CodeStorage(kind: StorageType, name: string, database: Option<string>, schema: Option<string>)

  const DEFAULT_WORKSPACE_NAME := "SNOWFLAKE_APPS"

  function OrElse(o: Option<string>, default: string): string {
    if o.Some? && o.value != "" then o.value else default
  }

  /** _resolve_code_storage; `personal` tells a personal database, `canCreate` is the
      optional probe of the CREATE WORKSPACE privilege. */
  function ResolveCodeStorage(codeWorkspace: Option<CodeStorageRef>, codeStage: Option<CodeStorageRef>,
                              database: string, schema: string, appName: string,
                              personal: string -> bool, canCreate: Option<bool>): CodeStorage
  {
    if codeWorkspace.Some? then
      CodeStorage(WorkspaceStorage, codeWorkspace.value.name, codeWorkspace.value.database, codeWorkspace.value.schema)
    else if codeStage.Some? then
      CodeStorage(StageStorage, codeStage.value.name, codeStage.value.database, codeStage.value.schema)
    else if personal(database) || (canCreate == Some(true) && database != "" && schema != "") then
      CodeStorage(WorkspaceStorage, DEFAULT_WORKSPACE_NAME, None, None)
    else
      CodeStorage(StageStorage, appName + "_CODE", None, None)
  }

  function StorageFqn(storage: CodeStorage, database: string, schema: string): Fqn {
    Fqn(OrElse(storage.database, database), OrElse(storage.schema, schema), storage.name)
  }

  function FallbackFqn(database: string, schema: string, appName: string): Fqn {
    Fqn(database, schema, appName + "_CODE")
  }

  // -------------------------------------------------------------------- upload

  ghost predicate StageOpsOnly(log: seq<Event>, from: nat, f: Fqn) {
    forall i :: from <= i < |log| ==> IsStageOp(log[i]) && log[i].fqn == f
  }

  ghost predicate WorkspaceOpsOnly(log: seq<Event>, from: nat) {
    forall i :: from <= i < |log| ==> IsWorkspaceOp(log[i])
  }

  ghost predicate NoStageOps(log: seq<Event>, from: nat) {
    forall i :: from <= i < |log| ==> !IsStageOp(log[i])
  }

  ghost predicate UploadOpsOnly(log: seq<Event>, from: nat) {
    forall i :: from <= i < |log| ==> IsUploadOp(log[i])
  }

  /** A step that ends with the first call that fails, if any does. */
  ghost predicate StopsAtFailure(log: seq<Event>, from: nat) {
    from < |log| && forall i :: from <= i < |log| - 1 ==> !Failed(log[i])
  }

  function Last(log: seq<Event>): Event
    requires log != []
  {
    log[|log| - 1]
  }

  /** An event from `from` on. */
  ghost predicate Since(log: seq<Event>, from: nat, e: Event) {
    exists i :: from <= i < |log| && log[i] == e
  }

  /** There was no such stage, and it was created from `from` on. */
  ghost predicate MadeHere(log: seq<Event>, from: nat, f: Fqn) {
    Since(log, from, StageCreate(f, Done, true))
  }

  /** How an upload ends whose last call this is: a stage or workspace that cannot be made
      ready is an error of the command's own, except where a stage can be used instead. */
  function UploadOutcome(last: Event, personal: bool): Outcome
    requires IsUploadOp(last)
  {
    if last.reply.ProgrammingError? && !last.StagePut? && !last.WorkspacePut? && (IsStageOp(last) || personal) then
      CliError
    else
      AsOutcome(last.reply)
  }

  /** A workspace's subdirectories, none when it does not exist. */
  function SubdirectoriesOf(ws: map<Fqn, Workspace>, f: Fqn): Workspace {
    if f in ws then ws[f] else map[]
  }

  /** Nothing outside one subdirectory of one workspace has changed. */
  predicate SameElsewhere(before: map<Fqn, Workspace>, after: map<Fqn, Workspace>, f: Fqn, dir: string) {
    before - {f} == after - {f} && SubdirectoriesOf(before, f) - {dir} == SubdirectoriesOf(after, f) - {dir}
  }

  ghost predicate Cleared(log: seq<Event>, from: nat, f: Fqn, dir: string) {
    Since(log, from, WorkspaceClear(f, dir, Done))
  }

  /** What an upload leaves in its subdirectory, however it ends: the code from before, or
      part of the bundle once that was cleared away. */
  ghost predicate LeftInWorkspace(log: seq<Event>, from: nat, f: Fqn, dir: string, bundle: Files,
                                  before: map<Fqn, Workspace>, after: map<Fqn, Workspace>)
  {
    var code := CodeIn(SubdirectoriesOf(after, f), dir);
    if Cleared(log, from, f, dir) then PartlyOver(map[], bundle, code)
    else code == CodeIn(SubdirectoriesOf(before, f), dir)
  }

  /** The start of _upload_via_stage: the stage is emptied by dropping it, when the role sees
      one, and creating it again. */
  method PrepareStage(server: Server, f: Fqn) returns (reply: Reply)
    modifies server`stages, server`visible, server`log
    ensures old(server.log) < server.log && StageOpsOnly(server.log, |old(server.log)|, f)
    ensures StopsAtFailure(server.log, |old(server.log)|)
    ensures !Last(server.log).StagePut? && Last(server.log).reply == reply
    ensures server.stages - {f} == old(server.stages) - {f}
    ensures old(server.visible) <= server.visible <= old(server.visible) + {f}
    ensures f !in server.visible ==> server.stages == old(server.stages)
    ensures reply.Done? ==> f in server.stages
    ensures reply.Done? && f in server.visible ==>
      server.stages[f] == map[] && Last(server.log) == StageCreate(f, Done, true)
    ensures f !in old(server.stages) || f !in old(server.visible) ==>
      forall i :: |old(server.log)| <= i < |server.log| ==> !server.log[i].StageDrop?
  {
    var present;
    reply, present := server.CheckStageExists(f);
    if reply.Done? && present {
      reply := server.DropStageIfExists(f);
    }
    if reply.Done? {
      reply := server.CreateStage(f);
    }
  }

  /** _upload_via_stage. A stage that the role cannot see fails the upload, unless there is
      nothing to upload. */
  method UploadViaStage(server: Server, f: Fqn, bundle: Files) returns (o: Outcome)
    modifies server`stages, server`visible, server`log
    ensures old(server.log) < server.log && StageOpsOnly(server.log, |old(server.log)|, f)
    ensures StopsAtFailure(server.log, |old(server.log)|) && o == UploadOutcome(Last(server.log), false)
    ensures o == match Last(server.log).reply
                 case Done => Ok
                 case OtherError => Other
                 case ProgrammingError => if Last(server.log).StagePut? then Programming else CliError
    ensures server.stages - {f} == old(server.stages) - {f}
    ensures old(server.visible) <= server.visible <= old(server.visible) + {f}
    ensures f !in server.visible ==> server.stages == old(server.stages)
    ensures o.Ok? ==> f in server.stages && server.LocationFiles(OnStage(f)) == bundle
    ensures o.Ok? && bundle != map[] ==> f in server.visible && server.stages[f] == bundle
    // the stage is a new one, and only one that the role saw was dropped
    ensures o.Ok? && f in server.visible ==> MadeHere(server.log, |old(server.log)|, f)
    ensures f !in old(server.stages) || f !in old(server.visible) ==>
      forall i :: |old(server.log)| <= i < |server.log| ==> !server.log[i].StageDrop?
  {
    var reply := PrepareStage(server, f);
    if !reply.Done? {
      return if reply.ProgrammingError? then CliError else Other;
    }
    ghost var prepared := server.log;
    reply := server.UploadToStage(bundle, f);
    assert server.log[|prepared| - 1] == Last(prepared);
    assert map[] + bundle == bundle;
    return AsOutcome(reply);
  }

  /** The start of _upload_via_workspace: the workspace is made sure of, and only this app's
      subdirectory is cleared. */
  method PrepareWorkspace(server: Server, f: Fqn, dir: string) returns (reply: Reply)
    modifies server`workspaces, server`log
    ensures old(server.log) < server.log && WorkspaceOpsOnly(server.log, |old(server.log)|)
    ensures StopsAtFailure(server.log, |old(server.log)|)
    ensures !Last(server.log).WorkspacePut? && Last(server.log).reply == reply
    ensures SameElsewhere(old(server.workspaces), server.workspaces, f, dir)
    ensures reply.Done? ==> f in server.workspaces && CodeIn(server.workspaces[f], dir) == map[]
                            && Last(server.log) == WorkspaceClear(f, dir, Done)
    ensures !reply.Done? ==>
      && !Cleared(server.log, |old(server.log)|, f, dir)
      && SubdirectoriesOf(server.workspaces, f) == SubdirectoriesOf(old(server.workspaces), f)
  {
    reply := server.CreateWorkspace(f);
    assert SameElsewhere(old(server.workspaces), server.workspaces, f, dir);
    if reply.Done? {
      reply := server.ClearWorkspaceSubdirectory(f, dir);
    }
  }

  /** _upload_via_workspace */
  method UploadViaWorkspace(server: Server, f: Fqn, dir: string, personal: bool, bundle: Files) returns (o: Outcome)
    modifies server`workspaces, server`log
    ensures old(server.log) < server.log && WorkspaceOpsOnly(server.log, |old(server.log)|)
    ensures StopsAtFailure(server.log, |old(server.log)|) && o == UploadOutcome(Last(server.log), personal)
    ensures o == match Last(server.log).reply
                 case Done => Ok
                 case OtherError => Other
                 case ProgrammingError => if personal && !Last(server.log).WorkspacePut? then CliError else Programming
    ensures SameElsewhere(old(server.workspaces), server.workspaces, f, dir)
    ensures LeftInWorkspace(server.log, |old(server.log)|, f, dir, bundle, old(server.workspaces), server.workspaces)
    ensures o.Ok? ==> f in server.workspaces && CodeIn(server.workspaces[f], dir) == bundle
  {
    var reply := PrepareWorkspace(server, f, dir);
    if !reply.Done? {
      return if reply.ProgrammingError? && personal then CliError else AsOutcome(reply);
    }
    ghost var prepared := server.log;
    reply := server.UploadToWorkspace(bundle, f, dir);
    assert server.log[|prepared| - 1] == WorkspaceClear(f, dir, Done);
    assert map[] + bundle == bundle;
    return AsOutcome(reply);
  }

  /** Where an upload ended up. */
  datatype Upload = Upload(useWorkspace: bool, fqn: Fqn, stageCreated: bool) {
    function At(dir: string): Location {
      if useWorkspace then InWorkspace(fqn, dir) else OnStage(fqn)
    }
  }

  /** Some workspace call ended in a ProgrammingError. */
  ghost predicate WorkspaceRefused(log: seq<Event>, from: nat) {
    exists i :: from <= i < |log| && IsWorkspaceOp(log[i]) && log[i].reply.ProgrammingError?
  }

  /** The location a run's upload goes to: the storage, or the fallback stage when a
      workspace on a regular database was refused. */
  ghost function ChosenUpload(log: seq<Event>, from: nat, kind: StorageType, storageFqn: Fqn, fallback: Fqn,
                              personal: bool): Upload
  {
    if kind.StageStorage? then Upload(false, storageFqn, true)
    else if personal || !WorkspaceRefused(log, from) then Upload(true, storageFqn, false)
    else Upload(false, fallback, true)
  }

  /** A failed call after which the upload goes on with a stage. */
  predicate FallsBack(e: Event, kind: StorageType, personal: bool) {
    kind.WorkspaceStorage? && !personal && IsWorkspaceOp(e) && e.reply.ProgrammingError?
  }

  /** Whatever failed only made the upload fall back. */
  ghost predicate FailuresFallBack(log: seq<Event>, from: nat, kind: StorageType, personal: bool) {
    forall i :: from <= i < |log| && Failed(log[i]) ==> FallsBack(log[i], kind, personal)
  }

  /** What the events of an upload tell: its location and how it ended. */
  ghost predicate UploadEvents(log: seq<Event>, from: nat, kind: StorageType, storageFqn: Fqn, fallback: Fqn,
                               personal: bool, o: Outcome, u: Upload)
  {
    && from < |log| && UploadOpsOnly(log, from)
    && u == ChosenUpload(log, from, kind, storageFqn, fallback, personal)
    && o == UploadOutcome(Last(log), personal)
    && (o.Ok? <==> FailuresFallBack(log, from, kind, personal))
    && (kind.WorkspaceStorage? && personal ==> NoStageOps(log, from))
  }

  lemma StageAttempt(log: seq<Event>, from: nat, storageFqn: Fqn, fallback: Fqn, personal: bool)
    requires StageOpsOnly(log, from, storageFqn) && StopsAtFailure(log, from)
    ensures UploadEvents(log, from, StageStorage, storageFqn, fallback, personal,
                         UploadOutcome(Last(log), false), Upload(false, storageFqn, true))
  {
    assert Failed(log[|log| - 1]) <==> !UploadOutcome(Last(log), false).Ok?;
  }

  lemma WorkspaceAttempt(log: seq<Event>, from: nat, storageFqn: Fqn, fallback: Fqn, personal: bool)
    requires StopsAtFailure(log, from) && WorkspaceOpsOnly(log, from)
    requires personal || !Last(log).reply.ProgrammingError?
    ensures UploadEvents(log, from, WorkspaceStorage, storageFqn, fallback, personal,
                         UploadOutcome(Last(log), personal), Upload(true, storageFqn, false))
  {
    assert Failed(log[|log| - 1]) <==> !UploadOutcome(Last(log), personal).Ok?;
  }

  /** A refused workspace, and a stage after that. */
  lemma TwoAttempts(first: seq<Event>, log: seq<Event>, from: nat, storageFqn: Fqn, fallback: Fqn)
    requires first < log && WorkspaceOpsOnly(first, from) && StopsAtFailure(first, from)
    requires Last(first).reply.ProgrammingError?
    requires StopsAtFailure(log, |first|) && StageOpsOnly(log, |first|, fallback)
    ensures UploadEvents(log, from, WorkspaceStorage, storageFqn, fallback, false,
                         UploadOutcome(Last(log), false), Upload(false, fallback, true))
  {
    forall i | from <= i < |first| ensures IsWorkspaceOp(log[i]) && (Failed(log[i]) ==> i == |first| - 1) {
      assert log[i] == first[i];
    }
    assert log[|first| - 1] == Last(first);
    assert Failed(log[|log| - 1]) <==> !UploadOutcome(Last(log), false).Ok?;
  }

  /** A workspace on a regular database, with the fallback to a stage. */
  method UploadWithFallback(server: Server, storageFqn: Fqn, dir: string, fallback: Fqn, bundle: Files)
    returns (o: Outcome, u: Upload)
    modifies server
    ensures old(server.log) < server.log
    ensures UploadEvents(server.log, |old(server.log)|, WorkspaceStorage, storageFqn, fallback, false, o, u)
    ensures o.Ok? ==> server.LocationFiles(u.At(dir)) == bundle
    ensures o.Ok? && u.stageCreated && bundle != map[] ==> u.fqn in server.stages && u.fqn in server.visible
    ensures o.Ok? && u.stageCreated && u.fqn in server.visible ==> MadeHere(server.log, |old(server.log)|, u.fqn)
    ensures SameElsewhere(old(server.workspaces), server.workspaces, storageFqn, dir)
    ensures LeftInWorkspace(server.log, |old(server.log)|, storageFqn, dir, bundle,
                            old(server.workspaces), server.workspaces)
    ensures server.stages - {fallback} == old(server.stages) - {fallback}
  {
    o := UploadViaWorkspace(server, storageFqn, dir, false, bundle);
    u := Upload(true, storageFqn, false);
    ghost var first := server.log;
    if o.Programming? {
      o := UploadViaStage(server, fallback, bundle);
      u := Upload(false, fallback, true);
      TwoAttempts(first, server.log, |old(server.log)|, storageFqn, fallback);
      StillCleared(first, server.log, |old(server.log)|, storageFqn, dir);
    } else {
      WorkspaceAttempt(first, |old(server.log)|, storageFqn, fallback, false);
    }
  }

  lemma StillCleared(first: seq<Event>, log: seq<Event>, from: nat, f: Fqn, dir: string)
    requires first <= log && forall i :: |first| <= i < |log| ==> !IsWorkspaceOp(log[i])
    ensures Cleared(log, from, f, dir) <==> Cleared(first, from, f, dir)
  {
    assert forall i :: 0 <= i < |first| ==> log[i] == first[i];
  }

  /** _upload_app_code */
  method UploadAppCode(server: Server, kind: StorageType, storageFqn: Fqn, dir: string, fallback: Fqn,
                       personal: bool, bundle: Files)
    returns (o: Outcome, u: Upload)
    modifies server
    ensures old(server.log) < server.log
    ensures UploadEvents(server.log, |old(server.log)|, kind, storageFqn, fallback, personal, o, u)
    ensures o.Ok? ==> server.LocationFiles(u.At(dir)) == bundle
    ensures o.Ok? && u.stageCreated && bundle != map[] ==> u.fqn in server.stages && u.fqn in server.visible
    ensures o.Ok? && u.stageCreated && u.fqn in server.visible ==> MadeHere(server.log, |old(server.log)|, u.fqn)
    ensures kind.StageStorage? ==> server.workspaces == old(server.workspaces)
                                   && server.stages - {storageFqn} == old(server.stages) - {storageFqn}
                                   && IsStageOp(server.log[|old(server.log)|])
    ensures kind.WorkspaceStorage? ==>
      && SameElsewhere(old(server.workspaces), server.workspaces, storageFqn, dir)
      && LeftInWorkspace(server.log, |old(server.log)|, storageFqn, dir, bundle,
                         old(server.workspaces), server.workspaces)
      && server.stages - {fallback} == old(server.stages) - {fallback}
      && (personal ==> server.stages == old(server.stages))
  {
    if kind.StageStorage? {
      o := UploadViaStage(server, storageFqn, bundle);
      u := Upload(false, storageFqn, true);
      StageAttempt(server.log, |old(server.log)|, storageFqn, fallback, personal);
    } else if personal {
      o := UploadViaWorkspace(server, storageFqn, dir, true, bundle);
      u := Upload(true, storageFqn, false);
      WorkspaceAttempt(server.log, |old(server.log)|, storageFqn, fallback, true);
    } else {
      o, u := UploadWithFallback(server, storageFqn, dir, fallback, bundle);
    }
  }

  // ------------------------------------------------------------------- polling

  /** One poll: a status, or an exception that is not swallowed. */
  datatype Poll = Status(state: string) | Raises

  const MAX_ATTEMPTS: nat := 240

  predicate IsPending(p: Poll, done: set<string>, errors: set<string>, pending: set<string>) {
    p.Status? && p.state !in done && p.state !in errors && p.state in pending
  }

  /** A done state comes after nothing but known pending states, within the allowed attempts. */
  ghost predicate ReachesDone(poll: nat -> Poll, done: set<string>, errors: set<string>, pending: set<string>,
                              maxAttempts: nat)
  {
    exists i: nat :: i < maxAttempts && poll(i).Status? && poll(i).state in done
                     && forall j: nat :: j < i ==> IsPending(poll(j), done, errors, pending)
  }

  /** _poll_until in state-set mode */
  method PollUntil(poll: nat -> Poll, done: set<string>, errors: set<string>, pending: set<string>, maxAttempts: nat)
    returns (o: Outcome, attempts: nat)
    ensures o.Ok? <==> ReachesDone(poll, done, errors, pending, maxAttempts)
    ensures attempts <= maxAttempts
    ensures forall i :: 0 <= i < attempts - 1 ==> IsPending(poll(i), done, errors, pending)
    ensures o.Ok? <==> 0 < attempts && poll(attempts - 1).Status? && poll(attempts - 1).state in done
    ensures o.Other? <==> 0 < attempts && poll(attempts - 1).Raises?
    ensures !o.Programming?
  {
    attempts := 0;
    while attempts < maxAttempts
      invariant attempts <= maxAttempts
      invariant forall i: nat :: i < attempts ==> IsPending(poll(i), done, errors, pending)
    {
      var result := poll(attempts);
      attempts := attempts + 1;
      if result.Raises? {
        return Other, attempts;
      }
      if result.state in done {
        return Ok, attempts;
      }
      if result.state in errors || result.state !in pending {
        return CliError, attempts;
      }
    }
    return CliError, attempts;
  }

  // --------------------------------------------------------------------- build

  /** The build job comes to DONE while it is waited for: 240 polls at most, and every one
      before that finds it pending or running. */
  ghost predicate BuildDone(statuses: nat -> Poll) {
    exists i: nat :: i < 240 && statuses(i) == Status("DONE")
                     && forall j: nat :: j < i ==> statuses(j) == Status("PENDING") || statuses(j) == Status("RUNNING")
  }

  lemma WaitedForIt(statuses: nat -> Poll)
    ensures ReachesDone(statuses, {"DONE"}, {"FAILED", "IDLE"}, {"PENDING", "RUNNING"}, MAX_ATTEMPTS)
       <==> BuildDone(statuses)
  {
    forall i: nat
      ensures statuses(i).Status? && statuses(i).state in {"DONE"} <==> statuses(i) == Status("DONE")
      ensures IsPending(statuses(i), {"DONE"}, {"FAILED", "IDLE"}, {"PENDING", "RUNNING"})
              <==> statuses(i) == Status("PENDING") || statuses(i) == Status("RUNNING")
    {
    }
  }

  predicate IsDropOf(e: Event, f: Fqn) { e.StageDrop? && e.fqn == f }

  predicate IsBuildOf(e: Event, source: Location, files: Files) {
    e.BuildCall? && e.source == source && e.files == files
  }

  /** The drop of a stage right after the wait for the build ended well. */
  ghost predicate AfterDone(log: seq<Event>, from: nat, i: nat) {
    from < i < |log| && log[i].StageDrop? && log[i - 1] == PollEnded(true)
  }

  /** _drop_stage_after_build: a failure is reported and swallowed. */
  method DropStageAfterBuild(server: Server, f: Fqn) returns (dropped: bool)
    modifies server`stages, server`log
    ensures |server.log| == |old(server.log)| + 1 && old(server.log) < server.log && IsDropOf(Last(server.log), f)
    ensures dropped <==> Last(server.log).reply.Done?
    ensures server.stages == if dropped then Dropped(old(server.stages), server.visible, f) else old(server.stages)
  {
    var reply := server.DropStageIfExists(f);
    return reply.Done?;
  }

  /** The events of a build phase: the build is given `source` with these files, and the
      stage the upload created is dropped right after the wait ended well. */
  ghost predicate BuildEventsOnly(log: seq<Event>, from: nat, u: Upload, source: Location, files: Files) {
    && (forall i :: from <= i < |log| ==>
          || log[i].RepoExists? || log[i].RepoCreate? || log[i].PollEnded?
          || IsBuildOf(log[i], source, files)
          || (u.stageCreated && IsDropOf(log[i], u.fqn)))
    && (forall i :: from <= i < |log| && log[i].StageDrop? ==> AfterDone(log, from, i))
  }

  /** At the end a build was submitted, waited for until done, and followed by an attempt to
      drop the stage if the upload created one. */
  ghost predicate Completed(log: seq<Event>, from: nat, u: Upload) {
    var submitted := |log| - if u.stageCreated then 3 else 2;
    && from <= submitted
    && log[submitted].BuildCall? && !Failed(log[submitted])
    && log[submitted + 1] == PollEnded(true)
    && (u.stageCreated ==> IsDropOf(Last(log), u.fqn))
  }

  ghost predicate OneBuild(log: seq<Event>, from: nat) {
    forall i, j :: from <= i < j < |log| ==> !(log[i].BuildCall? && log[j].BuildCall?)
  }

  /** How the submission of a build ends whose last call this is. */
  function SubmitOutcome(last: Event): Outcome
    requires IsCall(last)
  {
    if last.BuildCall? && last.reply.Done? && !last.jobNamed then CliError else AsOutcome(last.reply)
  }

  /** Making sure of the artifact repository and submitting the build. A failing call may
      still have started it. */
  method SubmitBuild(server: Server, source: Location) returns (o: Outcome)
    modifies server`log
    ensures old(server.log) <= server.log && StopsAtFailure(server.log, |old(server.log)|)
    ensures forall i :: |old(server.log)| <= i < |server.log| ==>
      || server.log[i].RepoExists? || server.log[i].RepoCreate?
      || IsBuildOf(server.log[i], source, server.LocationFiles(source))
    ensures IsCall(Last(server.log)) && o == SubmitOutcome(Last(server.log))
    ensures o == match Last(server.log).reply
                 case Done => if Last(server.log).BuildCall? && Last(server.log).jobNamed then Ok else CliError
                 case OtherError => Other
                 case ProgrammingError => Programming
    ensures o.Ok? ==> Last(server.log).BuildCall?
    // the build comes last, and only once the repository is known to be there
    ensures forall i :: |old(server.log)| <= i < |server.log| && server.log[i].BuildCall? ==>
      && |old(server.log)| < i == |server.log| - 1
      && (server.log[i - 1] == RepoExists(Done, true) || server.log[i - 1] == RepoCreate(Done))
  {
    var reply: Reply := *;
    var found: bool := *;
    server.log := server.log + [RepoExists(reply, found)];
    if reply.Done? && !found {
      reply := *;
      server.log := server.log + [RepoCreate(reply)];
    }
    if !reply.Done? {
      return AsOutcome(reply);
    }
    reply := *;
    var jobNamed: bool := *;
    server.log := server.log + [BuildCall(source, server.LocationFiles(source), reply, jobNamed)];
    return if reply.Done? && !jobNamed then CliError else AsOutcome(reply);
  }

  /** Submitting a build and waiting for it. */
  method SubmitAndWait(server: Server, source: Location, statuses: nat -> Poll) returns (o: Outcome)
    modifies server`log
    ensures old(server.log) < server.log && OneBuild(server.log, |old(server.log)|)
    ensures forall i :: |old(server.log)| <= i < |server.log| ==>
      || server.log[i].RepoExists? || server.log[i].RepoCreate? || server.log[i] == PollEnded(o.Ok?)
      || IsBuildOf(server.log[i], source, server.LocationFiles(source))
    ensures o.Ok? <==>
      BuildDone(statuses) && forall i :: |old(server.log)| <= i < |server.log| ==> !Failed(server.log[i])
    ensures o.Ok? ==>
      && |old(server.log)| <= |server.log| - 2 && server.log[|server.log| - 2].BuildCall?
      && Last(server.log) == PollEnded(true)
  {
    o := SubmitBuild(server, source);
    if !o.Ok? {
      assert Failed(server.log[|server.log| - 1]);
      return;
    }
    var attempts: nat;
    o, attempts := PollUntil(statuses, {"DONE"}, {"FAILED", "IDLE"}, {"PENDING", "RUNNING"}, MAX_ATTEMPTS);
    WaitedForIt(statuses);
    server.log := server.log + [PollEnded(o.Ok?)];
  }

  /** A wait that ended well, and the attempt to drop the stage right after it. */
  lemma DropLast(first: seq<Event>, log: seq<Event>, from: nat, u: Upload, source: Location, files: Files)
    requires from <= |first| - 2 && BuildEventsOnly(first, from, u, source, files) && OneBuild(first, from)
    requires first[|first| - 2].BuildCall? && !Failed(first[|first| - 2]) && Last(first) == PollEnded(true)
    requires u.stageCreated && first < log && |log| == |first| + 1 && IsDropOf(Last(log), u.fqn)
    ensures BuildEventsOnly(log, from, u, source, files) && OneBuild(log, from) && Completed(log, from, u)
  {
    assert forall i :: 0 <= i < |first| ==> log[i] == first[i];
    forall i | from <= i < |log| && log[i].StageDrop? ensures AfterDone(log, from, i) {
      assert i < |first| ==> AfterDone(first, from, i);
    }
  }

  /** The build phase of _upload_and_build_app, on the location an upload left. */
  method BuildApp(server: Server, u: Upload, dir: string, statuses: nat -> Poll) returns (o: Outcome, dropped: bool)
    modifies server`stages, server`log
    ensures old(server.log) < server.log && OneBuild(server.log, |old(server.log)|)
    ensures BuildEventsOnly(server.log, |old(server.log)|, u, u.At(dir), old(server.LocationFiles(u.At(dir))))
    // it succeeds exactly when the build does; a drop that fails does not count
    ensures o.Ok? <==>
      && BuildDone(statuses)
      && forall i :: |old(server.log)| <= i < |server.log| && Failed(server.log[i]) ==> server.log[i].StageDrop?
    ensures o.Ok? ==> Completed(server.log, |old(server.log)|, u)
    ensures !o.Ok? ==> forall i :: |old(server.log)| <= i < |server.log| ==> server.log[i] != PollEnded(true)
    ensures dropped <==> Last(server.log) == StageDrop(u.fqn, Done)
    ensures server.stages == if dropped then Dropped(old(server.stages), server.visible, u.fqn) else old(server.stages)
    ensures dropped ==> u.stageCreated && o.Ok?
  {
    dropped := false;
    o := SubmitAndWait(server, u.At(dir), statuses);
    if o.Ok? && u.stageCreated {
      ghost var waited := server.log;
      dropped := DropStageAfterBuild(server, u.fqn);
      DropLast(waited, server.log, |old(server.log)|, u, u.At(dir), old(server.LocationFiles(u.At(dir))));
    }
  }

  // ---------------------------------------------------------------- the command

  /** The phase flags are mutually exclusive. */
  datatype Phase = Full | UploadOnly | BuildOnly | PromoteOnly {
    predicate RunUpload() { Full? || UploadOnly? }
    predicate RunBuild() { Full? || BuildOnly? }
  }

  /** At most one build is called for, and it is given `source` with these files; whatever
      touches the code after that is the dropping of the stage the run created, once the
      build is done. */
  ghost predicate BuildsOnlyFrom(log: seq<Event>, from: nat, u: Upload, source: Location, files: Files) {
    && OneBuild(log, from)
    && (forall i :: from <= i < |log| && log[i].BuildCall? ==> IsBuildOf(log[i], source, files))
    && (forall i, j :: from <= j < i < |log| && log[j].BuildCall? && IsUploadOp(log[i]) ==>
          u.stageCreated && IsDropOf(log[i], u.fqn) && AfterDone(log, from, i))
  }

  ghost predicate NothingBuilt(log: seq<Event>, from: nat) {
    forall i :: from <= i < |log| ==> !log[i].BuildCall?
  }

  /** Whatever failed only made the upload fall back, or was the drop after the build. */
  ghost predicate Harmless(log: seq<Event>, from: nat, kind: StorageType, personal: bool) {
    forall i :: from <= i < |log| && Failed(log[i]) ==> FallsBack(log[i], kind, personal) || AfterDone(log, from, i)
  }

  /** The events of an upload phase. */
  ghost predicate UploadPhase(log: seq<Event>, from: nat, mid: nat) {
    && from + 1 < mid <= |log| && log[from] == Bundled && log[mid - 1] == BundleCleaned
    && (forall i :: from < i < mid - 1 ==> IsUploadOp(log[i]))
  }

  /** A bundle was made, uploaded at most, and then cleaned up, before any build. */
  ghost predicate CleanedBeforeBuild(log: seq<Event>, from: nat) {
    && from < |log| && log[from] == Bundled
    && exists c :: from < c < |log| && log[c].BundleCleaned?
         && (forall i :: from < i < c ==> IsUploadOp(log[i]))
         && (forall i :: from <= i < |log| && log[i].BuildCall? ==> c < i)
  }

  /** What the events of an upload phase tell. */
  ghost predicate PhaseEvents(log: seq<Event>, from: nat, kind: StorageType, storageFqn: Fqn, fallback: Fqn,
                              personal: bool, o: Outcome, u: Upload)
  {
    && UploadPhase(log, from, |log|) && from < |log| - 2
    && u == ChosenUpload(log, from, kind, storageFqn, fallback, personal)
    && o == UploadOutcome(log[|log| - 2], personal)
    && (o.Ok? <==> FailuresFallBack(log, from, kind, personal))
    && (kind.WorkspaceStorage? && personal ==> NoStageOps(log, from))
  }

  /** What an upload's events tell, with its bundling and cleaning up around them. */
  lemma Bracketed(inner: seq<Event>, log: seq<Event>, from: nat, kind: StorageType, storageFqn: Fqn, fallback: Fqn,
                  personal: bool, dir: string, o: Outcome, u: Upload)
    requires from < |inner| && inner[from] == Bundled && log == inner + [BundleCleaned]
    requires UploadEvents(inner, from + 1, kind, storageFqn, fallback, personal, o, u)
    ensures PhaseEvents(log, from, kind, storageFqn, fallback, personal, o, u)
    ensures Cleared(log, from, storageFqn, dir) <==> Cleared(inner, from + 1, storageFqn, dir)
    ensures MadeHere(inner, from + 1, u.fqn) ==> MadeHere(log, from, u.fqn)
  {
    assert forall i :: 0 <= i < |inner| ==> log[i] == inner[i];
    assert WorkspaceRefused(log, from) <==> WorkspaceRefused(inner, from + 1);
  }

  /** Later events that touch no workspace leave the upload's choice as it was. */
  lemma ChoiceStands(first: seq<Event>, log: seq<Event>, from: nat, f: Fqn, dir: string, stage: Fqn)
    requires from <= |first| && first <= log && forall i :: |first| <= i < |log| ==> !IsWorkspaceOp(log[i])
    ensures WorkspaceRefused(log, from) <==> WorkspaceRefused(first, from)
    ensures Cleared(log, from, f, dir) <==> Cleared(first, from, f, dir)
    ensures MadeHere(first, from, stage) ==> MadeHere(log, from, stage)
  {
    assert forall i :: 0 <= i < |first| ==> log[i] == first[i];
  }

  lemma UploadAlone(log: seq<Event>, from: nat, u: Upload, source: Location, files: Files,
                    kind: StorageType, personal: bool)
    requires UploadPhase(log, from, |log|)
    ensures NothingBuilt(log, from) && CleanedBeforeBuild(log, from) && BuildsOnlyFrom(log, from, u, source, files)
    ensures Harmless(log, from, kind, personal) <==> FailuresFallBack(log, from, kind, personal)
  {
    assert forall i :: from <= i < |log| ==> !AfterDone(log, from, i);
  }

  lemma BuildAlone(log: seq<Event>, from: nat, u: Upload, source: Location, files: Files,
                   kind: StorageType, personal: bool)
    requires from <= |log| && BuildEventsOnly(log, from, u, source, files) && OneBuild(log, from)
    ensures BuildsOnlyFrom(log, from, u, source, files)
    ensures Harmless(log, from, kind, personal) <==>
              forall i :: from <= i < |log| && Failed(log[i]) ==> log[i].StageDrop?
  {
  }

  lemma CleanedFirst(first: seq<Event>, log: seq<Event>, from: nat)
    requires first <= log && UploadPhase(first, from, |first|)
    ensures CleanedBeforeBuild(log, from)
  {
    assert forall i :: 0 <= i < |first| ==> log[i] == first[i];
    assert log[|first| - 1].BundleCleaned?;
  }

  lemma BuildAfterUpload(first: seq<Event>, log: seq<Event>, from: nat, u: Upload, source: Location, files: Files)
    requires first <= log && UploadPhase(first, from, |first|)
    requires BuildEventsOnly(log, |first|, u, source, files) && OneBuild(log, |first|)
    ensures BuildsOnlyFrom(log, from, u, source, files)
    ensures forall i :: |first| <= i < |log| ==>
              !IsWorkspaceOp(log[i]) && (IsStageOp(log[i]) ==> u.stageCreated)
  {
    forall i | from <= i < |first| ensures !log[i].BuildCall? {
      assert log[i] == first[i];
    }
    forall i | |first| <= i < |log| && log[i].StageDrop? ensures AfterDone(log, from, i) {
      assert AfterDone(log, |first|, i);
    }
  }

  /** After an upload that succeeded, only a failure of the build itself matters. */
  lemma HarmlessBuild(first: seq<Event>, log: seq<Event>, from: nat, u: Upload, source: Location, files: Files,
                      kind: StorageType, personal: bool)
    requires from <= |first| && first <= log && FailuresFallBack(first, from, kind, personal)
    requires BuildEventsOnly(log, |first|, u, source, files)
    ensures Harmless(log, from, kind, personal) <==>
              forall i :: |first| <= i < |log| && Failed(log[i]) ==> log[i].StageDrop?
  {
    forall i | from <= i < |first| && Failed(log[i]) ensures FallsBack(log[i], kind, personal) {
      assert log[i] == first[i];
    }
    forall i | |first| <= i < |log| && log[i].StageDrop? ensures AfterDone(log, from, i) {
      assert AfterDone(log, |first|, i);
    }
  }

  /** The upload phase with its `finally`. */
  method BundleAndUpload(server: Server, kind: StorageType, storageFqn: Fqn, dir: string, fallback: Fqn,
                         personal: bool, bundle: Files)
    returns (o: Outcome, u: Upload)
    modifies server
    ensures old(server.log) < server.log
    ensures PhaseEvents(server.log, |old(server.log)|, kind, storageFqn, fallback, personal, o, u)
    ensures o.Ok? ==> server.LocationFiles(u.At(dir)) == bundle
    ensures o.Ok? && u.stageCreated && bundle != map[] ==> u.fqn in server.visible
    ensures o.Ok? && u.stageCreated && u.fqn in server.visible ==> MadeHere(server.log, |old(server.log)|, u.fqn)
    ensures server.stages - {storageFqn, fallback} == old(server.stages) - {storageFqn, fallback}
    ensures SameElsewhere(old(server.workspaces), server.workspaces, storageFqn, dir)
    ensures kind.WorkspaceStorage? ==>
      LeftInWorkspace(server.log, |old(server.log)|, storageFqn, dir, bundle, old(server.workspaces), server.workspaces)
  {
    server.log := server.log + [Bundled];
    o, u := UploadAppCode(server, kind, storageFqn, dir, fallback, personal, bundle);
    ghost var inner := server.log;
    server.log := server.log + [BundleCleaned];
    Bracketed(inner, server.log, |old(server.log)|, kind, storageFqn, fallback, personal, dir, o, u);
    SameStagesElsewhere(old(server.stages), server.stages, if kind.StageStorage? then storageFqn else fallback,
                        {storageFqn, fallback});
  }

  lemma SameStagesElsewhere(before: map<Fqn, Files>, after: map<Fqn, Files>, f: Fqn, fs: set<Fqn>)
    requires before - {f} == after - {f} && f in fs
    ensures before - fs == after - fs
  {
    assert before - fs == (before - {f}) - fs && after - fs == (after - {f}) - fs;
  }

  /** The build phase after an upload of the same run, which began at `from`. */
  method BuildUploaded(server: Server, u: Upload, dir: string, statuses: nat -> Poll, ghost bundle: Files,
                       ghost from: nat, ghost kind: StorageType, ghost personal: bool)
    returns (o: Outcome, dropped: bool)
    requires UploadPhase(server.log, from, |server.log|) && server.LocationFiles(u.At(dir)) == bundle
    requires FailuresFallBack(server.log, from, kind, personal)
    modifies server`stages, server`log
    ensures old(server.log) < server.log
    ensures CleanedBeforeBuild(server.log, from) && BuildsOnlyFrom(server.log, from, u, u.At(dir), bundle)
    ensures forall i :: |old(server.log)| <= i < |server.log| ==>
      !IsWorkspaceOp(server.log[i]) && (IsStageOp(server.log[i]) ==> u.stageCreated)
    ensures o.Ok? <==> BuildDone(statuses) && Harmless(server.log, from, kind, personal)
    ensures o.Ok? ==> Completed(server.log, from, u)
    ensures dropped <==> Last(server.log) == StageDrop(u.fqn, Done)
    ensures server.stages == if dropped then Dropped(old(server.stages), server.visible, u.fqn) else old(server.stages)
    ensures dropped ==> u.stageCreated && o.Ok?
  {
    o, dropped := BuildApp(server, u, dir, statuses);
    CleanedFirst(old(server.log), server.log, from);
    BuildAfterUpload(old(server.log), server.log, from, u, u.At(dir), bundle);
    HarmlessBuild(old(server.log), server.log, from, u, u.At(dir), bundle, kind, personal);
  }

  /** A run of _upload_and_build_app that uploads a bundle. */
  method UploadFirst(server: Server, phase: Phase, kind: StorageType, storageFqn: Fqn, dir: string, fallback: Fqn,
                     personal: bool, bundle: Files, statuses: nat -> Poll)
    returns (o: Outcome, u: Upload, dropped: bool)
    requires phase.RunUpload()
    modifies server
    ensures old(server.log) < server.log && CleanedBeforeBuild(server.log, |old(server.log)|)
    ensures u == ChosenUpload(server.log, |old(server.log)|, kind, storageFqn, fallback, personal)
    ensures o.Ok? <==>
      (phase.RunBuild() ==> BuildDone(statuses)) && Harmless(server.log, |old(server.log)|, kind, personal)
    ensures o.Ok? && phase.RunBuild() ==> Completed(server.log, |old(server.log)|, u)
    ensures BuildsOnlyFrom(server.log, |old(server.log)|, u, u.At(dir), bundle)
    ensures phase.UploadOnly? ==> NothingBuilt(server.log, |old(server.log)|) && !dropped
    ensures dropped <==> Last(server.log) == StageDrop(u.fqn, Done)
    ensures dropped ==> o.Ok? && u.stageCreated && server.LocationFiles(u.At(dir)) == map[]
                        && (bundle != map[] ==> u.fqn !in server.stages)
    ensures dropped && u.fqn in server.visible ==> MadeHere(server.log, |old(server.log)|, u.fqn)
    ensures o.Ok? && !dropped ==> server.LocationFiles(u.At(dir)) == bundle
    ensures kind.WorkspaceStorage? && personal ==> NoStageOps(server.log, |old(server.log)|)
    ensures server.stages - {storageFqn, fallback} == old(server.stages) - {storageFqn, fallback}
    ensures SameElsewhere(old(server.workspaces), server.workspaces, storageFqn, dir)
    ensures kind.WorkspaceStorage? ==>
      LeftInWorkspace(server.log, |old(server.log)|, storageFqn, dir, bundle, old(server.workspaces), server.workspaces)
  {
    dropped := false;
    o, u := BundleAndUpload(server, kind, storageFqn, dir, fallback, personal, bundle);
    ghost var first := server.log;
    ghost var uploaded := server.stages;
    if o.Ok? && phase.Full? {
      o, dropped := BuildUploaded(server, u, dir, statuses, bundle, |old(server.log)|, kind, personal);
      ChoiceStands(first, server.log, |old(server.log)|, storageFqn, dir, u.fqn);
      DroppedElsewhere(uploaded, server.visible, u.fqn, {storageFqn, fallback});
    } else {
      UploadAlone(server.log, |old(server.log)|, u, u.At(dir), bundle, kind, personal);
    }
  }

  lemma DroppedElsewhere(stages: map<Fqn, Files>, visible: set<Fqn>, f: Fqn, fs: set<Fqn>)
    requires f in fs
    ensures Dropped(stages, visible, f) - fs == stages - fs
  {
  }

  /** _upload_and_build_app. `bundle` is None when bundling itself fails. */
  method UploadAndBuild(server: Server, phase: Phase, kind: StorageType, storageFqn: Fqn, dir: string, fallback: Fqn,
                        personal: bool, bundle: Option<Files>, statuses: nat -> Poll)
    returns (o: Outcome, u: Upload, dropped: bool)
    modifies server
    ensures old(server.log) <= server.log
    // a run succeeds exactly when there is something to upload, the build is done, and no call
    // failed but those that made the upload fall back and the drop after the build
    ensures o.Ok? <==> (phase.RunUpload() ==> bundle.Some?) && (phase.RunBuild() ==> BuildDone(statuses))
                       && Harmless(server.log, |old(server.log)|, kind, personal)
    // the upload goes to the storage, or to the fallback stage when the workspace was refused
    ensures u == if !phase.RunUpload() || bundle.None? then Upload(kind.WorkspaceStorage?, storageFqn, false)
                 else ChosenUpload(server.log, |old(server.log)|, kind, storageFqn, fallback, personal)
    // the build gets the location its own upload ended on, holding exactly the bundle
    ensures phase.Full? && bundle.Some? ==>
      BuildsOnlyFrom(server.log, |old(server.log)|, u, u.At(dir), bundle.value)
    ensures phase.BuildOnly? ==>
      BuildsOnlyFrom(server.log, |old(server.log)|, u, u.At(dir), old(server.LocationFiles(u.At(dir))))
    ensures !phase.RunBuild() || (phase.RunUpload() && bundle.None?) ==> NothingBuilt(server.log, |old(server.log)|)
    ensures phase.PromoteOnly? || (phase.RunUpload() && bundle.None?) ==> server.log == old(server.log)
    // a bundle is cleaned up before anything is built, however the upload ended
    ensures phase.RunUpload() && bundle.Some? ==> CleanedBeforeBuild(server.log, |old(server.log)|)
    // success of a building run means a submitted and finished build and an attempt at the drop
    ensures o.Ok? && phase.RunBuild() ==> Completed(server.log, |old(server.log)|, u)
    // what is dropped after the build is the stage this run made
    ensures dropped <==> |old(server.log)| < |server.log| && Last(server.log) == StageDrop(u.fqn, Done)
    ensures dropped ==> phase.Full? && o.Ok? && u.stageCreated && server.LocationFiles(u.At(dir)) == map[]
                        && (bundle != Some(map[]) ==> u.fqn !in server.stages)
    ensures dropped && u.fqn in server.visible ==> MadeHere(server.log, |old(server.log)|, u.fqn)
    ensures o.Ok? && phase.RunUpload() && !dropped ==> server.LocationFiles(u.At(dir)) == bundle.value
    // without the upload phase nothing stored on the server changes
    ensures !phase.RunUpload() ==> NoStageOps(server.log, |old(server.log)|)
                                   && server.stages == old(server.stages) && server.workspaces == old(server.workspaces)
    // a workspace run on a personal database does not touch stages
    ensures kind.WorkspaceStorage? && personal ==> NoStageOps(server.log, |old(server.log)|)
    // other apps' stages, workspaces and subdirectories are as before
    ensures server.stages - {storageFqn, fallback} == old(server.stages) - {storageFqn, fallback}
    ensures SameElsewhere(old(server.workspaces), server.workspaces, storageFqn, dir)
    // what an upload leaves in its workspace, also when it is refused there
    ensures kind.WorkspaceStorage? && phase.RunUpload() && bundle.Some? ==>
      LeftInWorkspace(server.log, |old(server.log)|, storageFqn, dir, bundle.value,
                      old(server.workspaces), server.workspaces)
  {
    u, dropped := Upload(kind.WorkspaceStorage?, storageFqn, false), false;
    if !phase.RunUpload() {
      if phase.BuildOnly? {
        o, dropped := BuildStored(server, u, dir, statuses, kind, personal);
        return;
      }
      return Ok, u, false;
    }
    if bundle.None? {
      return Other, u, false;
    }
    o, u, dropped := UploadFirst(server, phase, kind, storageFqn, dir, fallback, personal, bundle.value, statuses);
  }

  /** The build phase on its own: no stage was created, so none is dropped. */
  method BuildStored(server: Server, u: Upload, dir: string, statuses: nat -> Poll,
                     ghost kind: StorageType, ghost personal: bool)
    returns (o: Outcome, dropped: bool)
    requires !u.stageCreated
    modifies server`stages, server`log
    ensures old(server.log) < server.log && NoStageOps(server.log, |old(server.log)|)
    ensures server.stages == old(server.stages) && !dropped && !Last(server.log).StageDrop?
    ensures BuildsOnlyFrom(server.log, |old(server.log)|, u, u.At(dir), old(server.LocationFiles(u.At(dir))))
    ensures o.Ok? <==> BuildDone(statuses) && Harmless(server.log, |old(server.log)|, kind, personal)
    ensures o.Ok? ==> Completed(server.log, |old(server.log)|, u)
  {
    o, dropped := BuildApp(server, u, dir, statuses);
    BuildAlone(server.log, |old(server.log)|, u, u.At(dir), old(server.LocationFiles(u.At(dir))), kind, personal);
  }

  /** With nothing failing, a full run ends well, at the storage it was given, and without
      the stage it used. */
  method CleanRun(server: Server, kind: StorageType, storageFqn: Fqn, dir: string, fallback: Fqn,
                  personal: bool, bundle: Files, statuses: nat -> Poll)
    returns (o: Outcome, u: Upload, dropped: bool)
    modifies server
    ensures BuildDone(statuses) && (forall i :: |old(server.log)| <= i < |server.log| ==> !Failed(server.log[i])) ==>
      && o.Ok?
      && u.At(dir) == AtStorage(kind, storageFqn, dir)
      && (dropped <==> kind.StageStorage?)
      && server.LocationFiles(u.At(dir)) == if kind.StageStorage? then map[] else bundle
  {
    o, u, dropped := UploadAndBuild(server, Full, kind, storageFqn, dir, fallback, personal, Some(bundle), statuses);
    assert Last(server.log) == server.log[|server.log| - 1];
  }

  // ------------------------------------------------------------------ teardown

  /** _teardown_app_code */
  method TeardownAppCode(server: Server, kind: StorageType, storageFqn: Fqn, dir: string) returns (o: Outcome)
    modifies server`stages, server`workspaces, server`log
    ensures kind.StageStorage? ==>
      && server.workspaces == old(server.workspaces)
      && server.stages == if o.Ok? then Dropped(old(server.stages), server.visible, storageFqn) else old(server.stages)
    ensures kind.WorkspaceStorage? ==>
      && server.stages == old(server.stages)
      && SameElsewhere(old(server.workspaces), server.workspaces, storageFqn, dir)
    ensures o.Ok? ==> server.LocationFiles(AtStorage(kind, storageFqn, dir)) == map[]
    ensures forall l :: l != AtStorage(kind, storageFqn, dir) ==>
      server.LocationFiles(l) == old(server.LocationFiles(l))
    ensures |server.log| == |old(server.log)| + 1 && old(server.log) < server.log
    ensures if kind.WorkspaceStorage? then Last(server.log).WorkspaceClear? && Last(server.log).dir == dir
            else Last(server.log).StageDrop?
    ensures Last(server.log).fqn == storageFqn
    ensures o == AsOutcome(Last(server.log).reply)
  {
    var reply: Reply;
    if kind.WorkspaceStorage? {
      reply := server.ClearWorkspaceSubdirectory(storageFqn, dir);
    } else {
      reply := server.DropStageIfExists(storageFqn);
    }
    return AsOutcome(reply);
  }

  /** A completed deploy whose stage, if it made one, was dropped, followed by a teardown
      with the same storage: none of the app's code is left where the deploy put it nor
      at the resolved storage, and other apps' code is as it was. */
  method DeployThenTeardown(server: Server, kind: StorageType, storageFqn: Fqn, dir: string, fallback: Fqn,
                            personal: bool, bundle: Option<Files>, statuses: nat -> Poll)
    returns (o: Outcome, u: Upload, dropped: bool, t: Outcome)
    modifies server
    ensures o.Ok? && (u.stageCreated ==> dropped) && t.Ok? ==>
      && server.LocationFiles(u.At(dir)) == map[]
      && server.LocationFiles(AtStorage(kind, storageFqn, dir)) == map[]
      && (u.stageCreated && bundle != Some(map[]) ==> u.fqn !in server.stages)
    ensures server.stages - {storageFqn, fallback} == old(server.stages) - {storageFqn, fallback}
    ensures SameElsewhere(old(server.workspaces), server.workspaces, storageFqn, dir)
  {
    o, u, dropped := UploadAndBuild(server, Full, kind, storageFqn, dir, fallback, personal, bundle, statuses);
    var both := {storageFqn, fallback};
    ghost var mid := server.stages;
    t := TeardownAppCode(server, kind, storageFqn, dir);
    assert (mid - {storageFqn}) - both == mid - both;
  }

  /** After --upload-only the same teardown need not be enough: it clears the location of
      the upload exactly when the upload did not fall back to a stage, or was empty. */
  method UploadOnlyThenTeardown(server: Server, kind: StorageType, storageFqn: Fqn, dir: string, fallback: Fqn,
                                personal: bool, bundle: Option<Files>, statuses: nat -> Poll)
    returns (o: Outcome, u: Upload, t: Outcome)
    modifies server
    ensures o.Ok? && t.Ok? ==> bundle.Some? && (
      server.LocationFiles(u.At(dir)) == map[] <==> u.useWorkspace == kind.WorkspaceStorage? || bundle.value == map[])
  {
    var dropped;
    o, u, dropped := UploadAndBuild(server, UploadOnly, kind, storageFqn, dir, fallback, personal, bundle, statuses);
    t := TeardownAppCode(server, kind, storageFqn, dir);
  }

  // ------------------------------------------------- deploy and teardown of one app

  /** What deploy and teardown both read of an app. */
  datatype Settings = Settings(codeWorkspace: Option<CodeStorageRef>, codeStage: Option<CodeStorageRef>,
                               database: string, schema: string, appName: string)

  /** code_stage is configured and code_workspace is not. */
  predicate StageConfigured(s: Settings) { s.codeWorkspace.None? && s.codeStage.Some? }

  /** Nothing is configured and the privilege probe makes the choice. */
  predicate ProbeDecides(s: Settings, personal: string -> bool) {
    s.codeWorkspace.None? && s.codeStage.None? && !personal(s.database) && s.database != "" && s.schema != ""
  }

  function StorageOf(s: Settings, personal: string -> bool, canCreate: Option<bool>): CodeStorage {
    ResolveCodeStorage(s.codeWorkspace, s.codeStage, s.database, s.schema, s.appName, personal, canCreate)
  }

  function LocationOf(s: Settings, personal: string -> bool, canCreate: Option<bool>): Location {
    var storage := StorageOf(s, personal, canCreate);
    AtStorage(storage.kind, StorageFqn(storage, s.database, s.schema), s.appName)
  }

  /** Two probes of the privilege to create workspaces that answer alike. */
  predicate SameProbe(a: Option<bool>, b: Option<bool>) { a == Some(true) <==> b == Some(true) }

  /** Where nothing is configured the privilege decides between the default workspace and the
      app's stage. Two resolutions of one app's storage agree exactly when the probe does not
      decide, or answers alike both times. */
  lemma SameLocationExactly(s: Settings, personal: string -> bool, a: Option<bool>, b: Option<bool>)
    ensures ProbeDecides(s, personal) ==>
              LocationOf(s, personal, a) ==
              if a == Some(true) then InWorkspace(Fqn(s.database, s.schema, "SNOWFLAKE_APPS"), s.appName)
              else OnStage(Fqn(s.database, s.schema, s.appName + "_CODE"))
    ensures LocationOf(s, personal, a) == LocationOf(s, personal, b) <==> !ProbeDecides(s, personal) || SameProbe(a, b)
  {
  }

  lemma PersonalDatabaseStorage(s: Settings, personal: string -> bool, canCreate: Option<bool>)
    requires personal(s.database)
    ensures StorageOf(s, personal, canCreate).kind.StageStorage? <==> StageConfigured(s)
  {
  }

  /** snow app deploy, up to the build, with the storage of the app's settings. */
  method DeployOf(server: Server, phase: Phase, s: Settings, personal: string -> bool, canCreate: Option<bool>,
                  bundle: Option<Files>, statuses: nat -> Poll)
    returns (o: Outcome, u: Upload, dropped: bool)
    modifies server
    ensures old(server.log) <= server.log
    ensures o.Ok? && phase.RunUpload() ==>
      && bundle.Some?
      && server.LocationFiles(u.At(s.appName)) == (if dropped then map[] else bundle.value)
      && (dropped ==> u.stageCreated) && (u.stageCreated ==> !u.useWorkspace)
    // the code goes where the settings say, or to the fallback stage; then the settings'
    // workspace has its code from before, or part of the bundle
    ensures o.Ok? && phase.RunUpload() && u.At(s.appName) != LocationOf(s, personal, canCreate) ==>
      && u == Upload(false, FallbackFqn(s.database, s.schema, s.appName), true)
      && LocationOf(s, personal, canCreate).InWorkspace?
      && (|| server.LocationFiles(LocationOf(s, personal, canCreate)) ==
             old(server.LocationFiles(LocationOf(s, personal, canCreate)))
          || PartlyOver(map[], bundle.value, server.LocationFiles(LocationOf(s, personal, canCreate))))
    ensures o.Ok? && phase.RunUpload() && !u.stageCreated ==> LocationOf(s, personal, canCreate).InWorkspace?
    // from the settings alone: a workspace is used if one is configured, or no stage is and the
    // database is personal or the role may create a workspace in it; unless a call refused it
    ensures phase.RunUpload() && bundle.Some? ==>
      && u.stageCreated == !u.useWorkspace
      && (u.useWorkspace <==>
            && (|| s.codeWorkspace.Some?
                || (s.codeStage.None? &&
                    (personal(s.database) || (canCreate == Some(true) && s.database != "" && s.schema != ""))))
            && (personal(s.database) || forall i :: |old(server.log)| <= i < |server.log| ==>
                  !(IsWorkspaceOp(server.log[i]) && server.log[i].reply.ProgrammingError?)))
    // under the configured name with its overrides, or a default name in the app's schema
    ensures phase.RunUpload() && bundle.Some? && u.useWorkspace ==>
      match s.codeWorkspace
      case Some(CodeStorageRef(name, db, schema)) =>
        u.fqn == Fqn(if db.Some? && db.value != "" then db.value else s.database,
                     if schema.Some? && schema.value != "" then schema.value else s.schema, name)
      case None => u.fqn == Fqn(s.database, s.schema, "SNOWFLAKE_APPS")
    ensures phase.RunUpload() && bundle.Some? && u.stageCreated ==>
      if s.codeWorkspace.None? && s.codeStage.Some? then
        var CodeStorageRef(name, db, schema) := s.codeStage.value;
        u.fqn == Fqn(if db.Some? && db.value != "" then db.value else s.database,
                     if schema.Some? && schema.value != "" then schema.value else s.schema, name)
      else
        u.fqn == Fqn(s.database, s.schema, s.appName + "_CODE")
    ensures personal(s.database) && !StageConfigured(s) ==> NoStageOps(server.log, |old(server.log)|)
  {
    var storage := StorageOf(s, personal, canCreate);
    var fqn := StorageFqn(storage, s.database, s.schema);
    o, u, dropped := UploadAndBuild(server, phase, storage.kind, fqn, s.appName,
                                    FallbackFqn(s.database, s.schema, s.appName), personal(s.database),
                                    bundle, statuses);
    if personal(s.database) {
      PersonalDatabaseStorage(s, personal, canCreate);
    }
  }

  /** snow app teardown, with the storage of the app's settings. */
  method TeardownOf(server: Server, s: Settings, personal: string -> bool, canCreate: Option<bool>)
    returns (t: Outcome)
    modifies server`stages, server`workspaces, server`log
    ensures t.Ok? ==> server.LocationFiles(LocationOf(s, personal, canCreate)) == map[]
    ensures forall l :: l != LocationOf(s, personal, canCreate) ==>
      server.LocationFiles(l) == old(server.LocationFiles(l))
    ensures |server.log| == |old(server.log)| + 1 && old(server.log) < server.log
    ensures personal(s.database) ==> (IsStageOp(Last(server.log)) <==> StageConfigured(s))
    // from the settings alone: what its one call addresses
    ensures (Last(server.log).WorkspaceClear? && Last(server.log).dir == s.appName) || Last(server.log).StageDrop?
    ensures Last(server.log).WorkspaceClear? <==>
      || s.codeWorkspace.Some?
      || (s.codeStage.None? &&
          (personal(s.database) || (canCreate == Some(true) && s.database != "" && s.schema != "")))
    ensures Last(server.log).fqn ==
      match (if s.codeWorkspace.Some? then s.codeWorkspace else s.codeStage)
      case Some(CodeStorageRef(name, db, schema)) =>
        Fqn(if db.Some? && db.value != "" then db.value else s.database,
            if schema.Some? && schema.value != "" then schema.value else s.schema, name)
      case None =>
        Fqn(s.database, s.schema,
            if Last(server.log).WorkspaceClear? then "SNOWFLAKE_APPS" else s.appName + "_CODE")
  {
    var storage := StorageOf(s, personal, canCreate);
    t := TeardownAppCode(server, storage.kind, StorageFqn(storage, s.database, s.schema), s.appName);
    if personal(s.database) {
      PersonalDatabaseStorage(s, personal, canCreate);
    }
  }

  /** Deploy and teardown of one app, each with its own probe. When the deploy ends, `left` is
      the code at the storage of its settings, and `there` the code where its upload went. */
  method DeployThenTeardownOf(server: Server, phase: Phase, s: Settings, personal: string -> bool,
                              atDeploy: Option<bool>, atTeardown: Option<bool>,
                              bundle: Option<Files>, statuses: nat -> Poll)
    returns (o: Outcome, u: Upload, dropped: bool, t: Outcome, ghost left: Files, ghost there: Files)
    modifies server
    // the code went where the settings say, or to the fallback stage; then the settings'
    // workspace has its code from before, or part of the bundle
    ensures o.Ok? && phase.RunUpload() ==>
      && bundle.Some? && there == (if dropped then map[] else bundle.value)
      && if u.At(s.appName) == LocationOf(s, personal, atDeploy) then
           left == there
         else
           && u.At(s.appName) == OnStage(FallbackFqn(s.database, s.schema, s.appName))
           && (|| left == old(server.LocationFiles(LocationOf(s, personal, atDeploy)))
               || PartlyOver(map[], bundle.value, left))
    // however the deploy ended, teardown clears the one place it comes to
    ensures t.Ok? ==>
      && server.LocationFiles(LocationOf(s, personal, atDeploy)) ==
         (if !ProbeDecides(s, personal) || SameProbe(atDeploy, atTeardown) then map[] else left)
      && server.LocationFiles(u.At(s.appName)) ==
         (if u.At(s.appName) == LocationOf(s, personal, atTeardown) then map[] else there)
    // so after a completed deploy nothing is left in either place exactly when the probe was
    // stable or the deploy had left nothing at its own storage
    ensures o.Ok? && t.Ok? && phase.RunUpload() && (u.stageCreated ==> dropped) ==>
      (&& server.LocationFiles(LocationOf(s, personal, atDeploy)) == map[]
       && server.LocationFiles(u.At(s.appName)) == map[]
       <==> !ProbeDecides(s, personal) || SameProbe(atDeploy, atTeardown) || left == map[])
    // the deploy uses a workspace, unless a call refused it, and the teardown clears one, exactly
    // if one is configured, or no stage is and the database is personal or its probe says so
    ensures old(server.log) < server.log
    ensures phase.RunUpload() && bundle.Some? ==>
      (u.useWorkspace <==>
         && (|| s.codeWorkspace.Some?
             || (s.codeStage.None? &&
                 (personal(s.database) || (atDeploy == Some(true) && s.database != "" && s.schema != ""))))
         && (personal(s.database) || forall i :: |old(server.log)| <= i < |server.log| - 1 ==>
               !(IsWorkspaceOp(server.log[i]) && server.log[i].reply.ProgrammingError?)))
    ensures Last(server.log).WorkspaceClear? <==>
      || s.codeWorkspace.Some?
      || (s.codeStage.None? &&
          (personal(s.database) || (atTeardown == Some(true) && s.database != "" && s.schema != "")))
    // on a personal database stages are touched exactly when code_stage alone is configured
    ensures personal(s.database) ==> (NoStageOps(server.log, |old(server.log)|) <==> !StageConfigured(s))
  {
    o, u, dropped := DeployOf(server, phase, s, personal, atDeploy, bundle, statuses);
    left := server.LocationFiles(LocationOf(s, personal, atDeploy));
    there := server.LocationFiles(u.At(s.appName));
    ghost var deployed := server.log;
    t := TeardownOf(server, s, personal, atTeardown);
    SameLocationExactly(s, personal, atDeploy, atTeardown);
    assert forall i :: 0 <= i < |deployed| ==> server.log[i] == deployed[i];
    assert Last(server.log) == server.log[|deployed|];
  }
}
