/** What holds over every run of the editor: crash safety, no lost update, consistent views. */
module EditorSafety {
  import opened Common
  import opened ServiceCards
  import opened ServiceMatcher
  import opened EditorProtocol
  import M = ServiceMetadata

  // The invariant

  /** The new bytes are the requested edit, printed, of the document in the old bytes. */
  ghost predicate Edits(before: Bytes, req: Request, after: Bytes, env: Env) {
    && env.parse(before).Some? && env.parse(after).Some?
    && var d := env.mutate(env.parse(before).value.document, req.id, req.edit);
       d.Some? && env.text(d.value) == Some(after)
  }

  /** The client presented the revision of exactly the bytes that the commit replaced. */
  ghost predicate CommitOk(c: Commit, env: Env) {
    c.req.revision == FileMac(c.key, c.before) && Edits(c.before, c.req, c.after, env)
  }

  ghost predicate IsChain(initial: Bytes, log: seq<Commit>) {
    && (log != [] ==> log[0].before == initial)
    && (forall i | 0 < i < |log| :: log[i].before == log[i - 1].after)
  }

  ghost predicate LogOk(w: World, env: Env) {
    && env.parse(w.initial).Some?
    && IsChain(w.initial, w.log)
    && (forall i | 0 <= i < |w.log| :: CommitOk(w.log[i], env))
    && (w.unsettled ==> w.log != [])
  }

  /** Whatever entry survives a crash leads to synced bytes: those confirmed, or those of the last commit. */
  predicate FileOk(w: World) {
    && DiskOk(w.disk)
    && (forall n | n in w.disk.durable ::
          && w.disk.inodes[n].synced
          && (w.disk.inodes[n].data == Confirmed(w)
              || (w.unsettled && w.log != [] && w.disk.inodes[n].data == w.log[|w.log| - 1].after)))
    && (!w.unsettled ==> w.disk.durable == {w.disk.name})
  }

  predicate ViewOk(w: World, env: Env) {
    w.up ==>
      && env.parse(Confirmed(w)).Some?
      && w.view == ViewOf(Confirmed(w), env.parse(Confirmed(w)).value, w.key)
  }

  ghost predicate StageOk(w: World, env: Env) {
    && (!w.up || w.disabled ==> w.stage == Idle)
    && (w.stage != Idle ==> w.reply == Pending)
    && (w.up && w.unsettled ==> w.disabled || (w.stage.Holding? && w.stage.phase == Renamed))
    && (w.stage.Admitted? || w.stage.Current? ==>
          env.mutate(w.view.metadata.document, w.stage.req.id, w.stage.req.edit) == Some(w.stage.document))
    && (w.stage.Current? || w.stage.Ready? || w.stage.Holding? ==> w.stage.req.revision == w.view.revision)
    && (w.stage.Ready? || w.stage.Holding? ==> Edits(w.view.bytes, w.stage.req, w.stage.contents, env))
    && (w.stage.Holding? ==> HoldingOk(w))
  }

  predicate HoldingOk(w: World)
    requires w.stage.Holding?
  {
    var temp, phase := w.stage.temp, w.stage.phase;
    && temp in w.disk.inodes
    && (phase != Created ==> w.disk.inodes[temp].data == w.stage.contents)
    && (phase != Created && phase != Written ==> w.disk.inodes[temp].synced)
    && (phase != Renamed ==> !w.unsettled && temp !in w.disk.durable)
    && (phase == Renamed ==>
          && w.unsettled && w.disk.name == temp && w.log != []
          && w.log[|w.log| - 1] == Commit(w.stage.req, w.key, w.view.bytes, w.stage.contents))
  }

  /** What each part of startup has established. */
  predicate BootOk(w: World, env: Env) {
    && (w.up ==> w.boot == Off)
    && DiskOk(w.disk)
    && (w.boot.FirstRead? || w.boot.SecondRead? ==> w.boot.inode == w.disk.name)
    && (w.boot != Off && !w.boot.FirstRead? ==> w.disk.inodes[w.disk.name].synced)
    && (w.boot != Off && !w.boot.FirstRead? && w.boot != FirstSynced && w.boot != Locked ==>
          w.disk.durable == {w.disk.name})
    && (w.boot.SecondRead? || w.boot.SecondSynced? || w.boot.Reconciled? ==> w.boot.bytes == Content(w.disk))
    && (w.boot.SecondSynced? || w.boot.Reconciled? ==> env.parse(w.boot.bytes).Some?)
  }

  ghost predicate Invariant(w: World, env: Env) {
    LogOk(w, env) && FileOk(w) && ViewOk(w, env) && StageOk(w, env) && BootOk(w, env)
  }

  lemma ConfirmedParses(w: World, env: Env)
    requires LogOk(w, env)
    ensures env.parse(Confirmed(w)).Some?
  {
    if w.log != [] { assert CommitOk(w.log[|w.log| - 1], env); }
  }

  /** Steps that move the history, the view or the process on. */
  predicate Turning(l: Label) { l.Rename? || l.DirSync? || Lifecycle(l) }

  /** Steps with an effect on more than the save under way and the polls. */
  predicate OnDisk(l: Label) { l.Create? || l.Write? || l.FileSync? || Turning(l) }

  predicate SameHistory(w: World, t: World) {
    t.initial == w.initial && t.log == w.log && t.unsettled == w.unsettled && t.view == w.view && t.key == w.key
      && t.up == w.up
    && t.boot == w.boot
  }

  /** All other steps leave the disk and the history alone. */
  lemma QuietEffect(w: World, l: Label, env: Env)
    requires Next(w, l, env).Some? && !External(l) && !OnDisk(l)
    ensures Next(w, l, env).value.disk == w.disk && SameHistory(w, Next(w, l, env).value)
  {
    hide DiskError, OrderFits, RequestData, FinalError, Assembled;
    if Around(l) { PollLeaves(w, l, env); } else { hide PollNext, OtherNext; }
  }

  lemma PollLeaves(w: World, l: Label, env: Env)
    requires Around(l) && Next(w, l, env).Some?
    ensures Next(w, l, env).value == w.(cache := Next(w, l, env).value.cache, poll := Next(w, l, env).value.poll)
  {
    hide SaveNext, OtherNext, Assembled;
  }

  lemma TempEffect(w: World, l: Label, env: Env)
    requires Next(w, l, env).Some? && (l.Create? || l.Write? || l.FileSync?)
    ensures var t := Next(w, l, env).value;
            && SameHistory(w, t) && t.disk.name == w.disk.name && t.disk.durable == w.disk.durable
            && (l.Create? ==> l.temp !in w.disk.inodes && !w.stage.Holding?)
            && (l.Write? || l.FileSync? ==> w.stage.Holding? && w.stage.phase != Renamed)
            && (forall n | n in w.disk.inodes && !(w.stage.Holding? && n == w.stage.temp) ::
                  n in t.disk.inodes && t.disk.inodes[n] == w.disk.inodes[n])
  {
    hide OtherNext, PollNext;
  }

  lemma LogKept(w: World, l: Label, env: Env)
    requires Invariant(w, env) && Next(w, l, env).Some? && !External(l)
    ensures LogOk(Next(w, l, env).value, env)
  {
    if l.Rename? {
      RenameKeepsLog(w, l, env);
    } else if l.Restart? {
      RestartKeepsLog(w, l, env);
    } else if Turning(l) {
      SyncKeepsLog(w, l, env);
    } else {
      if OnDisk(l) { TempEffect(w, l, env); } else { QuietEffect(w, l, env); }
      LogOfSameHistory(w, Next(w, l, env).value, env);
    }
  }

  lemma LogOfSameHistory(w: World, t: World, env: Env)
    requires LogOk(w, env) && SameHistory(w, t)
    ensures LogOk(t, env)
  {
  }

  lemma RenameKeepsLog(w: World, l: Label, env: Env)
    requires Invariant(w, env) && Next(w, l, env).Some? && l.Rename?
    ensures LogOk(Next(w, l, env).value, env)
  {
    hide Edits, FileOk;
  }

  lemma RestartKeepsLog(w: World, l: Label, env: Env)
    requires LogOk(w, env) && Next(w, l, env).Some? && l.Restart?
    ensures LogOk(Next(w, l, env).value, env)
  {
    hide CommitOk;
  }

  lemma SyncKeepsLog(w: World, l: Label, env: Env)
    requires LogOk(w, env) && Next(w, l, env).Some? && (l.DirSync? || l.Exit? || l.Crash? || l.Boot?)
    ensures LogOk(Next(w, l, env).value, env)
  {
    hide CommitOk;
  }

  lemma TempKeepsFile(w: World, l: Label, env: Env)
    requires Invariant(w, env) && Next(w, l, env).Some?
    requires l.Create? || l.Write? || l.FileSync?
    ensures FileOk(Next(w, l, env).value)
  {
    hide Next, LogOk, ViewOk, BootOk, Edits;
    TempEffect(w, l, env);
    var t := Next(w, l, env).value;
    forall n | n in w.disk.durable ensures n in t.disk.inodes && t.disk.inodes[n] == w.disk.inodes[n] {
      assert n in w.disk.inodes;
    }
  }

  lemma RenameKeepsFile(w: World, l: Label, env: Env)
    requires Invariant(w, env) && Next(w, l, env).Some?
    requires l.Rename? || l.DirSync?
    ensures FileOk(Next(w, l, env).value)
  {
    hide OtherNext, PollNext, LogOk, BootOk, Edits;
  }

  lemma CrashKeepsFile(w: World, l: Label, env: Env)
    requires Invariant(w, env) && Next(w, l, env).Some?
    requires l.Exit? || l.Crash? || l.Restart?
    ensures FileOk(Next(w, l, env).value)
  {
    hide Edits, ViewOk, StageOk;
  }

  lemma BootKeepsFile(w: World, l: Label, env: Env)
    requires FileOk(w) && BootOk(w, env) && Next(w, l, env).Some? && l.Boot?
    ensures FileOk(Next(w, l, env).value)
  {
    hide SaveNext, PollNext;
  }

  lemma QuietKeepsFile(w: World, l: Label, env: Env)
    requires FileOk(w) && Next(w, l, env).Some?
    requires !External(l) && !OnDisk(l)
    ensures FileOk(Next(w, l, env).value)
  {
    hide Next;
    QuietEffect(w, l, env);
  }

  lemma ViewKept(w: World, l: Label, env: Env)
    requires Invariant(w, env) && Next(w, l, env).Some? && !External(l)
    ensures ViewOk(Next(w, l, env).value, env)
  {
    var t := Next(w, l, env).value;
    if l.Restart? {
      RestartKeepsView(w, l, env);
    } else if Lifecycle(l) {
      DownHasNoView(w, l, env);
    } else if Turning(l) {
      DiskStepKeepsView(w, l, env);
    } else {
      if OnDisk(l) { TempEffect(w, l, env); } else { QuietEffect(w, l, env); }
      ViewOfSameHistory(w, t, env);
    }
  }

  lemma ViewOfSameHistory(w: World, t: World, env: Env)
    requires ViewOk(w, env) && SameHistory(w, t)
    ensures ViewOk(t, env)
  {
  }

  lemma DownHasNoView(w: World, l: Label, env: Env)
    requires Next(w, l, env).Some? && (l.Exit? || l.Crash? || l.Boot?)
    ensures ViewOk(Next(w, l, env).value, env)
  {
    hide SaveNext, PollNext;
  }

  lemma DiskStepKeepsView(w: World, l: Label, env: Env)
    requires Invariant(w, env) && Next(w, l, env).Some?
    requires l.Rename? || l.DirSync?
    ensures ViewOk(Next(w, l, env).value, env)
  {
    hide OtherNext, PollNext, IsChain, BootOk, Edits, CommitOk;
  }

  lemma RestartKeepsView(w: World, l: Label, env: Env)
    requires LogOk(w, env) && FileOk(w) && BootOk(w, env) && Next(w, l, env).Some? && l.Restart?
    ensures ViewOk(Next(w, l, env).value, env)
  {
    hide SaveNext, PollNext;
    hide CommitOk;
  }

  lemma EarlyStageKept(w: World, l: Label, env: Env)
    requires Invariant(w, env) && Next(w, l, env).Some? && env.Lawful()
    requires l.Open? || l.Admit? || l.Compare?
    ensures StageOk(Next(w, l, env).value, env)
  {
    hide OtherNext, PollNext, LogOk, FileOk, ViewOk, BootOk, Edits, RequestData, OrderFits;
  }

  lemma SerializeStageKept(w: World, env: Env)
    requires Invariant(w, env) && Next(w, Serialize, env).Some? && env.Lawful()
    ensures StageOk(Next(w, Serialize, env).value, env)
  {
    hide OtherNext, PollNext, LogOk, FileOk, BootOk;
    ConfirmedParses(w, env);
  }

  lemma FileIsNotTemp(w: World, env: Env)
    requires FileOk(w)
    ensures w.disk.durable <= w.disk.inodes.Keys
  {
  }

  lemma TempStageKept(w: World, l: Label, env: Env)
    requires Invariant(w, env) && Next(w, l, env).Some?
    requires l.Create? || l.Write? || l.FileSync?
    ensures StageOk(Next(w, l, env).value, env)
  {
    hide OtherNext, PollNext, LogOk, FileOk, ViewOk, BootOk, Edits;
    FileIsNotTemp(w, env);
  }

  lemma LateStageKept(w: World, l: Label, env: Env)
    requires Invariant(w, env) && Next(w, l, env).Some?
    requires l.CloseTemp? || l.Recheck? || l.FinalCheck?
    ensures StageOk(Next(w, l, env).value, env)
  {
    hide OtherNext, PollNext, LogOk, ViewOk, BootOk, Edits, RequestData, FinalError, DiskError;
  }

  lemma RenameStageKept(w: World, l: Label, env: Env)
    requires Invariant(w, env) && Next(w, l, env).Some?
    requires l.Rename? || l.DirSync?
    ensures StageOk(Next(w, l, env).value, env)
  {
    hide OtherNext, PollNext, LogOk, ViewOk, BootOk, Edits;
  }

  lemma OtherStageKept(w: World, l: Label, env: Env)
    requires Invariant(w, env) && Next(w, l, env).Some?
    requires l.CloseEditor? || Around(l) || Lifecycle(l)
    ensures StageOk(Next(w, l, env).value, env)
  {
    if Lifecycle(l) { LifecycleStageKept(w, l, env); } else { RestStageKept(w, l, env); }
  }

  lemma LifecycleStageKept(w: World, l: Label, env: Env)
    requires Invariant(w, env) && Next(w, l, env).Some? && Lifecycle(l)
    ensures StageOk(Next(w, l, env).value, env)
  {
    hide SaveNext, PollNext, LogOk, FileOk, ViewOk, Edits;
  }

  lemma RestStageKept(w: World, l: Label, env: Env)
    requires Invariant(w, env) && Next(w, l, env).Some? && (l.CloseEditor? || Around(l))
    ensures StageOk(Next(w, l, env).value, env)
  {
    hide OtherNext, LogOk, FileOk, ViewOk, BootOk, Edits;
  }

  lemma InvariantKept(w: World, l: Label, env: Env)
    requires Invariant(w, env) && Next(w, l, env).Some? && !External(l) && env.Lawful()
    ensures Invariant(Next(w, l, env).value, env)
  {
    LogKept(w, l, env);
    ViewKept(w, l, env);
    BootKept(w, l, env);
    if l.Create? || l.Write? || l.FileSync? {
      TempKeepsFile(w, l, env);
      TempStageKept(w, l, env);
    } else if l.Rename? || l.DirSync? {
      RenameKeepsFile(w, l, env);
      RenameStageKept(w, l, env);
    } else if l.Boot? {
      BootKeepsFile(w, l, env);
      OtherStageKept(w, l, env);
    } else if Lifecycle(l) {
      CrashKeepsFile(w, l, env);
      OtherStageKept(w, l, env);
    } else {
      QuietKeepsFile(w, l, env);
      QuietKeepsStage(w, l, env);
    }
  }

  lemma BootKept(w: World, l: Label, env: Env)
    requires Invariant(w, env) && Next(w, l, env).Some? && !External(l)
    ensures BootOk(Next(w, l, env).value, env)
  {
    hide LogOk, ViewOk, Edits;
    if l.Boot? {
      BootStepKept(w, l, env);
    } else if OnDisk(l) {
      DiskStepKeepsBoot(w, l, env);
    } else {
      hide Next;
      QuietEffect(w, l, env);
    }
  }

  lemma BootStepKept(w: World, l: Label, env: Env)
    requires BootOk(w, env) && Next(w, l, env).Some? && l.Boot?
    ensures BootOk(Next(w, l, env).value, env)
  {
    hide SaveNext, PollNext;
  }

  lemma DiskStepKeepsBoot(w: World, l: Label, env: Env)
    requires FileOk(w) && BootOk(w, env) && StageOk(w, env) && Next(w, l, env).Some? && OnDisk(l) && !l.Boot?
    ensures BootOk(Next(w, l, env).value, env)
  {
  }

  lemma QuietKeepsStage(w: World, l: Label, env: Env)
    requires Invariant(w, env) && Next(w, l, env).Some? && env.Lawful()
    requires !External(l) && !OnDisk(l)
    ensures StageOk(Next(w, l, env).value, env)
  {
    if l.Open? || l.Admit? || l.Compare? {
      EarlyStageKept(w, l, env);
    } else if l.Serialize? {
      SerializeStageKept(w, env);
    } else if l.CloseTemp? || l.Recheck? || l.FinalCheck? {
      LateStageKept(w, l, env);
    } else {
      OtherStageKept(w, l, env);
    }
  }

  lemma StartIsOk(w: World, env: Env)
    requires IsStart(w, env)
    ensures Invariant(w, env)
  {
  }

  predicate NoExternal(run: seq<Label>) { forall l | l in run :: !External(l) }

  lemma {:induction false} InvariantHolds(w: World, run: seq<Label>, env: Env)
    requires Invariant(w, env) && After(w, run, env).Some? && NoExternal(run) && env.Lawful()
    ensures Invariant(After(w, run, env).value, env)
  {
    if run != [] {
      var n := |run| - 1;
      InvariantHolds(w, run[..n], env);
      assert run[n] in run;
      InvariantKept(After(w, run[..n], env).value, run[n], env);
    }
  }

  // Crash safety

  /** The steps of a startup in which every call works. */
  function Startup(key: nat): seq<Label> { Attempts(7) + [Restart(key)] }

  function Attempts(n: nat): seq<Label> { if n == 0 then [] else [Boot(true)] + Attempts(n - 1) }

  lemma {:induction false} AfterAttempts(w: World, n: nat, rest: seq<Label>, env: Env)
    requires !w.up
    ensures n == 0 ==> After(w, Attempts(n) + rest, env) == After(w, rest, env)
    ensures n > 0 ==> After(w, Attempts(n) + rest, env) == After(Booted(w, true, env), Attempts(n - 1) + rest, env)
  {
    if n == 0 {
      assert Attempts(0) + rest == rest;
    } else {
      assert Attempts(n) + rest == [Boot(true)] + (Attempts(n - 1) + rest);
      AfterFirst(w, Boot(true), Attempts(n - 1) + rest, env);
    }
  }

  /** Where startup stands after its first so many calls, when it can read the file. */
  ghost predicate Boots(w: World, t: World, n: nat)
    requires DiskOk(w.disk)
  {
    && t == w.(boot := t.boot, disk := t.disk) && !t.up
    && DiskOk(t.disk) && t.disk.name == w.disk.name && Content(t.disk) == Content(w.disk)
    && (n >= 2 ==> t.disk.inodes[t.disk.name].synced) && (n >= 4 ==> t.disk.durable == {t.disk.name})
    && match n
       case 0 => t.boot == Off
       case 1 => t.boot == FirstRead(w.disk.name)
       case 2 => t.boot == FirstSynced
       case 3 => t.boot == Locked
       case 4 => t.boot == EntrySynced
       case 5 => t.boot == SecondRead(w.disk.name, Content(w.disk))
       case 6 => t.boot == SecondSynced(Content(w.disk))
       case _ => t.boot == Reconciled(Content(w.disk))
  }

  lemma BootsOn(w: World, t: World, n: nat, env: Env)
    requires DiskOk(w.disk) && Boots(w, t, n) && n < 7 && Loaded(w.disk, env).Some?
    ensures Boots(w, Booted(t, true, env), n + 1)
  {
  }

  lemma {:induction false} StartupRuns(w: World, t: World, n: nat, key: nat, env: Env) returns (u: World)
    requires DiskOk(w.disk) && n <= 7 && Boots(w, t, 7 - n) && Loaded(w.disk, env).Some?
    ensures After(t, Attempts(n) + [Restart(key)], env).Some?
    ensures Boots(w, u, 7) && After(t, Attempts(n) + [Restart(key)], env) == Next(u, Restart(key), env)
    decreases n
  {
    hide Booted, Boots, Loaded, SaveNext, PollNext, OtherNext;
    NotUp(w, t, 7 - n);
    AfterAttempts(t, n, [Restart(key)], env);
    if n == 0 {
      u := t;
      AfterFirst(t, Restart(key), [], env);
      assert [Restart(key)] + [] == [Restart(key)];
      RestartsFrom(w, t, key, env);
    } else {
      BootsOn(w, t, 7 - n, env);
      u := StartupRuns(w, Booted(t, true, env), n - 1, key, env);
    }
  }

  lemma NotUp(w: World, t: World, n: nat)
    requires DiskOk(w.disk) && Boots(w, t, n)
    ensures !t.up
  {
  }

  lemma RestartsFrom(w: World, t: World, key: nat, env: Env)
    requires DiskOk(w.disk) && Boots(w, t, 7) && Loaded(w.disk, env).Some?
    ensures Next(t, Restart(key), env).Some?
  {
  }

  /** What an editor that has just started looks like: its view is the file, and the file is durable. */
  predicate FreshlyUp(t: World, bytes: Bytes, key: nat, env: Env) {
    && t.up && t.boot == Off && !t.disabled && !t.unsettled && t.reply == Pending
    && DiskOk(t.disk) && t.disk.durable == {t.disk.name} && t.disk.inodes[t.disk.name].synced
    && Content(t.disk) == bytes
    && env.parse(bytes).Some? && t.view == ViewOf(bytes, env.parse(bytes).value, key) && t.key == key
  }

  /** Startup works from any disk whose file reads and parses, synced or not, whatever else a crash may have left. */
  lemma StartupWorks(w: World, key: nat, env: Env)
    requires !w.up && w.boot == Off && DiskOk(w.disk) && Loaded(w.disk, env).Some?
    ensures After(w, Startup(key), env).Some? && FreshlyUp(After(w, Startup(key), env).value, Content(w.disk), key, env)
  {
    var u := StartupRuns(w, w, 7, key, env);
  }

  /**
   * In every run without external writers, a power loss or the death of the process at any point, startup
   * included, leaves a file that reads as a whole valid document: the one last confirmed, or the one whose
   * rename had already happened. A startup then comes up on exactly that file, and makes it durable.
   */
  lemma CrashRecovers(start: World, run: seq<Label>, l: Label, key: nat, env: Env)
    requires IsStart(start, env) && env.Lawful() && NoExternal(run) && After(start, run, env).Some?
    requires (l.Crash? || l.Exit?) && Next(After(start, run, env).value, l, env).Some?
    ensures var w := After(start, run, env).value;
            var down := Next(w, l, env).value;
            && DiskOk(down.disk) && env.parse(Content(down.disk)).Some?
            && (Content(down.disk) == Confirmed(w)
                || (w.unsettled && w.log != [] && Content(down.disk) == w.log[|w.log| - 1].after))
            && After(down, Startup(key), env).Some?
            && FreshlyUp(After(down, Startup(key), env).value, Content(down.disk), key, env)
            && Confirmed(After(down, Startup(key), env).value) == Content(down.disk)
  {
    hide Invariant, Next, Startup, Loaded, IsStart;
    StartIsOk(start, env);
    InvariantHolds(start, run, env);
    var w := After(start, run, env).value;
    CrashKeepsContent(w, l, env);
    ParsesIfLoaded(Next(w, l, env).value.disk, env);
    InvariantKept(w, l, env);
    StartupConfirms(Next(w, l, env).value, key, env);
  }

  lemma ParsesIfLoaded(d: Disk, env: Env)
    requires DiskOk(d) && Loaded(d, env).Some?
    ensures env.parse(Content(d)).Some?
  {
  }

  lemma StartupConfirms(w: World, key: nat, env: Env)
    requires Invariant(w, env) && env.Lawful() && !w.up && w.boot == Off && DiskOk(w.disk) && Loaded(w.disk, env).Some?
    ensures var t := After(w, Startup(key), env);
            t.Some? && FreshlyUp(t.value, Content(w.disk), key, env) && Confirmed(t.value) == Content(w.disk)
  {
    hide Invariant, Next, Startup, Loaded;
    StartupIsInternal(key);
    StartupWorks(w, key, env);
    InvariantHolds(w, Startup(key), env);
    UpIsConfirmed(After(w, Startup(key), env).value, env);
  }

  lemma UpIsConfirmed(w: World, env: Env)
    requires Invariant(w, env) && w.up
    ensures Confirmed(w) == w.view.bytes
  {
  }

  lemma StartupIsInternal(key: nat)
    ensures NoExternal(Startup(key))
  {
    AttemptsAreBoots(7);
  }

  lemma {:induction false} AttemptsAreBoots(n: nat)
    ensures forall l | l in Attempts(n) :: l == Boot(true)
  {
    if n > 0 { AttemptsAreBoots(n - 1); }
  }

  lemma CrashKeepsContent(w: World, l: Label, env: Env)
    requires Invariant(w, env) && env.Lawful() && (l.Crash? || l.Exit?) && Next(w, l, env).Some?
    ensures var down := Next(w, l, env).value;
            && !down.up && down.boot == Off && DiskOk(down.disk) && Loaded(down.disk, env).Some?
            && (Content(down.disk) == Confirmed(w)
                || (w.unsettled && w.log != [] && Content(down.disk) == w.log[|w.log| - 1].after))
  {
    hide SaveNext, PollNext;
    ConfirmedParses(w, env);
    if w.log != [] { assert CommitOk(w.log[|w.log| - 1], env); }
    hide ViewOk, StageOk, CommitOk, IsChain;
  }

  /** A disk as an installation leaves it: nothing need be synced, and other entries may still come back. */
  predicate Installed(w: World) {
    && !w.up && w.boot == Off && w.stage == Idle && w.cache.None? && w.poll == NoPoll && w.log == [] && !w.unsettled
    && DiskOk(w.disk) && w.initial == Content(w.disk)
  }

  /** Halfway through a first startup. */
  predicate Installing(w: World, env: Env) {
    && !w.up && w.stage == Idle && w.cache.None? && w.poll == NoPoll && w.log == [] && !w.unsettled
    && BootOk(w, env) && w.initial == Content(w.disk)
  }

  /**
   * However many attempts a first startup takes, once it is through its syncs have made an installed file
   * the durable start of a history.
   */
  lemma {:induction false} FirstStartup(w: World, run: seq<Label>, env: Env)
    requires Installed(w) && (forall l | l in run :: l.Boot? || l.Restart?) && After(w, run, env).Some?
    ensures var t := After(w, run, env).value;
            if t.up then IsStart(t, env) else Installing(t, env)
  {
    if run != [] {
      hide Next, Installing, IsStart;
      var n := |run| - 1;
      assert run[n] in run && forall l | l in run[..n] :: l in run;
      FirstStartup(w, run[..n], env);
      InstallingStep(After(w, run[..n], env).value, run[n], env);
    }
  }

  lemma InstallingStep(w: World, l: Label, env: Env)
    requires if w.up then IsStart(w, env) else Installing(w, env)
    requires (l.Boot? || l.Restart?) && Next(w, l, env).Some?
    ensures var t := Next(w, l, env).value;
            if t.up then IsStart(t, env) else Installing(t, env)
  {
  }

  // Between operations

  /** Whenever an enabled editor rests, the file is the view, and nothing of an older one can come back. */
  lemma RestingViewIsFile(start: World, run: seq<Label>, env: Env)
    requires IsStart(start, env) && env.Lawful() && NoExternal(run) && After(start, run, env).Some?
    ensures var w := After(start, run, env).value;
            w.up && !w.disabled && w.stage == Idle ==>
              && DiskOk(w.disk) && w.disk.durable == {w.disk.name} && w.disk.inodes[w.disk.name].synced
              && Content(w.disk) == w.view.bytes
              && env.parse(w.view.bytes) == Some(w.view.metadata)
              && w.view.revision == FileMac(w.key, w.view.bytes)
  {
    StartIsOk(start, env);
    InvariantHolds(start, run, env);
  }

  /** Steps of a running process, from the first refusal on to the last reply. */
  predicate InProcess(run: seq<Label>) { forall l | l in run :: !External(l) && !Lifecycle(l) }

  /** Only a rename that works touches the file, and only a directory sync that works touches the view. */
  ghost predicate Confined(w: World, l: Label, t: World) {
    && (l != Rename(true) && l != DirSync(true) ==>
          SameFile(w.disk, t.disk) && t.log == w.log && t.unsettled == w.unsettled)
    && (l != DirSync(true) ==> t.view == w.view && t.key == w.key)
    && (l == DirSync(false) ==> t.disabled && t.reply == Failed(Uncertain))
  }

  lemma WhatChanges(w: World, l: Label, env: Env)
    requires Invariant(w, env) && Next(w, l, env).Some?
    requires !External(l) && !Lifecycle(l)
    ensures Confined(w, l, Next(w, l, env).value)
  {
    hide Next;
    if l.Create? || l.Write? || l.FileSync? {
      TempIsConfined(w, l, env);
    } else if OnDisk(l) {
      RenameIsConfined(w, l, env);
    } else {
      QuietEffect(w, l, env);
    }
  }

  lemma RenameIsConfined(w: World, l: Label, env: Env)
    requires Next(w, l, env).Some? && (l.Rename? || l.DirSync?)
    ensures Confined(w, l, Next(w, l, env).value)
  {
  }

  lemma TempIsConfined(w: World, l: Label, env: Env)
    requires FileOk(w) && StageOk(w, env) && Next(w, l, env).Some?
    requires l.Create? || l.Write? || l.FileSync?
    ensures Confined(w, l, Next(w, l, env).value)
  {
  }

  predicate Refusing(w: World, t: World) {
    && t.disabled && t.stage == Idle && t.disk == w.disk && t.view == w.view && t.log == w.log
    && (t.reply == w.reply || t.reply == Failed(Uncertain))
  }

  lemma StickyStep(w: World, t: World, l: Label, env: Env)
    requires Refusing(w, t) && Next(t, l, env).Some?
    requires !External(l) && !Lifecycle(l)
    ensures Refusing(w, Next(t, l, env).value)
  {
  }

  /** Once disabled, the editor never again changes the file or its view, and refuses every save. */
  lemma {:induction false} DisabledIsSticky(w: World, run: seq<Label>, env: Env)
    requires w.disabled && w.stage == Idle && InProcess(run) && After(w, run, env).Some?
    ensures Refusing(w, After(w, run, env).value)
  {
    if run != [] {
      var n := |run| - 1;
      DisabledIsSticky(w, run[..n], env);
      assert run[n] in run;
      StickyStep(w, After(w, run[..n], env).value, run[n], env);
    }
  }

  /** What a save that has begun may have done so far. */
  ghost predicate Progress(w: World, t: World) {
    || (t.reply == Pending && t.stage != Idle && ((t.stage.Holding? && t.stage.phase == Renamed) || Untouched(w, t)))
    || (t.reply == Saved && t.stage == Idle)
    || (t.reply == Failed(Uncertain) && t.stage == Idle)
    || (t.reply.Failed? && t.stage == Idle && Untouched(w, t))
  }

  predicate Untouched(w: World, t: World) {
    t.disk.name == w.disk.name && t.disk.durable == w.disk.durable && t.view == w.view && t.log == w.log && !t.unsettled
      && !t.disabled
  }

  predicate OneSave(run: seq<Label>) { InProcess(run) && forall l | l in run :: !l.Open? && !l.CloseEditor? }

  /** A run that begins one save. */
  predicate IsSave(all: seq<Label>) { all != [] && all[0].Open? && OneSave(all[1..]) }

  lemma {:induction false} SaveProgress(w: World, all: seq<Label>, env: Env)
    requires Invariant(w, env) && env.Lawful() && w.up && !w.disabled && w.stage == Idle
    requires IsSave(all) && After(w, all, env).Some?
    ensures Progress(w, After(w, all, env).value) && NoExternal(all)
  {
    hide Next, Progress, Invariant;
    var n := |all| - 1;
    assert all[n] in all;
    if n == 0 {
      assert all[..0] == [] && After(w, [], env) == Some(w);
      OpenProgress(w, all[0], env);
    } else {
      assert all[1..][n - 1] == all[n] && all[..n][1..] == all[1..][..n - 1];
      assert OneSave(all[1..][..n - 1]);
      SaveProgress(w, all[..n], env);
      InvariantHolds(w, all[..n], env);
      ProgressKept(w, After(w, all[..n], env).value, all[n], env);
      assert forall l | l in all :: l == all[n] || l in all[..n] by { assert all == all[..n] + [all[n]]; }
    }
  }

  lemma OpenProgress(w: World, l: Label, env: Env)
    requires Invariant(w, env) && w.up && !w.disabled && w.stage == Idle && l.Open? && Next(w, l, env).Some?
    ensures Progress(w, Next(w, l, env).value)
  {
  }

  lemma ProgressKept(w: World, t: World, l: Label, env: Env)
    requires Invariant(t, env) && Progress(w, t) && Next(t, l, env).Some?
    requires !External(l) && !Lifecycle(l) && !l.Open? && !l.CloseEditor?
    ensures Progress(w, Next(t, l, env).value)
  {
    hide LogOk, FileOk, ViewOk, FinalError, RequestData, Edits;
  }

  /** The file, the view, the switch and the history are as they were. */
  ghost predicate Unaffected(w: World, t: World) {
    && DiskOk(t.disk) && DiskOk(w.disk) && Content(t.disk) == Content(w.disk)
    && t.disk.durable == w.disk.durable == {t.disk.name}
    && t.view == w.view && t.log == w.log && !t.unsettled && !t.disabled
  }

  lemma FailedSaveFrom(w: World, save: seq<Label>, env: Env)
    requires Invariant(w, env) && env.Lawful() && w.up && !w.disabled && w.stage == Idle
    requires IsSave(save) && After(w, save, env).Some?
    ensures var t := After(w, save, env).value;
            t.reply.Failed? && t.reply.error != Uncertain ==> Unaffected(w, t)
  {
    SaveProgress(w, save, env);
    InvariantHolds(w, save, env);
    SameInitial(w, save, env);
    var t := After(w, save, env).value;
    if Untouched(w, t) { SameContent(w, t, env); }
  }

  lemma SameContent(w: World, t: World, env: Env)
    requires Invariant(w, env) && Invariant(t, env) && Untouched(w, t) && w.up && !w.disabled && w.stage == Idle
    requires t.initial == w.initial
    ensures Unaffected(w, t)
  {
  }

  /** In every run, a save that fails with anything but "uncertain" leaves everything as it was. */
  lemma FailedSaveChangesNothing(start: World, before: seq<Label>, save: seq<Label>, env: Env)
    requires IsStart(start, env) && env.Lawful() && NoExternal(before) && IsSave(save)
    requires After(start, before, env).Some?
    requires var w := After(start, before, env).value;
             w.up && !w.disabled && w.stage == Idle && After(w, save, env).Some?
    ensures var w := After(start, before, env).value;
            var t := After(w, save, env).value;
            t.reply.Failed? && t.reply.error != Uncertain ==> Unaffected(w, t)
  {
    StartIsOk(start, env);
    InvariantHolds(start, before, env);
    FailedSaveFrom(After(start, before, env).value, save, env);
  }

  // No lost update

  /**
   * The commits form one chain from the first content: each was made from exactly the bytes whose
   * revision the client presented, and is the printed edit of the document in them.
   */
  lemma CommitsFormAChain(start: World, run: seq<Label>, env: Env)
    requires IsStart(start, env) && env.Lawful() && NoExternal(run) && After(start, run, env).Some?
    ensures var w := After(start, run, env).value;
            && IsChain(start.initial, w.log)
            && (forall i | 0 <= i < |w.log| :: CommitOk(w.log[i], env))
            && (w.up ==> w.view.bytes == Confirmed(w))
  {
    StartIsOk(start, env);
    InvariantHolds(start, run, env);
    SameInitial(start, run, env);
  }

  lemma {:induction false} SameInitial(w: World, run: seq<Label>, env: Env)
    requires After(w, run, env).Some?
    ensures After(w, run, env).value.initial == w.initial
  {
    if run != [] {
      hide Next;
      var n := |run| - 1;
      SameInitial(w, run[..n], env);
      InitialKept(After(w, run[..n], env).value, run[n], env);
    }
  }

  lemma InitialKept(w: World, l: Label, env: Env)
    requires Next(w, l, env).Some?
    ensures Next(w, l, env).value.initial == w.initial
  {
    if !External(l) && !OnDisk(l) {
      hide Next;
      QuietEffect(w, l, env);
    }
  }

  function Settledness(w: World): nat { if w.unsettled && w.log != [] then |w.log| - 1 else |w.log| }

  predicate Extends(w: World, t: World) {
    Settledness(w) <= Settledness(t) && t.log[..Settledness(w)] == w.log[..Settledness(w)]
  }

  lemma ExtendsTransitive(a: World, b: World, c: World)
    requires Extends(a, b) && Extends(b, c)
    ensures Extends(a, c)
  {
    var n := Settledness(a);
    assert c.log[..Settledness(b)][..n] == c.log[..n] && b.log[..Settledness(b)][..n] == b.log[..n];
  }

  /** A commit that was confirmed stays in the history for good, whatever crashes follow. */
  lemma {:induction false} ConfirmedCommitsStay(w: World, run: seq<Label>, env: Env)
    requires Invariant(w, env) && env.Lawful() && NoExternal(run) && After(w, run, env).Some?
    ensures Extends(w, After(w, run, env).value)
  {
    if run != [] {
      var n := |run| - 1;
      var before := After(w, run[..n], env).value;
      ConfirmedCommitsStay(w, run[..n], env);
      assert run[n] in run;
      InvariantHolds(w, run[..n], env);
      HistoryGrows(before, run[n], env);
      ExtendsTransitive(w, before, After(w, run, env).value);
    }
  }

  lemma HistoryGrows(w: World, l: Label, env: Env)
    requires Invariant(w, env) && Next(w, l, env).Some? && !External(l)
    ensures Extends(w, Next(w, l, env).value)
  {
    hide Invariant, LogOk, FileOk, ViewOk, StageOk;
    if Turning(l) {
      DiskStepGrows(w, l, env);
    } else {
      hide Next;
      if OnDisk(l) { TempEffect(w, l, env); } else { QuietEffect(w, l, env); }
    }
  }

  lemma DiskStepGrows(w: World, l: Label, env: Env)
    requires Invariant(w, env) && Next(w, l, env).Some?
    requires Turning(l)
    ensures Extends(w, Next(w, l, env).value)
  {
    hide Edits, IsChain, FileOk, ViewOk;
  }

  /** A save that is answered "saved" is the last commit of the history, and settled. */
  lemma SavedIsLogged(w: World, env: Env)
    requires Invariant(w, env) && Next(w, DirSync(true), env).Some?
    ensures var t := Next(w, DirSync(true), env).value;
            && t.reply == Saved && !t.unsettled && t.log == w.log && t.log != []
            && t.log[|t.log| - 1] == Commit(w.stage.req, w.key, w.view.bytes, t.view.bytes)
            && t.view.metadata == env.parse(t.view.bytes).value
  {
  }

  // Authorization

  /** Steps that others take while a save is under way. */
  predicate Environment(l: Label) { Around(l) || External(l) }

  /** Step j of the run is a final check that the request passed, on the data and at the moment it names. */
  ghost predicate Passes(start: World, run: seq<Label>, j: nat, req: Request, env: Env)
    requires j < |run|
  {
    && run[j].FinalCheck? && After(start, run[..j], env).Some?
    && var w := After(start, run[..j], env).value;
       && w.stage.Holding? && w.stage.req == req && OrderFits(run[j].m.order, w.cache)
       && FinalError(RequestData(w.cache, w.view), req, w.key, run[j].m, env).None?
  }

  ghost predicate AuthorizedAt(start: World, run: seq<Label>, j: nat, req: Request, env: Env)
    requires j < |run|
  {
    Passes(start, run, j, req, env) && forall k | j < k < |run| :: Environment(run[k])
  }

  lemma {:induction false} AuthorizedRecently(start: World, run: seq<Label>, env: Env)
    requires start.stage == Idle && After(start, run, env).Some? && Holds(After(start, run, env).value, Authorized)
    ensures exists j :: 0 <= j < |run| && AuthorizedAt(start, run, j, After(start, run, env).value.stage.req, env)
  {
    hide Next, FinalError, OrderFits, RequestData;
    var n := |run| - 1;
    var before, req := After(start, run[..n], env).value, After(start, run, env).value.stage.req;
    if run[n].FinalCheck? {
      CheckPassed(before, run[n].m, env);
      assert AuthorizedAt(start, run, n, req, env);
    } else {
      DownIsIdle(start, run[..n], env);
      AuthorizedPersists(before, run[n], env);
      AuthorizedRecently(start, run[..n], env);
      var j :| 0 <= j < n && AuthorizedAt(start, run[..n], j, req, env);
      assert run[..n][..j] == run[..j] && run[..n][j] == run[j];
      forall k | j < k < |run| ensures Environment(run[k]) {
        if k < n { assert run[..n][k] == run[k]; }
      }
      assert AuthorizedAt(start, run, j, req, env);
    }
  }

  lemma {:induction false} DownIsIdle(start: World, run: seq<Label>, env: Env)
    requires start.stage == Idle && After(start, run, env).Some?
    ensures After(start, run, env).value.up || After(start, run, env).value.stage == Idle
  {
    if run != [] {
      hide Next;
      var n := |run| - 1;
      DownIsIdle(start, run[..n], env);
      DownStaysIdle(After(start, run[..n], env).value, run[n], env);
    }
  }

  lemma DownStaysIdle(w: World, l: Label, env: Env)
    requires (w.up || w.stage == Idle) && Next(w, l, env).Some?
    ensures Next(w, l, env).value.up || Next(w, l, env).value.stage == Idle
  {
    hide DiskError, FinalError, OrderFits, RequestData;
  }

  lemma CheckPassed(w: World, m: Moment, env: Env)
    requires Next(w, FinalCheck(m), env).Some? && Holds(Next(w, FinalCheck(m), env).value, Authorized)
    ensures Holds(w, Rechecked) && w.stage.req == Next(w, FinalCheck(m), env).value.stage.req
    ensures OrderFits(m.order, w.cache)
    ensures FinalError(RequestData(w.cache, w.view), w.stage.req, w.key, m, env).None?
  {
  }

  lemma AuthorizedPersists(w: World, l: Label, env: Env)
    requires w.up || w.stage == Idle
    requires Next(w, l, env).Some? && Holds(Next(w, l, env).value, Authorized) && !l.FinalCheck?
    ensures Environment(l) && Holds(w, Authorized) && w.stage.req == Next(w, l, env).value.stage.req
  {
  }

  /**
   * Every rename, in every run whatever, comes right after a final check that the same request passed:
   * only polls and strangers act in between.
   */
  lemma RenamesAreAuthorized(start: World, run: seq<Label>, i: nat, env: Env)
    requires IsStart(start, env) && After(start, run, env).Some? && i < |run| && run[i] == Rename(true)
    ensures After(start, run[..i], env).Some? && After(start, run[..i], env).value.stage.Holding?
    ensures exists j :: 0 <= j < i && AuthorizedAt(start, run[..i], j, After(start, run[..i], env).value.stage.req, env)
  {
    hide Next, IsStart, AuthorizedAt;
    StartsIdle(start, env);
    PrefixRuns(start, run, i + 1, env);
    assert run[..i + 1][..i] == run[..i];
    RenamesHold(After(start, run[..i], env).value, env);
    AuthorizedRecently(start, run[..i], env);
  }

  lemma RenamesHold(w: World, env: Env)
    requires Next(w, Rename(true), env).Some?
    ensures Holds(w, Authorized)
  {
  }

  lemma StartsIdle(start: World, env: Env)
    requires IsStart(start, env)
    ensures start.stage == Idle
  {
  }

  lemma {:induction false} PrefixRuns(start: World, run: seq<Label>, i: nat, env: Env)
    requires After(start, run, env).Some? && i <= |run|
    ensures After(start, run[..i], env).Some?
  {
    if i < |run| {
      PrefixRuns(start, run[..|run| - 1], i, env);
      assert run[..|run| - 1][..i] == run[..i];
    } else {
      assert run[..i] == run;
    }
  }

  // What requests see

  /** However old the metadata a poll publishes, a request reads that of the last confirmed commit. */
  lemma RequestsSeeLastCommit(start: World, run: seq<Label>, env: Env)
    requires IsStart(start, env) && env.Lawful() && NoExternal(run) && After(start, run, env).Some?
    ensures var w := After(start, run, env).value;
            w.up && w.cache.Some? ==>
              && RequestData(w.cache, w.view).value.metadata == env.parse(Confirmed(w))
              && RequestData(w.cache, w.view).value == w.cache.value.(metadata := env.parse(Confirmed(w)))
  {
    StartIsOk(start, env);
    InvariantHolds(start, run, env);
  }

  /** One poll, from its start to its end: where each of its parts was loaded. */
  predicate LoadedBy(run: seq<Label>, poll: Poll) {
    match poll
    case NoPoll => true
    case Started(_) => true
    case Controlled(_, control) => exists a | 0 <= a < |run| :: ControlAt(run, a, |run|, control)
    case Complete(_, control, hosts, at) =>
      exists a, b | 0 <= a < b < |run| :: CompleteAt(run, a, b, |run|, control, hosts, at)
  }

  predicate Uninterrupted(run: seq<Label>, a: nat, end: nat)
    requires end <= |run|
  {
    forall k | a < k < end ::
        !run[k].PollStart? && !run[k].PollFail? && !run[k].PollPublish? && !run[k].Crash? && !run[k].Exit?
  }

  predicate ControlAt(run: seq<Label>, a: nat, end: nat, control: ControlLoad)
    requires a < end <= |run|
  {
    run[a] == PollControl(control) && Uninterrupted(run, a, end)
  }

  predicate CompleteAt(run: seq<Label>, a: nat, b: nat, end: nat, control: ControlLoad, hosts: seq<ProxyHost>, at: int)
    requires a < b < end <= |run|
  {
    ControlAt(run, a, end, control) && run[b] == PollHosts(hosts, at)
  }

  lemma {:induction false} PollsAssemble(start: World, run: seq<Label>, env: Env)
    requires start.poll == NoPoll && After(start, run, env).Some?
    ensures LoadedBy(run, After(start, run, env).value.poll)
  {
    if run != [] {
      var n := |run| - 1;
      PollsAssemble(start, run[..n], env);
      PollEffect(After(start, run[..n], env).value, run[n], env);
      PollStep(run, After(start, run[..n], env).value.poll, After(start, run, env).value.poll);
    }
  }

  /** How a step moves the poll, whatever else it does. */
  predicate PollMoves(before: Poll, l: Label, after: Poll) {
    if l.PollStart? then after.Started?
    else if l.PollControl? then before.Started? && after == Controlled(before.metadata, l.control)
    else if l.PollHosts? then before.Controlled? && after == Complete(before.metadata, before.control, l.hosts, l.at)
    else if l.PollPublish? then before.Complete? && after == NoPoll
    else if l.PollFail? || l.Crash? || l.Exit? then after == NoPoll
    else after == before
  }

  lemma PollStepEffect(w: World, l: Label, env: Env)
    requires Around(l) && Next(w, l, env).Some?
    ensures PollMoves(w.poll, l, Next(w, l, env).value.poll)
    ensures l.PollStart? ==> Next(w, l, env).value.poll == Started(w.view.metadata)
    ensures l.PollPublish? ==>
              Next(w, l, env).value.cache == Some(Assembled(w.poll.control, w.poll.hosts, w.poll.metadata, w.poll.at))
    ensures !l.PollPublish? ==> Next(w, l, env).value.cache == w.cache
  {
    hide SaveNext, OtherNext;
  }

  lemma OtherStepsPoll(w: World, l: Label, env: Env)
    requires !Around(l) && Next(w, l, env).Some?
    ensures PollMoves(w.poll, l, Next(w, l, env).value.poll)
    ensures Next(w, l, env).value.cache.Some? ==> Next(w, l, env).value.cache == w.cache
  {
    if Lifecycle(l) || External(l) {
      LifecyclePoll(w, l, env);
      hide OtherNext;
    } else {
      hide PollNext, OtherNext, DiskError, FinalError, OrderFits, RequestData, DiskOk;
    }
  }

  lemma LifecyclePoll(w: World, l: Label, env: Env)
    requires OtherNext(w, l, env).Some?
    ensures PollMoves(w.poll, l, OtherNext(w, l, env).value.poll)
    ensures OtherNext(w, l, env).value.cache.Some? ==> OtherNext(w, l, env).value.cache == w.cache
  {
  }

  lemma PollEffect(w: World, l: Label, env: Env)
    requires Next(w, l, env).Some?
    ensures PollMoves(w.poll, l, Next(w, l, env).value.poll)
    ensures l.PollStart? ==> Next(w, l, env).value.poll == Started(w.view.metadata)
    ensures l.PollPublish? ==>
              Next(w, l, env).value.cache == Some(Assembled(w.poll.control, w.poll.hosts, w.poll.metadata, w.poll.at))
    ensures !l.PollPublish? && Next(w, l, env).value.cache.Some? ==> Next(w, l, env).value.cache == w.cache
  {
    if Around(l) {
      PollStepEffect(w, l, env);
    } else {
      hide PollNext;
      OtherStepsPoll(w, l, env);
    }
  }

  lemma PollStep(run: seq<Label>, before: Poll, after: Poll)
    requires run != [] && LoadedBy(run[..|run| - 1], before) && PollMoves(before, run[|run| - 1], after)
    ensures LoadedBy(run, after)
  {
    var n := |run| - 1;
    if run[n].PollControl? {
      assert ControlAt(run, n, |run|, run[n].control);
    } else if after.Controlled? {
      var a :| 0 <= a < n && ControlAt(run[..n], a, n, before.control);
      assert ControlAt(run, a, |run|, before.control);
    } else if run[n].PollHosts? {
      var a :| 0 <= a < n && ControlAt(run[..n], a, n, before.control);
      assert CompleteAt(run, a, n, |run|, after.control, after.hosts, after.at);
    } else if after.Complete? {
      var a, b :| 0 <= a < b < n && CompleteAt(run[..n], a, b, n, before.control, before.hosts, before.at);
      assert CompleteAt(run, a, b, |run|, before.control, before.hosts, before.at);
    }
  }

  /** What the cache holds is all from one poll that ran through: its policy, nodes and roles, and its hosts. */
  predicate PublishedAt(run: seq<Label>, a: nat, b: nat, c: nat, data: CacheData)
    requires a < b < c < |run|
  {
    && run[a].PollControl? && run[b].PollHosts? && run[c] == PollPublish && Uninterrupted(run, a, c)
    && data.policy == Some(run[a].control.policy) && data.nodes == run[a].control.nodes
    && data.roles == run[a].control.roles
    && data.proxyHosts == run[b].hosts && data.updatedAt == run[b].at
  }

  /** The published snapshot comes from one complete load; a failed refresh never replaces it. */
  lemma {:induction false} CacheIsOneLoad(start: World, run: seq<Label>, env: Env)
    requires IsStart(start, env) && After(start, run, env).Some?
    requires After(start, run, env).value.cache.Some?
    ensures exists a, b, c | 0 <= a < b < c < |run| ::
              PublishedAt(run, a, b, c, After(start, run, env).value.cache.value)
  {
    var n := |run| - 1;
    var before := After(start, run[..n], env).value;
    var data := After(start, run, env).value.cache.value;
    hide Next, LoadedBy, IsStart;
    PollEffect(before, run[n], env);
    if run[n] == PollPublish {
      NoPollAtStart(start, env);
      PollsAssemble(start, run[..n], env);
      Published(run, before.poll, data);
    } else {
      CacheIsOneLoad(start, run[..n], env);
      PublishedBefore(run, n, data);
    }
  }

  lemma NoPollAtStart(start: World, env: Env)
    requires IsStart(start, env)
    ensures start.poll == NoPoll
  {
  }

  lemma PublishedBefore(run: seq<Label>, n: nat, data: CacheData)
    requires n < |run| && exists a, b, c | 0 <= a < b < c < n :: PublishedAt(run[..n], a, b, c, data)
    ensures exists a, b, c | 0 <= a < b < c < |run| :: PublishedAt(run, a, b, c, data)
  {
    var a, b, c :| 0 <= a < b < c < n && PublishedAt(run[..n], a, b, c, data);
    assert PublishedAt(run, a, b, c, data);
  }

  lemma Published(run: seq<Label>, poll: Poll, data: CacheData)
    requires run != [] && run[|run| - 1] == PollPublish && poll.Complete? && LoadedBy(run[..|run| - 1], poll)
    requires data == Assembled(poll.control, poll.hosts, poll.metadata, poll.at)
    ensures exists a, b, c | 0 <= a < b < c < |run| :: PublishedAt(run, a, b, c, data)
  {
    var n := |run| - 1;
    var a, b :| 0 <= a < b < n && CompleteAt(run[..n], a, b, n, poll.control, poll.hosts, poll.at);
    assert PublishedAt(run, a, b, n, data);
  }

  /** Step s starts a poll that nothing ends before step `end`, and takes this metadata from the editor. */
  ghost predicate ViewTaken(start: World, run: seq<Label>, s: nat, end: nat, metadata: M.Metadata, env: Env)
    requires s < end <= |run|
  {
    && run[s] == PollStart && Uninterrupted(run, s, end)
    && After(start, run[..s], env).Some? && After(start, run[..s], env).value.view.metadata == metadata
  }

  ghost predicate TakenBefore(start: World, run: seq<Label>, end: nat, metadata: M.Metadata, env: Env)
    requires end <= |run|
  {
    exists s | 0 <= s < end :: ViewTaken(start, run, s, end, metadata, env)
  }

  lemma TakenInLonger(start: World, run: seq<Label>, end: nat, n: nat, metadata: M.Metadata, env: Env)
    requires end <= n <= |run| && TakenBefore(start, run[..n], end, metadata, env)
    ensures TakenBefore(start, run, end, metadata, env)
  {
    hide After;
    var s :| 0 <= s < end && ViewTaken(start, run[..n], s, end, metadata, env);
    assert run[..n][..s] == run[..s];
    assert ViewTaken(start, run, s, end, metadata, env);
  }

  lemma TakenGoesOn(start: World, run: seq<Label>, n: nat, metadata: M.Metadata, env: Env)
    requires n < |run| && TakenBefore(start, run, n, metadata, env) && Uninterrupted(run, n - 1, n + 1)
    ensures TakenBefore(start, run, n + 1, metadata, env)
  {
    hide After;
    var s :| 0 <= s < n && ViewTaken(start, run, s, n, metadata, env);
    assert ViewTaken(start, run, s, n + 1, metadata, env);
  }

  lemma {:induction false} PollTakesTheView(start: World, run: seq<Label>, env: Env)
    requires start.poll == NoPoll && After(start, run, env).Some? && After(start, run, env).value.poll != NoPoll
    ensures TakenBefore(start, run, |run|, After(start, run, env).value.poll.metadata, env)
  {
    hide Next, ViewTaken, TakenBefore;
    var n := |run| - 1;
    var before := After(start, run[..n], env).value;
    PollEffect(before, run[n], env);
    if before.poll != NoPoll { PollTakesTheView(start, run[..n], env); }
    TakenInOneStep(start, run, before.poll, After(start, run, env).value.poll, env);
  }

  lemma TakenInOneStep(start: World, run: seq<Label>, before: Poll, after: Poll, env: Env)
    requires run != [] && after != NoPoll && PollMoves(before, run[|run| - 1], after)
    requires After(start, run[..|run| - 1], env).Some?
    requires run[|run| - 1] == PollStart ==>
               after == Started(After(start, run[..|run| - 1], env).value.view.metadata)
    requires before != NoPoll ==> TakenBefore(start, run[..|run| - 1], |run| - 1, before.metadata, env)
    ensures TakenBefore(start, run, |run|, after.metadata, env)
  {
    hide After;
    var n := |run| - 1;
    if run[n] == PollStart {
      assert ViewTaken(start, run, n, |run|, after.metadata, env);
    } else {
      hide ViewTaken, TakenBefore;
      TakenInLonger(start, run, n, n, after.metadata, env);
      TakenGoesOn(start, run, n, after.metadata, env);
    }
  }

  /** The published metadata is what the editor showed when the load behind it began. */
  lemma {:induction false} CacheHoldsTheView(start: World, run: seq<Label>, env: Env)
    requires IsStart(start, env) && After(start, run, env).Some?
    requires After(start, run, env).value.cache.Some?
    ensures exists c, metadata | 0 <= c < |run| ::
              && run[c] == PollPublish && TakenBefore(start, run, c, metadata, env)
              && After(start, run, env).value.cache.value.metadata == Some(metadata)
  {
    var n := |run| - 1;
    var before := After(start, run[..n], env).value;
    NoPollAtStart(start, env);
    PollEffect(before, run[n], env);
    hide Next, IsStart, ViewTaken, TakenBefore;
    if run[n] == PollPublish {
      PollTakesTheView(start, run[..n], env);
      TakenInLonger(start, run, n, n, before.poll.metadata, env);
    } else {
      CacheHoldsTheView(start, run[..n], env);
      var c, metadata :| 0 <= c < n && run[..n][c] == PollPublish
        && TakenBefore(start, run[..n], c, metadata, env) && before.cache.value.metadata == Some(metadata);
      TakenInLonger(start, run, c, n, metadata, env);
      assert run[c] == PollPublish;
    }
  }
}
