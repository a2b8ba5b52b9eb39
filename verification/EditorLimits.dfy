/** What the editor does not promise: writers that ignore its lock, and revocations in the last moment. */
module EditorLimits {
  import opened Common
  import opened ServiceMatcher
  import opened EditorProtocol
  import opened EditorSafety
  import opened MetadataEditor
  import M = ServiceMetadata

  /** How far a save has come: what it has got done of visibility check, comparison, printing and the rest. */
  datatype Point = Asked | Accepted | Compared | Printed | Has(phase: Phase)

  function PointOf(s: Stage): Point
    requires s != Idle
  {
    match s
    case Opened(_) => Asked
    case Admitted(_, _) => Accepted
    case Current(_, _) => Compared
    case Ready(_, _) => Printed
    case Holding(phase, _, _, _) => Has(phase)
  }

  /** The moments of both checks, and the name of the temporary file. */
  datatype Plan = Plan(first: Moment, temp: nat, last: Moment)

  function Step(p: Point, plan: Plan): Label {
    match p
    case Asked => Admit(plan.first)
    case Accepted => Compare(true)
    case Compared => Serialize
    case Printed => Create(true, plan.temp)
    case Has(Created) => Write(true, [])
    case Has(Written) => FileSync(true)
    case Has(Synced) => CloseTemp(true)
    case Has(Closed) => Recheck(true)
    case Has(Rechecked) => FinalCheck(plan.last)
    case Has(Authorized) => Rename(true)
    case Has(Renamed) => DirSync(true)
  }

  function Successor(p: Point): Point {
    match p
    case Asked => Accepted
    case Accepted => Compared
    case Compared => Printed
    case Printed => Has(Created)
    case Has(Created) => Has(Written)
    case Has(Written) => Has(Synced)
    case Has(Synced) => Has(Closed)
    case Has(Closed) => Has(Rechecked)
    case Has(Rechecked) => Has(Authorized)
    case Has(_) => Has(Renamed)
  }

  function Ahead(p: Point): nat {
    match p
    case Asked => 10 case Accepted => 9 case Compared => 8 case Printed => 7
    case Has(Created) => 6 case Has(Written) => 5 case Has(Synced) => 4 case Has(Closed) => 3
    case Has(Rechecked) => 2 case Has(Authorized) => 1 case Has(Renamed) => 0
  }

  /** The steps of a save from this point on, with every system call working. */
  function Remaining(p: Point, plan: Plan): seq<Label>
    decreases Ahead(p)
  {
    if p == Has(Renamed) then [Step(p, plan)] else [Step(p, plan)] + Remaining(Successor(p), plan)
  }

  lemma SuccessorIsNearer(p: Point, plan: Plan)
    ensures !External(Step(p, plan))
    ensures p != Has(Renamed) ==> Ahead(Successor(p)) < Ahead(p)
    ensures p != Has(Rechecked) ==> (TooLate(Successor(p)) <==> TooLate(p))
    ensures p == Has(Authorized) ==> Successor(p) == Has(Renamed)
  {
  }

  /** The save is under way and, left alone, goes through. */
  ghost predicate GoingWell(w: World, plan: Plan, env: Env) {
    w.up && w.stage != Idle && w.reply == Pending && Play(w, Remaining(PointOf(w.stage), plan), env).reply == Saved
  }

  /** A step of a save fails, ends it or moves it on by one. */
  ghost predicate Moves(w: World, p: Point, t: World) {
    && t.up
    && (p == Has(Renamed) ==> t.stage == Idle && t.reply == Saved)
    && (p != Has(Renamed) && t.stage == Idle ==> t.reply.Failed?)
    && (p != Has(Renamed) && t.stage != Idle ==> PointOf(t.stage) == Successor(p) && t.reply == w.reply)
  }

  lemma StepMoves(w: World, plan: Plan, env: Env)
    requires w.up && w.stage != Idle && Next(w, Step(PointOf(w.stage), plan), env).Some?
    ensures Moves(w, PointOf(w.stage), Next(w, Step(PointOf(w.stage), plan), env).value)
  {
    if w.stage.Holding? { LateStepMoves(w, plan, env); } else { EarlyStepMoves(w, plan, env); }
  }

  lemma EarlyStepMoves(w: World, plan: Plan, env: Env)
    requires w.up && w.stage != Idle && !w.stage.Holding? && Next(w, Step(PointOf(w.stage), plan), env).Some?
    ensures Moves(w, PointOf(w.stage), Next(w, Step(PointOf(w.stage), plan), env).value)
  {
    hide OtherNext, PollNext, DiskError, FinalError, OrderFits, RequestData;
  }

  lemma LateStepMoves(w: World, plan: Plan, env: Env)
    requires w.up && w.stage.Holding? && Next(w, Step(PointOf(w.stage), plan), env).Some?
    ensures Moves(w, PointOf(w.stage), Next(w, Step(PointOf(w.stage), plan), env).value)
  {
    hide OtherNext, PollNext, DiskError, FinalError, OrderFits, RequestData;
  }

  lemma PlayRemaining(w: World, p: Point, plan: Plan, env: Env)
    ensures Play(w, Remaining(p, plan), env)
         == if Next(w, Step(p, plan), env).None? then w
            else if p == Has(Renamed) then Next(w, Step(p, plan), env).value
            else Play(Next(w, Step(p, plan), env).value, Remaining(Successor(p), plan), env)
    ensures w.stage == Idle ==> Play(w, Remaining(p, plan), env) == w
  {
    hide Next;
    var l := Step(p, plan);
    if p == Has(Renamed) {
      assert Remaining(p, plan) == [l] + [];
      PlayFirst(w, l, [], env);
      if w.stage == Idle { PlayIdle(w, l, [], env); }
    } else {
      PlayFirst(w, l, Remaining(Successor(p), plan), env);
      if w.stage == Idle { PlayIdle(w, l, Remaining(Successor(p), plan), env); }
    }
  }

  lemma GoesOnWell(w: World, plan: Plan, env: Env)
    requires GoingWell(w, plan, env)
    ensures var p, t := PointOf(w.stage), Next(w, Step(PointOf(w.stage), plan), env);
            && t.Some?
            && (p != Has(Renamed) ==> GoingWell(t.value, plan, env) && PointOf(t.value.stage) == Successor(p))
  {
    hide Next, Play;
    var p := PointOf(w.stage);
    PlayRemaining(w, p, plan, env);
    var t := Next(w, Step(p, plan), env);
    if t.Some? {
      StepMoves(w, plan, env);
      if p != Has(Renamed) && t.value.stage == Idle { PlayRemaining(t.value, Successor(p), plan, env); }
    }
  }

  // Strangers

  /** The disk of a save into which a stranger has written. */
  predicate Overwritten(v: World, plan: Plan, bytes: Bytes) {
    && DiskOk(v.disk) && Content(v.disk) == bytes && bytes != v.view.bytes
    && (!v.stage.Holding? ==> plan.temp !in v.disk.inodes)
    && (v.stage.Holding? && v.stage.phase != Renamed ==>
          && v.stage.temp in v.disk.inodes && v.stage.temp != v.disk.name
          && (v.stage.phase != Created ==> v.disk.inodes[v.stage.temp].data == v.stage.contents))
  }

  /** A look at the file finds the stranger's bytes. */
  lemma LookFails(v: World, plan: Plan, bytes: Bytes, env: Env)
    requires v.up && v.stage != Idle && Overwritten(v, plan, bytes)
    requires PointOf(v.stage) == Has(Closed)
             || (PointOf(v.stage) == Accepted && v.stage.req.revision == v.view.revision)
    ensures var u := Next(v, Step(PointOf(v.stage), plan), env);
            && u.Some? && u.value.stage == Idle && u.value.disk == v.disk
            && u.value.reply == Failed(if |bytes| > M.MAX_BYTES then Storage else Conflict)
  {
    hide OtherNext, PollNext;
  }

  /** All other steps go on as if nothing had happened; the rename puts the save's own file in place. */
  ghost predicate GoesOn(p: Point, t: World, u: World, plan: Plan, bytes: Bytes) {
    && u == t.(disk := u.disk)
    && (p != Has(Authorized) ==> Overwritten(u, plan, bytes))
    && (p == Has(Authorized) ==> Holds(u, Renamed) && DiskOk(u.disk) && Content(u.disk) == u.stage.contents)
  }

  ghost predicate StepPasses(w: World, plan: Plan, env: Env)
    requires w.stage != Idle
  {
    Next(w, Step(PointOf(w.stage), plan), env).Some? && Next(w, Step(PointOf(w.stage), plan), env).value.stage != Idle
  }

  lemma EarlyStepGoesOn(w: World, v: World, plan: Plan, bytes: Bytes, env: Env)
    requires w.up && (w.stage.Opened? || w.stage.Current? || w.stage.Ready?) && StepPasses(w, plan, env)
    requires v == w.(disk := v.disk) && Overwritten(v, plan, bytes)
    ensures var p := PointOf(w.stage);
            && Next(v, Step(p, plan), env).Some?
            && GoesOn(p, Next(w, Step(p, plan), env).value, Next(v, Step(p, plan), env).value, plan, bytes)
  {
    hide OtherNext, PollNext, DiskError, FinalError, RequestData;
  }

  lemma WriteGoesOn(w: World, v: World, plan: Plan, bytes: Bytes, env: Env)
    requires (Holds(w, Created) || Holds(w, Written) || Holds(w, Synced)) && StepPasses(w, plan, env)
    requires v == w.(disk := v.disk) && Overwritten(v, plan, bytes)
    ensures var p := PointOf(w.stage);
            && Next(v, Step(p, plan), env).Some?
            && GoesOn(p, Next(w, Step(p, plan), env).value, Next(v, Step(p, plan), env).value, plan, bytes)
  {
    hide OtherNext, PollNext, DiskError, FinalError, RequestData;
  }

  lemma LateStepGoesOn(w: World, v: World, plan: Plan, bytes: Bytes, env: Env)
    requires (Holds(w, Rechecked) || Holds(w, Authorized)) && StepPasses(w, plan, env)
    requires v == w.(disk := v.disk) && Overwritten(v, plan, bytes)
    ensures var p := PointOf(w.stage);
            && Next(v, Step(p, plan), env).Some?
            && GoesOn(p, Next(w, Step(p, plan), env).value, Next(v, Step(p, plan), env).value, plan, bytes)
  {
    hide OtherNext, PollNext, DiskError, FinalError, RequestData;
  }

  lemma StepGoesOn(w: World, v: World, plan: Plan, bytes: Bytes, env: Env)
    requires w.up && w.stage != Idle && StepPasses(w, plan, env) && v == w.(disk := v.disk)
    requires Overwritten(v, plan, bytes)
    requires PointOf(w.stage) != Accepted && PointOf(w.stage) != Has(Closed) && PointOf(w.stage) != Has(Renamed)
    ensures var p := PointOf(w.stage);
            && Next(v, Step(p, plan), env).Some?
            && GoesOn(p, Next(w, Step(p, plan), env).value, Next(v, Step(p, plan), env).value, plan, bytes)
  {
    hide Next, GoesOn, StepPasses, Overwritten;
    if !w.stage.Holding? {
      EarlyStepGoesOn(w, v, plan, bytes, env);
    } else if w.stage.phase == Rechecked || w.stage.phase == Authorized {
      LateStepGoesOn(w, v, plan, bytes, env);
    } else {
      WriteGoesOn(w, v, plan, bytes, env);
    }
  }

  lemma SyncGoesOn(w: World, v: World, plan: Plan, env: Env)
    requires Holds(w, Renamed) && v == w.(disk := v.disk) && DiskOk(v.disk) && Next(w, DirSync(true), env).Some?
    ensures var u := Play(v, Remaining(Has(Renamed), plan), env);
            && u.reply == Saved && DiskOk(u.disk) && Content(u.disk) == Content(v.disk)
            && u.view.bytes == w.stage.contents
  {
    hide OtherNext, PollNext;
    PlayRemaining(v, Has(Renamed), plan, env);
  }

  predicate Unnoticed(p: Point) { p == Has(Rechecked) || p == Has(Authorized) || p == Has(Renamed) }

  /** How a save ends after a stranger's write at this point, and whose bytes the file then holds. */
  predicate AfterStranger(p: Point, bytes: Bytes, t: World) {
    && DiskOk(t.disk)
    && (t.reply == Saved <==> Unnoticed(p))
    && (!Unnoticed(p) ==> t.reply == Failed(if |bytes| > M.MAX_BYTES then Storage else Conflict))
    && Content(t.disk) == if p == Has(Rechecked) || p == Has(Authorized) then t.view.bytes else bytes
  }

  lemma {:induction false} StrangerOutcome(w: World, v: World, plan: Plan, bytes: Bytes, env: Env)
    requires GoingWell(w, plan, env) && v == w.(disk := v.disk) && Overwritten(v, plan, bytes)
    ensures AfterStranger(PointOf(w.stage), bytes, Play(v, Remaining(PointOf(w.stage), plan), env))
    decreases Ahead(PointOf(w.stage))
  {
    hide Next, Play, Overwritten;
    var p := PointOf(w.stage);
    SuccessorIsNearer(p, plan);
    GoesOnWell(w, plan, env);
    var t := Next(w, Step(p, plan), env).value;
    PlayRemaining(v, p, plan, env);
    if p == Accepted || p == Has(Closed) {
      if p == Accepted { RevisionIsCurrent(w, env); }
      LookFails(v, plan, bytes, env);
      PlayRemaining(Next(v, Step(p, plan), env).value, Successor(p), plan, env);
      StaysOverwritten(v, plan, bytes);
    } else if p == Has(Renamed) {
      StaysOverwritten(v, plan, bytes);
      SyncGoesOn(w, v, plan, env);
    } else {
      StepGoesOn(w, v, plan, bytes, env);
      var u := Next(v, Step(p, plan), env).value;
      if p == Has(Authorized) {
        GoesOnWell(t, plan, env);
        SyncGoesOn(t, u, plan, env);
      } else {
        StrangerOutcome(t, u, plan, bytes, env);
      }
    }
  }

  lemma RevisionIsCurrent(w: World, env: Env)
    requires w.up && w.stage.Admitted? && Next(w, Compare(true), env).Some?
    requires Next(w, Compare(true), env).value.stage != Idle
    ensures w.stage.req.revision == w.view.revision
  {
  }

  lemma StaysOverwritten(v: World, plan: Plan, bytes: Bytes)
    requires Overwritten(v, plan, bytes)
    ensures DiskOk(v.disk) && Content(v.disk) == bytes
  {
  }

  /**
   * At whatever point of a save that would go through a stranger replaces the file by other bytes: the save
   * takes no notice, and answers "saved", exactly from its second look at the file on. Then the stranger's
   * bytes are lost if they came before the rename; in all other cases they stay.
   */
  lemma StrangersWriteIsLost(w: World, bytes: Bytes, inode: nat, plan: Plan, env: Env)
    requires Invariant(w, env) && GoingWell(w, plan, env)
    requires bytes != w.view.bytes && inode !in w.disk.inodes && plan.temp !in w.disk.inodes && plan.temp != inode
    ensures AfterStranger(PointOf(w.stage), bytes,
                          Play(w, [ExternalWrite(bytes, inode)] + Remaining(PointOf(w.stage), plan), env))
  {
    hide AfterStranger, Play, SaveNext, PollNext, Invariant;
    PlayFirst(w, ExternalWrite(bytes, inode), Remaining(PointOf(w.stage), plan), env);
    WriteOverwrites(w, bytes, inode, plan, env);
    StrangerOutcome(w, Next(w, ExternalWrite(bytes, inode), env).value, plan, bytes, env);
  }

  lemma WriteOverwrites(w: World, bytes: Bytes, inode: nat, plan: Plan, env: Env)
    requires Invariant(w, env)
    requires bytes != w.view.bytes && inode !in w.disk.inodes && plan.temp !in w.disk.inodes && plan.temp != inode
    ensures var v := Next(w, ExternalWrite(bytes, inode), env);
            v.Some? && v.value == w.(disk := v.value.disk) && Overwritten(v.value, plan, bytes)
  {
    hide SaveNext, PollNext, LogOk, ViewOk, BootOk, Edits;
  }

  // Revocations

  function Polled(w: World): Option<CacheData>
    requires w.poll.Complete?
  {
    Some(Assembled(w.poll.control, w.poll.hosts, w.poll.metadata, w.poll.at))
  }

  /** The data hides the service from the request at both moments. */
  ghost predicate Hides(data: Option<CacheData>, view: View, key: nat, req: Request, plan: Plan, env: Env) {
    && OrderFits(plan.first.order, data) && OrderFits(plan.last.order, data)
    && env.visibility(RequestData(data, view), req, key, plan.first).Some?
    && env.visibility(RequestData(data, view), req, key, plan.last).Some?
  }

  /** With the data that hides the service in the cache, both checks fail and no other step minds. */
  lemma CheckFails(v: World, plan: Plan, env: Env)
    requires v.up && v.stage != Idle && Hides(v.cache, v.view, v.key, v.stage.req, plan, env)
    requires PointOf(v.stage) == Asked || PointOf(v.stage) == Has(Rechecked)
    ensures var u := Next(v, Step(PointOf(v.stage), plan), env);
            u.Some? && u.value.stage == Idle && u.value.reply.Failed?
              && u.value == v.(stage := Idle, reply := u.value.reply)
  {
    hide OtherNext, PollNext;
  }

  ghost predicate Blind(w: World, v: World, plan: Plan, later: Plan, env: Env)
    requires w.stage != Idle
  {
    var t, u := Next(w, Step(PointOf(w.stage), plan), env), Next(v, Step(PointOf(w.stage), later), env);
    t.Some? ==> u.Some? && u.value == t.value.(cache := v.cache, poll := v.poll)
  }

  lemma EarlyStepIsBlind(w: World, v: World, plan: Plan, later: Plan, env: Env)
    requires w.up && (w.stage.Admitted? || w.stage.Current? || w.stage.Ready?)
    requires v == w.(cache := v.cache, poll := v.poll) && later.temp == plan.temp
    ensures Blind(w, v, plan, later, env)
  {
    hide OtherNext, PollNext, DiskError;
  }

  lemma LateStepIsBlind(w: World, v: World, plan: Plan, later: Plan, env: Env)
    requires w.up && w.stage.Holding? && w.stage.phase != Rechecked && v == w.(cache := v.cache, poll := v.poll)
    ensures Blind(w, v, plan, later, env)
  {
    hide OtherNext, PollNext, DiskError, FinalError;
  }

  lemma StepIsBlind(w: World, v: World, plan: Plan, later: Plan, env: Env)
    requires w.up && w.stage != Idle && v == w.(cache := v.cache, poll := v.poll) && later.temp == plan.temp
    requires PointOf(w.stage) != Asked && PointOf(w.stage) != Has(Rechecked)
    ensures Blind(w, v, plan, later, env)
  {
    hide Blind;
    if w.stage.Holding? { LateStepIsBlind(w, v, plan, later, env); } else { EarlyStepIsBlind(w, v, plan, later, env); }
  }

  predicate TooLate(p: Point) { p == Has(Authorized) || p == Has(Renamed) }

  /** How the save that would have ended in `undisturbed` ends after a revocation at this point. */
  predicate AfterRevocation(w: World, p: Point, undisturbed: World, t: World) {
    && (TooLate(p) ==> t == undisturbed.(cache := t.cache, poll := t.poll))
    && (!TooLate(p) ==>
          t.reply.Failed? && t.stage == Idle && SameFile(w.disk, t.disk) && t.view == w.view && t.log == w.log)
  }

  /** What the steps of a save up to the rename leave alone. */
  lemma StepKeeps(w: World, plan: Plan, env: Env)
    requires Invariant(w, env) && w.up && w.stage != Idle && Next(w, Step(PointOf(w.stage), plan), env).Some?
    ensures var p, t := PointOf(w.stage), Next(w, Step(PointOf(w.stage), plan), env).value;
            && (t.stage != Idle ==> t.stage.req == w.stage.req)
            && (p != Has(Renamed) ==> t.view == w.view && t.key == w.key)
            && (!TooLate(p) ==> SameFile(w.disk, t.disk) && t.log == w.log)
  {
    hide Invariant;
    WhatChanges(w, Step(PointOf(w.stage), plan), env);
    hide OtherNext, PollNext, DiskError, FinalError, OrderFits, RequestData;
  }

  lemma SameFileReflexive(d: Disk)
    ensures SameFile(d, d)
  {
  }

  lemma SameFileTransitive(a: Disk, b: Disk, c: Disk)
    ensures SameFile(a, b) && SameFile(b, c) ==> SameFile(a, c)
  {
  }

  lemma {:induction false} RevocationOutcome(w: World, v: World, plan: Plan, later: Plan, env: Env)
    requires Invariant(w, env) && env.Lawful() && GoingWell(w, plan, env)
    requires v == w.(cache := v.cache, poll := v.poll) && Hides(v.cache, v.view, v.key, v.stage.req, later, env)
    requires later.temp == plan.temp
    ensures var p := PointOf(w.stage);
            AfterRevocation(w, p, Play(w, Remaining(p, plan), env), Play(v, Remaining(p, later), env))
    decreases Ahead(PointOf(w.stage))
  {
    hide Next, Play, Invariant, SameFile, PointOf, Step, Successor, Ahead, Remaining;
    var p := PointOf(w.stage);
    SuccessorIsNearer(p, plan);
    GoesOnWell(w, plan, env);
    PlayRemaining(w, p, plan, env);
    PlayRemaining(v, p, later, env);
    if p == Asked || p == Has(Rechecked) {
      CheckFails(v, later, env);
      SameFileReflexive(w.disk);
      PlayRemaining(Next(v, Step(p, later), env).value, Successor(p), later, env);
    } else {
      StepIsBlind(w, v, plan, later, env);
      var t, u := Next(w, Step(p, plan), env).value, Next(v, Step(p, later), env).value;
      StepKeeps(w, plan, env);
      if p != Has(Renamed) {
        InvariantKept(w, Step(p, plan), env);
        RevocationOutcome(t, u, plan, later, env);
        SameFileTransitive(w.disk, t.disk, Play(u, Remaining(Successor(p), later), env).disk);
      }
    }
  }

  /**
   * At whatever point of a save that would go through a poll publishes data that hides the service: the
   * save still goes through, just as it would have, exactly when the final check is already passed.
   * Otherwise it is refused and changes nothing.
   */
  lemma LateRevocationIsIgnored(w: World, plan: Plan, later: Plan, env: Env)
    requires Invariant(w, env) && env.Lawful() && GoingWell(w, plan, env)
    requires w.poll.Complete? && Hides(Polled(w), w.view, w.key, w.stage.req, later, env) && later.temp == plan.temp
    ensures var p, t := PointOf(w.stage), Play(w, [PollPublish] + Remaining(PointOf(w.stage), later), env);
            && (t.reply == Saved <==> TooLate(p))
            && AfterRevocation(w, p, Play(w, Remaining(p, plan), env), t)
  {
    hide Play, Invariant, Hides, SameFile, PointOf, Remaining, SaveNext, OtherNext;
    PlayFirst(w, PollPublish, Remaining(PointOf(w.stage), later), env);
    RevocationOutcome(w, Next(w, PollPublish, env).value, plan, later, env);
  }
}
