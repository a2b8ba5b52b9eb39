/** The editor as the program runs it: startup, save and close, each against what it should do. */
module MetadataEditor {
  import opened Common
  import opened Policy
  import opened ServiceCards
  import opened ServiceMatcher
  import opened EditorProtocol
  import M = ServiceMetadata
  import E = MetadataEdit

  /** Which of a save's system calls work, in their order; `partial` is what a failed write leaves. */
  datatype Faults = Faults(
    readable: bool, create: bool, write: bool, partial: Bytes, fileSync: bool, closeTemp: bool,
    stillReadable: bool, rename: bool, dirSync: bool
  )

  /** The state a save leaves, and its reply. */
  datatype Outcome = Outcome(disk: Disk, view: View, disabled: bool, reply: Reply)

  function Failing(d: Disk, v: View, error: EditError): Outcome { Outcome(d, v, false, Failed(error)) }

  function Put(d: Disk, n: nat, inode: Inode): Disk { d.(inodes := d.inodes[n := inode]) }

  function Renaming(d: Disk, temp: nat): Disk { d.(name := temp, durable := d.durable + {temp}) }

  // What a save should do, from its last step to its first

  function FromRename(d: Disk, v: View, contents: Bytes, temp: nat, f: Faults, key: nat, env: Env): Outcome
    requires env.parse(contents).Some?
  {
    if !f.rename then Failing(d, v, Storage)
    else if !f.dirSync then Outcome(Renaming(d, temp), v, true, Failed(Uncertain))
    else Outcome(Renaming(d, temp).(durable := {temp}), ViewOf(contents, env.parse(contents).value, key), false, Saved)
  }

  function FromRecheck(d: Disk, v: View, contents: Bytes, temp: nat, f: Faults, key: nat, refusal: Option<EditError>,
                       env: Env): Outcome
    requires env.parse(contents).Some?
  {
    if DiskError(d, v, f.stillReadable).Some? then Failing(d, v, DiskError(d, v, f.stillReadable).value)
    else if refusal.Some? then Failing(d, v, refusal.value)
    else FromRename(d, v, contents, temp, f, key, env)
  }

  function FromCreate(d: Disk, v: View, contents: Bytes, temp: nat, f: Faults, key: nat, refusal: Option<EditError>,
                      env: Env): Outcome
    requires env.parse(contents).Some?
  {
    if !f.create then Failing(d, v, Storage)
    else if !f.write then Failing(Put(d, temp, Inode(f.partial, false)), v, Storage)
    else if !f.fileSync then Failing(Put(d, temp, Inode(contents, false)), v, Storage)
    else if !f.closeTemp then Failing(Put(d, temp, Inode(contents, true)), v, Storage)
    else FromRecheck(Put(d, temp, Inode(contents, true)), v, contents, temp, f, key, refusal, env)
  }

  ghost function FromCompare(d: Disk, v: View, revision: Mac, document: M.Document, temp: nat, f: Faults, key: nat,
                       refusal: Option<EditError>, env: Env): Outcome
    requires env.Lawful()
  {
    if revision != v.revision then Failing(d, v, Conflict)
    else if DiskError(d, v, f.readable).Some? then Failing(d, v, DiskError(d, v, f.readable).value)
    else if env.text(document).None? then Failing(d, v, Unserializable)
    else FromCreate(d, v, env.text(document).value, temp, f, key, refusal, env)
  }

  /** `hidden` is what the first visibility check says, `refusal` what the final check says. */
  ghost function FromOpen(d: Disk, v: View, disabled: bool, req: Request, hidden: Option<EditError>, temp: nat,
                          f: Faults, key: nat, refusal: Option<EditError>, env: Env): Outcome
    requires env.Lawful()
  {
    var document := env.mutate(v.metadata.document, req.id, req.edit);
    if disabled then Outcome(d, v, true, Failed(Uncertain))
    else if hidden.Some? then Failing(d, v, hidden.value)
    else if document.None? then Failing(d, v, InvalidFields)
    else FromCompare(d, v, req.revision, document.value, temp, f, key, refusal, env)
  }

  /** What an editor keeps between its operations. */
  ghost predicate Sound(d: Disk, v: View, disabled: bool, key: nat, env: Env) {
    && DiskOk(d)
    && env.parse(v.bytes) == Some(v.metadata) && v.revision == FileMac(key, v.bytes)
    && (!disabled ==> d.durable == {d.name} && d.inodes[d.name].synced && Content(d) == v.bytes)
  }

  /** An enabled editor's own look at the file finds nothing, and after a stranger's write exactly what differs. */
  lemma CheckFindsStrangers(d: Disk, v: View, key: nat, bytes: Bytes, inode: nat, env: Env)
    requires Sound(d, v, false, key, env) && env.Lawful()
    ensures DiskError(d, v, true).None?
    ensures DiskError(Replaced(d, bytes, inode), v, true).None? <==> bytes == v.bytes
    ensures DiskError(Replaced(d, bytes, inode), v, true) == Some(Conflict) <==>
            bytes != v.bytes && |bytes| <= M.MAX_BYTES
    ensures DiskError(d, v, false) == DiskError(Replaced(d, bytes, inode), v, false) == Some(Storage)
  {
    assert env.parse(v.bytes).Some?;
  }

  lemma TempKeepsSound(d: Disk, v: View, key: nat, temp: nat, inode: Inode, env: Env)
    requires Sound(d, v, false, key, env) && temp !in d.inodes
    ensures Sound(Put(d, temp, inode), v, false, key, env) && Content(Put(d, temp, inode)) == Content(d)
  {
  }

  lemma RenameKeepsSound(d: Disk, v: View, contents: Bytes, temp: nat, f: Faults, key: nat, env: Env)
    requires Sound(d, v, false, key, env) && temp in d.inodes && d.inodes[temp] == Inode(contents, true)
    requires env.parse(contents).Some?
    ensures var o := FromRename(d, v, contents, temp, f, key, env);
            Sound(o.disk, o.view, o.disabled, key, env)
  {
  }

  /** Every outcome of a save leaves a sound editor. */
  lemma SaveKeepsSound(d: Disk, v: View, disabled: bool, req: Request, hidden: Option<EditError>, temp: nat, f: Faults,
                       key: nat, refusal: Option<EditError>, env: Env)
    requires Sound(d, v, disabled, key, env) && temp !in d.inodes && env.Lawful()
    ensures var o := FromOpen(d, v, disabled, req, hidden, temp, f, key, refusal, env);
            Sound(o.disk, o.view, o.disabled, key, env)
  {
    var document := env.mutate(v.metadata.document, req.id, req.edit);
    if !disabled && document.Some? && env.text(document.value).Some? {
      CreateKeepsSound(d, v, env.text(document.value).value, temp, f, key, refusal, env);
    }
  }

  lemma CreateKeepsSound(d: Disk, v: View, contents: Bytes, temp: nat, f: Faults, key: nat, refusal: Option<EditError>,
                         env: Env)
    requires Sound(d, v, false, key, env) && temp !in d.inodes && env.parse(contents).Some?
    ensures var o := FromCreate(d, v, contents, temp, f, key, refusal, env);
            Sound(o.disk, o.view, o.disabled, key, env)
  {
    TempKeepsSound(d, v, key, temp, Inode(f.partial, false), env);
    TempKeepsSound(d, v, key, temp, Inode(contents, false), env);
    TempKeepsSound(d, v, key, temp, Inode(contents, true), env);
    RenameKeepsSound(Put(d, temp, Inode(contents, true)), v, contents, temp, f, key, env);
  }

  /** Which saves go through: all their checks hold and none of their system calls fails. */
  predicate GoesThrough(v: View, disabled: bool, req: Request, hidden: Option<EditError>, f: Faults,
                        refusal: Option<EditError>, env: Env) {
    var document := env.mutate(v.metadata.document, req.id, req.edit);
    && !disabled && hidden.None? && refusal.None? && req.revision == v.revision
    && document.Some? && env.text(document.value).Some?
    && f.readable && f.create && f.write && f.fileSync && f.closeTemp && f.stillReadable && f.rename && f.dirSync
  }

  /**
   * A save succeeds exactly when every check and every call does, and then file and view are the
   * printed edit. If it fails with "uncertain" the editor is disabled; any other failure leaves the
   * file, the view and the switch as they were.
   */
  lemma SaveOutcome(d: Disk, v: View, disabled: bool, req: Request, hidden: Option<EditError>, temp: nat, f: Faults,
                    key: nat, refusal: Option<EditError>, env: Env)
    requires Sound(d, v, disabled, key, env) && temp !in d.inodes
    requires hidden != Some(Uncertain) && refusal != Some(Uncertain) && env.Lawful()
    ensures var o := FromOpen(d, v, disabled, req, hidden, temp, f, key, refusal, env);
            && DiskOk(o.disk)
            && (o.reply == Saved <==> GoesThrough(v, disabled, req, hidden, f, refusal, env))
            && (o.reply == Saved ==>
                  var contents := env.text(env.mutate(v.metadata.document, req.id, req.edit).value).value;
                  Content(o.disk) == o.view.bytes == contents && o.disk.durable == {o.disk.name} && !o.disabled)
            && (o.reply == Failed(Uncertain) ==> o.disabled && o.view == v)
            && (o.reply != Saved && o.reply != Failed(Uncertain) ==>
                  o.view == v && !o.disabled && Content(o.disk) == Content(d) && o.disk.name == d.name
                    && o.disk.durable == d.durable)
  {
    hide FromCreate;
    var document := env.mutate(v.metadata.document, req.id, req.edit);
    SaveKeepsSound(d, v, disabled, req, hidden, temp, f, key, refusal, env);
    if !disabled && document.Some? && env.text(document.value).Some? {
      WriteOutcome(d, v, env.text(document.value).value, temp, f, key, refusal, env);
    }
  }

  lemma WriteOutcome(d: Disk, v: View, contents: Bytes, temp: nat, f: Faults, key: nat, refusal: Option<EditError>,
                     env: Env)
    requires Sound(d, v, false, key, env) && temp !in d.inodes && env.parse(contents).Some? && |v.bytes| <= M.MAX_BYTES
    requires refusal != Some(Uncertain)
    ensures var o := FromCreate(d, v, contents, temp, f, key, refusal, env);
            && DiskOk(o.disk)
            && (o.reply == Saved <==>
                  f.create && f.write && f.fileSync && f.closeTemp && f.stillReadable && refusal.None? && f.rename
                    && f.dirSync)
            && (o.reply == Saved ==>
                  Content(o.disk) == o.view.bytes == contents && o.disk.durable == {o.disk.name} && !o.disabled)
            && (o.reply == Failed(Uncertain) ==> o.disabled && o.view == v)
            && (o.reply != Saved && o.reply != Failed(Uncertain) ==>
                  o.view == v && !o.disabled && Content(o.disk) == Content(d) && o.disk.name == d.name
                    && o.disk.durable == d.durable)
  {
    TempKeepsSound(d, v, key, temp, Inode(contents, true), env);
  }

  /** The answer to something that goes wrong, or else the one given. */
  function Unless(happens: bool, error: EditError, reply: Reply): Reply { if happens then Failed(error) else reply }

  /** The answer to a save of a sound editor: what may go wrong, in the order in which it is noticed. */
  function FirstHazard(v: View, disabled: bool, req: Request, hidden: Option<EditError>, f: Faults, key: nat,
                       refusal: Option<EditError>, env: Env): Reply
  {
    var document := env.mutate(v.metadata.document, req.id, req.edit);
    Unless(disabled, Uncertain,
           Unless(hidden.Some?, hidden.GetOr(NotVisible),
                  Unless(document.None?, InvalidFields,
                         Unless(req.revision != FileMac(key, v.bytes), Conflict,
                                Unless(!f.readable, Storage,
                                       Unless(document.Some? && env.text(document.value).None?, Unserializable,
                                              LateHazard(f, refusal)))))))
  }

  function LateHazard(f: Faults, refusal: Option<EditError>): Reply {
    Unless(!f.create || !f.write || !f.fileSync || !f.closeTemp, Storage,
           Unless(!f.stillReadable, Storage,
                  Unless(refusal.Some?, refusal.GetOr(Csrf),
                         Unless(!f.rename, Storage,
                                Unless(!f.dirSync, Uncertain, Saved)))))
  }

  /** The reply to a save tells the first thing that went wrong. */
  lemma SaveReply(d: Disk, v: View, disabled: bool, req: Request, hidden: Option<EditError>, temp: nat, f: Faults,
                  key: nat, refusal: Option<EditError>, env: Env)
    requires Sound(d, v, disabled, key, env) && temp !in d.inodes && env.Lawful()
    ensures FromOpen(d, v, disabled, req, hidden, temp, f, key, refusal, env).reply
         == FirstHazard(v, disabled, req, hidden, f, key, refusal, env)
  {
    hide FromCreate, LateHazard;
    var document := env.mutate(v.metadata.document, req.id, req.edit);
    if !disabled && document.Some? && env.text(document.value).Some? {
      WriteReply(d, v, env.text(document.value).value, temp, f, key, refusal, env);
    }
  }

  lemma WriteReply(d: Disk, v: View, contents: Bytes, temp: nat, f: Faults, key: nat, refusal: Option<EditError>,
                   env: Env)
    requires Sound(d, v, false, key, env) && temp !in d.inodes && env.parse(contents).Some? && env.Lawful()
    ensures FromCreate(d, v, contents, temp, f, key, refusal, env).reply == LateHazard(f, refusal)
  {
    TempKeepsSound(d, v, key, temp, Inode(contents, true), env);
    assert env.parse(v.bytes).Some?;
  }

  // A save is a run of the protocol

  /** The steps of a list, as far as they are possible. */
  ghost function Play(w: World, labels: seq<Label>, env: Env): World
    decreases |labels|
  {
    if labels == [] then w
    else
      var t := Next(w, labels[0], env);
      if t.None? then w else Play(t.value, labels[1..], env)
  }

  lemma {:induction false} PlayIsRun(w: World, labels: seq<Label>, env: Env) returns (k: nat)
    ensures k <= |labels| && After(w, labels[..k], env) == Some(Play(w, labels, env))
    decreases |labels|
  {
    hide Next;
    k := 0;
    if labels != [] && Next(w, labels[0], env).Some? {
      var j := PlayIsRun(Next(w, labels[0], env).value, labels[1..], env);
      AfterFirst(w, labels[0], labels[1..][..j], env);
      assert labels[..j + 1] == [labels[0]] + labels[1..][..j];
      k := j + 1;
    }
  }

  lemma PlayFirst(w: World, l: Label, rest: seq<Label>, env: Env)
    ensures Play(w, [l] + rest, env) == if Next(w, l, env).None? then w else Play(Next(w, l, env).value, rest, env)
  {
    assert ([l] + rest)[1..] == rest;
  }

  lemma PlayIdle(w: World, l: Label, rest: seq<Label>, env: Env)
    requires w.stage == Idle
    requires l.Admit? || l.Compare? || l.Serialize? || l.Create? || l.Write? || l.FileSync? || l.CloseTemp?
             || l.Recheck? || l.FinalCheck? || l.Rename? || l.DirSync?
    ensures Play(w, [l] + rest, env) == w
  {
    hide OtherNext, PollNext;
    PlayFirst(w, l, rest, env);
  }

  predicate Agrees(w: World, o: Outcome) {
    w.stage == Idle && w.disk == o.disk && w.view == o.view && w.disabled == o.disabled && w.reply == o.reply
  }

  function RenameSteps(f: Faults): seq<Label> { [Rename(f.rename)] + ([DirSync(f.dirSync)] + []) }

  function FinalSteps(f: Faults, m: Moment): seq<Label> { [FinalCheck(m)] + RenameSteps(f) }

  /** Polls may come and go before the final check; at any other time they make no difference to the save. */
  function CheckSteps(f: Faults, polls: seq<Label>, m: Moment): seq<Label> {
    [Recheck(f.stillReadable)] + (polls + FinalSteps(f, m))
  }

  function WriteSteps(f: Faults, temp: nat, polls: seq<Label>, m: Moment): seq<Label> {
    [Create(f.create, temp)]
    + ([Write(f.write, f.partial)] + ([FileSync(f.fileSync)] + ([CloseTemp(f.closeTemp)] + CheckSteps(f, polls, m))))
  }

  function CommitSteps(f: Faults, temp: nat, polls: seq<Label>, m: Moment): seq<Label> {
    [Compare(f.readable)] + ([Serialize] + WriteSteps(f, temp, polls, m))
  }

  function SaveSteps(req: Request, first: Moment, f: Faults, temp: nat, polls: seq<Label>, last: Moment): seq<Label> {
    [Open(req)] + ([Admit(first)] + CommitSteps(f, temp, polls, last))
  }

  /** Poll steps that are possible from w, and the cache after them. */
  ghost predicate Polls(w: World, polls: seq<Label>, latest: Option<CacheData>, env: Env) {
    && (forall l | l in polls :: Around(l))
    && After(w, polls, env).Some? && After(w, polls, env).value.cache == latest
  }

  lemma PollPlays(w: World, t: World, l: Label, env: Env)
    requires Around(l) && Next(w, l, env).Some?
    requires t.up == w.up && t.view == w.view && t.poll == w.poll && t.cache == w.cache
    ensures Next(t, l, env).Some?
    ensures var a, b := Next(w, l, env).value, Next(t, l, env).value;
            && b == t.(cache := b.cache, poll := b.poll)
            && b.up == a.up && b.view == a.view && b.poll == a.poll && b.cache == a.cache
  {
    hide OtherNext, SaveNext;
  }

  /** What polls depend on, and all they change. */
  lemma {:induction false} PollsPlay(w: World, t: World, polls: seq<Label>, latest: Option<CacheData>, rest: seq<Label>,
                                     env: Env)
      returns (u: World)
    requires Polls(w, polls, latest, env)
    requires t.up == w.up && t.view == w.view && t.poll == w.poll && t.cache == w.cache
    ensures u == t.(cache := latest, poll := u.poll) && Play(t, polls + rest, env) == Play(u, rest, env)
    decreases |polls|
  {
    hide Next;
    if polls == [] {
      assert polls + rest == rest;
      u := t;
    } else {
      assert Around(polls[0]);
      assert polls == [polls[0]] + polls[1..] && polls + rest == [polls[0]] + (polls[1..] + rest);
      AfterFirst(w, polls[0], polls[1..], env);
      PlayFirst(t, polls[0], polls[1..] + rest, env);
      PollPlays(w, t, polls[0], env);
      u := PollsPlay(Next(w, polls[0], env).value, Next(t, polls[0], env).value, polls[1..], latest, rest, env);
    }
  }

  lemma PlayRename(w: World, f: Faults, env: Env)
    requires Holds(w, Authorized) && !w.disabled && env.parse(w.stage.contents).Some?
    ensures Agrees(Play(w, RenameSteps(f), env),
                   FromRename(w.disk, w.view, w.stage.contents, w.stage.temp, f, w.key, env))
  {
    hide OtherNext, PollNext;
    PlayFirst(w, Rename(f.rename), [DirSync(f.dirSync)] + [], env);
    var t := Next(w, Rename(f.rename), env).value;
    if f.rename { PlayFirst(t, DirSync(f.dirSync), [], env); } else { PlayIdle(t, DirSync(f.dirSync), [], env); }
  }

  lemma PlayFinal(w: World, f: Faults, m: Moment, env: Env)
    requires Holds(w, Rechecked) && !w.disabled && env.parse(w.stage.contents).Some? && OrderFits(m.order, w.cache)
    ensures var refusal := FinalError(RequestData(w.cache, w.view), w.stage.req, w.key, m, env);
            Agrees(Play(w, FinalSteps(f, m), env),
                   if refusal.Some? then Failing(w.disk, w.view, refusal.value)
                   else FromRename(w.disk, w.view, w.stage.contents, w.stage.temp, f, w.key, env))
  {
    hide OtherNext, PollNext;
    PlayFirst(w, FinalCheck(m), RenameSteps(f), env);
    var u := Next(w, FinalCheck(m), env).value;
    if u.stage == Idle {
      PlayIdle(u, Rename(f.rename), [DirSync(f.dirSync)] + [], env);
    } else {
      PlayRename(u, f, env);
    }
  }

  lemma PlayCheck(w: World, f: Faults, z: World, polls: seq<Label>, latest: Option<CacheData>, m: Moment, env: Env)
    requires Holds(w, Closed) && !w.disabled && env.parse(w.stage.contents).Some?
    requires PollsFrom(z, w, polls, latest, m, env)
    ensures var refusal := FinalError(RequestData(latest, w.view), w.stage.req, w.key, m, env);
            Agrees(Play(w, CheckSteps(f, polls, m), env),
                   FromRecheck(w.disk, w.view, w.stage.contents, w.stage.temp, f, w.key, refusal, env))
  {
    hide OtherNext, PollNext;
    PlayFirst(w, Recheck(f.stillReadable), polls + FinalSteps(f, m), env);
    var t := Next(w, Recheck(f.stillReadable), env).value;
    var u := PollsPlay(z, t, polls, latest, FinalSteps(f, m), env);
    if u.stage == Idle {
      PlayIdle(u, FinalCheck(m), RenameSteps(f), env);
    } else {
      PlayFinal(u, f, m, env);
    }
  }

  /** The polls are possible from z, and w is where a save that z began has come to. */
  ghost predicate PollsFrom(z: World, w: World, polls: seq<Label>, latest: Option<CacheData>, m: Moment, env: Env) {
    && Polls(z, polls, latest, env) && OrderFits(m.order, latest)
    && w.up == z.up && w.view == z.view && w.poll == z.poll && w.cache == z.cache
  }

  lemma CreateEffect(w: World, ok: bool, temp: nat, env: Env)
    requires w.up && w.stage.Ready? && temp !in w.disk.inodes
    ensures Next(w, Create(ok, temp), env)
         == Some(if !ok then Fail(w, Storage)
                 else w.(stage := Holding(Created, w.stage.req, w.stage.contents, temp),
                         disk := Put(w.disk, temp, Inode([], false))))
  {
    hide OtherNext, PollNext;
  }

  lemma WriteEffect(w: World, ok: bool, partial: Bytes, env: Env)
    requires Holds(w, Created)
    ensures var disk := Put(w.disk, w.stage.temp, Inode(if ok then w.stage.contents else partial, false));
            Next(w, Write(ok, partial), env) == Some(Advance(w.(disk := disk), ok, Written))
  {
    hide OtherNext, PollNext;
  }

  lemma PollsFromMoved(z: World, w: World, t: World, polls: seq<Label>, latest: Option<CacheData>, m: Moment, env: Env)
    requires PollsFrom(z, w, polls, latest, m, env) && t.up == w.up && t.view == w.view && t.poll == w.poll
    requires t.cache == w.cache
    ensures PollsFrom(z, t, polls, latest, m, env)
  {
  }

  lemma PlayWrite(w: World, f: Faults, temp: nat, z: World, polls: seq<Label>, latest: Option<CacheData>, m: Moment,
                  env: Env)
    requires w.up && !w.disabled && w.stage.Ready? && temp !in w.disk.inodes
    requires env.parse(w.stage.contents).Some? && PollsFrom(z, w, polls, latest, m, env)
    ensures var refusal := FinalError(RequestData(latest, w.view), w.stage.req, w.key, m, env);
            Agrees(Play(w, WriteSteps(f, temp, polls, m), env),
                   FromCreate(w.disk, w.view, w.stage.contents, temp, f, w.key, refusal, env))
  {
    hide Next, FromRecheck, PollsFrom, FinalError;
    CreateEffect(w, f.create, temp, env);
    var afterSync := [CloseTemp(f.closeTemp)] + CheckSteps(f, polls, m);
    var afterWrite := [FileSync(f.fileSync)] + afterSync;
    PlayFirst(w, Create(f.create, temp), [Write(f.write, f.partial)] + afterWrite, env);
    var a := Next(w, Create(f.create, temp), env).value;
    if !f.create {
      PlayIdle(a, Write(f.write, f.partial), afterWrite, env);
    } else {
      WriteEffect(a, f.write, f.partial, env);
      PlayFirst(a, Write(f.write, f.partial), afterWrite, env);
      var b := Next(a, Write(f.write, f.partial), env).value;
      assert b.disk == Put(w.disk, temp, Inode(if f.write then w.stage.contents else f.partial, false));
      PollsFromMoved(z, w, b, polls, latest, m, env);
      if !f.write {
        PlayIdle(b, FileSync(f.fileSync), afterSync, env);
      } else {
        PlaySync(w, b, f, temp, z, polls, latest, m, env);
      }
    }
  }

  lemma SyncEffect(w: World, ok: bool, env: Env)
    requires Holds(w, Written) && w.stage.temp in w.disk.inodes
    ensures var disk := Put(w.disk, w.stage.temp, w.disk.inodes[w.stage.temp].(synced := ok));
            Next(w, FileSync(ok), env) == Some(Advance(w.(disk := disk), ok, Synced))
  {
    hide OtherNext, PollNext;
  }

  lemma CloseEffect(w: World, ok: bool, env: Env)
    requires Holds(w, Synced)
    ensures Next(w, CloseTemp(ok), env) == Some(Advance(w, ok, Closed))
  {
    hide OtherNext, PollNext;
  }

  lemma PlaySync(w: World, b: World, f: Faults, temp: nat, z: World, polls: seq<Label>, latest: Option<CacheData>,
                 m: Moment, env: Env)
    requires Holds(b, Written) && !b.disabled && b.stage.temp == temp
    requires b.disk == Put(w.disk, temp, Inode(b.stage.contents, false))
    requires w.view == b.view && env.parse(b.stage.contents).Some? && PollsFrom(z, b, polls, latest, m, env)
    ensures var refusal := FinalError(RequestData(latest, b.view), b.stage.req, b.key, m, env);
            var contents := b.stage.contents;
            Agrees(Play(b, [FileSync(f.fileSync)] + ([CloseTemp(f.closeTemp)] + CheckSteps(f, polls, m)), env),
                   if !f.fileSync then Failing(Put(w.disk, temp, Inode(contents, false)), w.view, Storage)
                   else if !f.closeTemp then Failing(Put(w.disk, temp, Inode(contents, true)), w.view, Storage)
                   else FromRecheck(Put(w.disk, temp, Inode(contents, true)), w.view, contents, temp, f, b.key, refusal,
                                    env))
  {
    hide Next, FromRecheck;
    SyncEffect(b, f.fileSync, env);
    PlayFirst(b, FileSync(f.fileSync), [CloseTemp(f.closeTemp)] + CheckSteps(f, polls, m), env);
    var c := Next(b, FileSync(f.fileSync), env).value;
    assert c.disk == Put(w.disk, temp, Inode(b.stage.contents, f.fileSync));
    if !f.fileSync {
      PlayIdle(c, CloseTemp(f.closeTemp), CheckSteps(f, polls, m), env);
    } else {
      CloseEffect(c, f.closeTemp, env);
      PlayFirst(c, CloseTemp(f.closeTemp), CheckSteps(f, polls, m), env);
      var d := Next(c, CloseTemp(f.closeTemp), env).value;
      if !f.closeTemp {
        PlayIdle(d, Recheck(f.stillReadable), polls + FinalSteps(f, m), env);
      } else {
        PlayCheck(d, f, z, polls, latest, m, env);
      }
    }
  }

  lemma SerializeEffect(w: World, env: Env)
    requires w.up && w.stage.Current?
    ensures var contents := env.text(w.stage.document);
            Next(w, Serialize, env) ==
            Some(if contents.None? then Fail(w, Unserializable)
                 else w.(stage := Stage.Ready(w.stage.req, contents.value)))
  {
    hide OtherNext, PollNext;
  }

  lemma PlaySerialize(w: World, f: Faults, temp: nat, z: World, polls: seq<Label>, latest: Option<CacheData>, m: Moment,
                      env: Env)
    requires w.up && !w.disabled && w.stage.Current? && temp !in w.disk.inodes
    requires env.Lawful() && PollsFrom(z, w, polls, latest, m, env)
    ensures var refusal := FinalError(RequestData(latest, w.view), w.stage.req, w.key, m, env);
            Agrees(Play(w, [Serialize] + WriteSteps(f, temp, polls, m), env),
                   if env.text(w.stage.document).None? then Failing(w.disk, w.view, Unserializable)
                   else FromCreate(w.disk, w.view, env.text(w.stage.document).value, temp, f, w.key, refusal, env))
  {
    hide Next, FromCreate, FinalError, PollsFrom;
    SerializeEffect(w, env);
    PlayFirst(w, Serialize, WriteSteps(f, temp, polls, m), env);
    var b := Next(w, Serialize, env).value;
    PollsFromMoved(z, w, b, polls, latest, m, env);
    if b.stage == Idle {
      PlayNothing(b, f, temp, polls, m, env);
    } else {
      PlayWrite(b, f, temp, z, polls, latest, m, env);
    }
  }

  lemma CompareEffect(w: World, readable: bool, env: Env)
    requires w.up && w.stage.Admitted?
    ensures var error := if w.stage.req.revision != w.view.revision then Some(Conflict)
                         else DiskError(w.disk, w.view, readable);
            Next(w, Compare(readable), env) ==
            Some(if error.Some? then Fail(w, error.value) else w.(stage := Current(w.stage.req, w.stage.document)))
  {
    hide OtherNext, PollNext;
  }

  lemma PlayCommit(w: World, f: Faults, temp: nat, z: World, polls: seq<Label>, latest: Option<CacheData>, m: Moment,
                   env: Env)
    requires w.up && !w.disabled && w.stage.Admitted? && temp !in w.disk.inodes
    requires env.Lawful() && PollsFrom(z, w, polls, latest, m, env)
    ensures var refusal := FinalError(RequestData(latest, w.view), w.stage.req, w.key, m, env);
            Agrees(Play(w, CommitSteps(f, temp, polls, m), env),
                   FromCompare(w.disk, w.view, w.stage.req.revision, w.stage.document, temp, f, w.key, refusal, env))
  {
    hide Next, FromCreate, FinalError, PollsFrom;
    CompareEffect(w, f.readable, env);
    PlayFirst(w, Compare(f.readable), [Serialize] + WriteSteps(f, temp, polls, m), env);
    var a := Next(w, Compare(f.readable), env).value;
    PollsFromMoved(z, w, a, polls, latest, m, env);
    if a.stage == Idle {
      PlayIdle(a, Serialize, WriteSteps(f, temp, polls, m), env);
    } else {
      PlaySerialize(a, f, temp, z, polls, latest, m, env);
    }
  }

  lemma PlayNothing(w: World, f: Faults, temp: nat, polls: seq<Label>, m: Moment, env: Env)
    requires w.stage == Idle
    ensures Play(w, WriteSteps(f, temp, polls, m), env) == w
    ensures Play(w, CommitSteps(f, temp, polls, m), env) == w
  {
    var afterWrite := [FileSync(f.fileSync)] + ([CloseTemp(f.closeTemp)] + CheckSteps(f, polls, m));
    PlayIdle(w, Create(f.create, temp), [Write(f.write, f.partial)] + afterWrite, env);
    PlayIdle(w, Compare(f.readable), [Serialize] + WriteSteps(f, temp, polls, m), env);
  }

  lemma AdmitEffect(w: World, m: Moment, env: Env)
    requires w.up && w.stage.Opened? && OrderFits(m.order, w.cache)
    ensures var hidden := env.visibility(RequestData(w.cache, w.view), w.stage.req, w.key, m);
            var document := env.mutate(w.view.metadata.document, w.stage.req.id, w.stage.req.edit);
            Next(w, Admit(m), env) ==
            Some(if hidden.Some? then Fail(w, hidden.value)
                 else if document.None? then Fail(w, InvalidFields)
                 else w.(stage := Admitted(w.stage.req, document.value)))
  {
    hide OtherNext, PollNext;
  }

  lemma PlayAdmit(w: World, first: Moment, f: Faults, temp: nat, z: World, polls: seq<Label>, latest: Option<CacheData>,
                  last: Moment, env: Env)
    requires w.up && !w.disabled && w.stage.Opened? && temp !in w.disk.inodes && env.Lawful()
    requires OrderFits(first.order, w.cache) && PollsFrom(z, w, polls, latest, last, env)
    ensures var req := w.stage.req;
            var hidden := env.visibility(RequestData(w.cache, w.view), req, w.key, first);
            var refusal := FinalError(RequestData(latest, w.view), req, w.key, last, env);
            Agrees(Play(w, [Admit(first)] + CommitSteps(f, temp, polls, last), env),
                   FromOpen(w.disk, w.view, w.disabled, req, hidden, temp, f, w.key, refusal, env))
  {
    hide Next, FromCompare, FinalError, PollsFrom, OrderFits;
    AdmitEffect(w, first, env);
    PlayFirst(w, Admit(first), CommitSteps(f, temp, polls, last), env);
    var b := Next(w, Admit(first), env).value;
    PollsFromMoved(z, w, b, polls, latest, last, env);
    if b.stage == Idle {
      PlayNothing(b, f, temp, polls, last, env);
    } else {
      PlayCommit(b, f, temp, z, polls, latest, last, env);
    }
  }

  lemma OpenEffect(w: World, req: Request, env: Env)
    requires w.up && w.stage == Idle
    ensures Next(w, Open(req), env)
        == Some(if w.disabled then Fail(w, Uncertain) else w.(stage := Opened(req), reply := Pending))
  {
    hide OtherNext, PollNext;
  }

  /**
   * What a save does is what the protocol does on its steps, as far as they are possible. The final check
   * reads the cache that the polls in between have left.
   */
  lemma SaveIsARun(w: World, req: Request, first: Moment, f: Faults, temp: nat, polls: seq<Label>,
                   latest: Option<CacheData>, last: Moment, env: Env) returns (k: nat)
    requires w.up && w.stage == Idle && temp !in w.disk.inodes && env.Lawful()
    requires Polls(w, polls, latest, env) && OrderFits(first.order, w.cache) && OrderFits(last.order, latest)
    ensures var hidden := env.visibility(RequestData(w.cache, w.view), req, w.key, first);
            var refusal := FinalError(RequestData(latest, w.view), req, w.key, last, env);
            var steps := SaveSteps(req, first, f, temp, polls, last);
            && k <= |steps| && After(w, steps[..k], env).Some?
            && Agrees(After(w, steps[..k], env).value,
                      FromOpen(w.disk, w.view, w.disabled, req, hidden, temp, f, w.key, refusal, env))
  {
    hide Next, FromCompare, FinalError, OrderFits, Polls;
    OpenEffect(w, req, env);
    var rest := [Admit(first)] + CommitSteps(f, temp, polls, last);
    PlayFirst(w, Open(req), rest, env);
    var a := Next(w, Open(req), env).value;
    if a.stage == Idle {
      PlayIdle(a, Admit(first), CommitSteps(f, temp, polls, last), env);
    } else {
      assert PollsFrom(w, a, polls, latest, last, env);
      PlayAdmit(a, first, f, temp, w, polls, latest, last, env);
    }
    k := PlayIsRun(w, SaveSteps(req, first, f, temp, polls, last), env);
  }

  // Startup

  /**
   * Which calls of startup work. `other` is what a writer leaves that finishes while startup waits for the
   * lock, `entropy` whether a key can be made.
   */
  datatype Startup = Startup(
    readable: bool, fileSync: bool, other: Option<Bytes>, lock: bool, dirSync: bool,
    readAgain: bool, syncAgain: bool, entrySync: bool, entropy: bool
  )

  /** The disk a startup leaves, and the bytes it comes up on, if it does. */
  datatype Begun = Begun(disk: Disk, bytes: Option<Bytes>)

  function Replaced(d: Disk, bytes: Bytes, inode: nat): Disk {
    Disk(d.inodes[inode := Inode(bytes, true)], inode, {inode})
  }

  function Joined(d: Disk, s: Startup, inode: nat): Disk {
    if s.other.Some? then Replaced(d, s.other.value, inode) else d
  }

  function Beginning(d: Disk, s: Startup, inode: nat, env: Env): Begun
    requires DiskOk(d)
  {
    if !s.readable || Loaded(d, env).None? || !s.fileSync then Begun(d, None)
    else
      var b := Joined(SyncInode(d, d.name), s, inode);
      if !s.lock || !s.dirSync then Begun(b, None) else Locking(SyncEntry(b), s, env)
  }

  function Locking(d: Disk, s: Startup, env: Env): Begun
    requires DiskOk(d)
  {
    if !s.readAgain || |Content(d)| > M.MAX_BYTES || !s.syncAgain then Begun(d, None)
    else
      var e := SyncInode(d, d.name);
      if env.parse(Content(d)).None? || !s.entrySync then Begun(e, None)
      else Begun(SyncEntry(e), if s.entropy then Some(Content(d)) else None)
  }

  /**
   * Startup succeeds exactly when every call works and both reads parse, and then on the file it found under
   * the lock, which nothing older can replace any more. A failed one leaves the file as the last writer did.
   */
  lemma StartupOutcome(d: Disk, s: Startup, inode: nat, env: Env)
    requires DiskOk(d) && inode !in d.inodes && env.Lawful()
    ensures var o := Beginning(d, s, inode, env);
            && DiskOk(o.disk)
            && (o.bytes.Some? <==>
                  && s.readable && s.fileSync && s.lock && s.dirSync && s.readAgain && s.syncAgain && s.entrySync
                  && s.entropy
                  && env.parse(Content(d)).Some? && (s.other.Some? ==> env.parse(s.other.value).Some?))
            && (o.bytes.Some? ==>
                  && o.bytes.value == Content(o.disk) == (if s.other.Some? then s.other.value else Content(d))
                  && o.disk.durable == {o.disk.name} && o.disk.inodes[o.disk.name].synced)
            && (o.bytes.None? ==> Content(o.disk) == Content(d) || Some(Content(o.disk)) == s.other)
  {
  }

  lemma AfterLast(w: World, run: seq<Label>, l: Label, env: Env)
    requires After(w, run, env).Some?
    ensures After(w, run + [l], env) == Next(After(w, run, env).value, l, env)
  {
    assert (run + [l])[..|run|] == run;
  }

  predicate Beginnings(run: seq<Label>) { forall l | l in run :: l.Boot? || l.Restart? || l.ExternalWrite? }

  /** A run of startup that has come this far, with this disk. */
  ghost predicate Reaches(w: World, run: seq<Label>, boot: Boot, d: Disk, env: Env) {
    Beginnings(run) && After(w, run, env) == Some(w.(boot := boot, disk := d))
  }

  lemma BootStep(w: World, run: seq<Label>, boot: Boot, d: Disk, ok: bool, env: Env)
    requires !w.up && Reaches(w, run, boot, d, env)
    ensures var t := Booted(w.(boot := boot, disk := d), ok, env);
            Reaches(w, run + [Boot(ok)], t.boot, t.disk, env)
  {
    hide Booted;
    AfterLast(w, run, Boot(ok), env);
    BootChanges(w.(boot := boot, disk := d), ok, env);
  }

  lemma BootChanges(w: World, ok: bool, env: Env)
    ensures Booted(w, ok, env) == w.(boot := Booted(w, ok, env).boot, disk := Booted(w, ok, env).disk)
  {
    hide SyncInode, SyncEntry, Loaded, DiskOk;
  }

  lemma WriterStep(w: World, run: seq<Label>, boot: Boot, d: Disk, bytes: Bytes, inode: nat, env: Env)
    requires !w.up && Reaches(w, run, boot, d, env) && inode !in d.inodes
    ensures Reaches(w, run + [ExternalWrite(bytes, inode)], boot, Replaced(d, bytes, inode), env)
  {
    AfterLast(w, run, ExternalWrite(bytes, inode), env);
  }

  /** The state and the run agree with what startup should leave. */
  ghost predicate ComesTo(w: World, run: seq<Label>, o: Begun, key: nat, env: Env) {
    && Beginnings(run) && After(w, run, env).Some?
    && var t := After(w, run, env).value;
       && t.disk == o.disk && (t.up <==> o.bytes.Some?)
       && (t.up ==> !t.disabled && t.key == key && env.parse(o.bytes.value).Some?
                    && t.view == ViewOf(o.bytes.value, env.parse(o.bytes.value).value, key))
  }

  lemma Stops(w: World, run: seq<Label>, boot: Boot, d: Disk, key: nat, env: Env)
    requires !w.up && Reaches(w, run, boot, d, env)
    ensures ComesTo(w, run, Begun(d, None), key, env)
  {
  }

  lemma StartStep(w: World, run: seq<Label>, bytes: Bytes, d: Disk, key: nat, env: Env)
    requires !w.up && Reaches(w, run, Reconciled(bytes), d, env) && env.parse(bytes).Some?
    ensures ComesTo(w, run + [Restart(key)], Begun(d, Some(bytes)), key, env)
  {
    hide SaveNext, PollNext;
    AfterLast(w, run, Restart(key), env);
  }

  /** What startup does is what the protocol does on its steps. */
  lemma StartupIsARun(w: World, s: Startup, inode: nat, key: nat, env: Env) returns (run: seq<Label>)
    requires !w.up && w.boot == Off && DiskOk(w.disk) && inode !in w.disk.inodes && env.Lawful()
    ensures ComesTo(w, run, Beginning(w.disk, s, inode, env), key, env)
  {
    hide After, Reaches, ComesTo, Locking;
    var d, a := w.disk, SyncInode(w.disk, w.disk.name);
    BeginsHere(w, env);
    BootStep(w, [], Off, d, s.readable, env);
    run := [] + [Boot(s.readable)];
    if !s.readable || Loaded(d, env).None? { Stops(w, run, Off, d, key, env); return; }
    BootStep(w, run, FirstRead(d.name), d, s.fileSync, env);
    run := run + [Boot(s.fileSync)];
    if !s.fileSync { Stops(w, run, Off, d, key, env); return; }
    var b := Joined(a, s, inode);
    if s.other.Some? {
      WriterStep(w, run, FirstSynced, a, s.other.value, inode, env);
      run := run + [ExternalWrite(s.other.value, inode)];
    }
    BootStep(w, run, FirstSynced, b, s.lock, env);
    run := run + [Boot(s.lock)];
    if !s.lock { Stops(w, run, Off, b, key, env); return; }
    BootStep(w, run, Locked, b, s.dirSync, env);
    run := run + [Boot(s.dirSync)];
    if !s.dirSync { Stops(w, run, Off, b, key, env); return; }
    run := LockingIsARun(w, run, SyncEntry(b), s, key, env);
  }

  lemma BeginsHere(w: World, env: Env)
    ensures Reaches(w, [], w.boot, w.disk, env)
  {
  }

  lemma LockingIsARun(w: World, before: seq<Label>, d: Disk, s: Startup, key: nat, env: Env) returns (run: seq<Label>)
    requires !w.up && Reaches(w, before, EntrySynced, d, env) && DiskOk(d) && env.Lawful()
    ensures ComesTo(w, run, Locking(d, s, env), key, env)
  {
    hide After, Reaches, ComesTo;
    var bytes, e := Content(d), SyncInode(d, d.name);
    BootStep(w, before, EntrySynced, d, s.readAgain, env);
    run := before + [Boot(s.readAgain)];
    if !s.readAgain || |bytes| > M.MAX_BYTES { Stops(w, run, Off, d, key, env); return; }
    BootStep(w, run, SecondRead(d.name, bytes), d, s.syncAgain, env);
    run := run + [Boot(s.syncAgain)];
    if !s.syncAgain { Stops(w, run, Off, d, key, env); return; }
    if env.parse(bytes).None? { Stops(w, run, Off, e, key, env); return; }
    BootStep(w, run, SecondSynced(bytes), e, s.entrySync, env);
    run := run + [Boot(s.entrySync)];
    if !s.entrySync { Stops(w, run, Off, e, key, env); return; }
    if s.entropy {
      StartStep(w, run, bytes, SyncEntry(e), key, env);
      run := run + [Restart(key)];
    } else {
      BootStep(w, run, Reconciled(bytes), SyncEntry(e), false, env);
      run := run + [Boot(false)];
      Stops(w, run, Off, SyncEntry(e), key, env);
    }
  }
}
