/** The editor's and the cache's objects. */
module EditorService {
  import opened Common
  import opened Policy
  import opened ServiceCards
  import opened ServiceMatcher
  import opened EditorProtocol
  import opened EditorSafety
  import opened MetadataEditor
  import opened VisibleHost
  import M = ServiceMetadata
  import E = MetadataEdit

  class Cache {
    var data: Option<CacheData>

    constructor ()
      ensures data.None?
    {
      data := None;
    }

    /** refresh: each load may fail, and the pointer moves only when none has. */
    method Refresh(metadata: Option<M.Metadata>, control: Option<ControlLoad>, token: bool,
                   hosts: Option<seq<ProxyHost>>, now: int)
        returns (ok: bool)
      modifies this
      ensures ok <==> metadata.Some? && control.Some? && token && hosts.Some?
      ensures ok ==> data == Some(Assembled(control.value, hosts.value, metadata.value, now))
      ensures !ok ==> data == old(data)
    {
      if metadata.None? { return false; }
      if control.None? || !token || hosts.None? { return false; }
      var snapshot := CacheData(Some(control.value.policy), control.value.nodes, hosts.value, None, control.value.roles,
                                now);
      snapshot := snapshot.(metadata := Some(metadata.value));
      data := Some(snapshot);
      return true;
    }
  }

  lemma EnvironsAre(lib: M.Library, net: Network, staleAfter: int)
    ensures var env := EnvOf(lib, net, staleAfter);
            && env.Lawful()
            && (forall b :: env.parse(b) == Parse(b, lib))
            && (forall d :: env.text(d) == Text(d, lib))
            && (forall d, id, edit :: env.mutate(d, id, edit) == E.Mutated(d, id, edit, lib))
            && (forall data, req, key: nat, m ::
                  env.visibility(data, req, key, m) == VisibilityError(data, req, key, m, net, staleAfter))
  {
    EnvIsLawful(lib, net, staleAfter);
  }

  class ServiceMetadataEditor {
    const lib: M.Library
    const matcher: ServiceMatcher.Library
    const staleAfter: int
    const key: nat
    ghost const env: Env
    var disk: Disk
    var view: View
    var disabled: bool

    ghost predicate Valid()
      reads this
    {
      && env == EnvOf(lib, matcher.net, staleAfter) && env.Lawful() && Sound(disk, view, disabled, key, env)
    }

    constructor (lib: M.Library, matcher: ServiceMatcher.Library, staleAfter: int, key: nat, disk: Disk,
                 metadata: M.Metadata)
      requires DiskOk(disk) && disk.durable == {disk.name} && disk.inodes[disk.name].synced
      requires Parse(Content(disk), lib) == Some(metadata)
      ensures Valid() && !disabled && this.disk == disk && view == ViewOf(Content(disk), metadata, key)
      ensures this.lib == lib && this.matcher == matcher && this.staleAfter == staleAfter && this.key == key
    {
      this.lib, this.matcher, this.staleAfter, this.key := lib, matcher, staleAfter, key;
      this.env := EnvOf(lib, matcher.net, staleAfter);
      this.disk := disk;
      this.view := ViewOf(Content(disk), metadata, key);
      this.disabled := false;
      new;
      EnvIsLawful(lib, matcher.net, staleAfter);
    }

    /**
     * newServiceMetadataEditor: the view comes from the second read, under the lock, and only a synced valid
     * file will do. `left` is the disk afterwards. The steps are those of a run (StartupIsARun); what they
     * amount to is StartupOutcome.
     */
    static method NewServiceMetadataEditor(lib: M.Library, matcher: ServiceMatcher.Library, staleAfter: int, key: nat,
                                           disk: Disk, s: Startup, inode: nat)
        returns (r: Option<ServiceMetadataEditor>, left: Disk)
      requires DiskOk(disk) && inode !in disk.inodes
      ensures Begun(left, if r.Some? then Some(r.value.view.bytes) else None)
           == Beginning(disk, s, inode, EnvOf(lib, matcher.net, staleAfter))
      ensures r.Some? ==> fresh(r.value) && r.value.Begins(lib, matcher, staleAfter, key, left)
    {
      hide EnvOf, SyncEntry, SyncInode, ServiceMetadataEditor.Begins, Locking;
      EnvironsAre(lib, matcher.net, staleAfter);
      left := disk;
      if !s.readable || |Content(disk)| > M.MAX_BYTES { return None, left; }
      var first := M.ParseServiceMetadata(Content(disk), lib);
      if first.Err? || !s.fileSync { return None, left; }
      left := SyncInode(left, left.name);
      left := Joined(left, s, inode);
      if !s.lock || !s.dirSync { return None, left; }
      JoinedIsOk(disk, s, inode);
      r, left := StartLocked(lib, matcher, staleAfter, key, SyncEntry(left), s);
    }

    /** A new editor on this disk. */
    ghost predicate Begins(lib: M.Library, matcher: ServiceMatcher.Library, staleAfter: int, key: nat, disk: Disk)
      reads this
    {
      && Valid() && !disabled && this.disk == disk
      && this.lib == lib && this.matcher == matcher && this.staleAfter == staleAfter && this.key == key
    }

    /** The second half of startup, once the lock is held and the directory synced. */
    static method StartLocked(lib: M.Library, matcher: ServiceMatcher.Library, staleAfter: int, key: nat, disk: Disk,
                              s: Startup)
        returns (r: Option<ServiceMetadataEditor>, left: Disk)
      requires DiskOk(disk)
      ensures Begun(left, if r.Some? then Some(r.value.view.bytes) else None)
          == Locking(disk, s, EnvOf(lib, matcher.net, staleAfter))
      ensures r.Some? ==> fresh(r.value) && r.value.Begins(lib, matcher, staleAfter, key, left)
    {
      hide EnvOf, SyncEntry, SyncInode;
      EnvironsAre(lib, matcher.net, staleAfter);
      left := disk;
      if !s.readAgain || |Content(left)| > M.MAX_BYTES { return None, left; }
      var bytes := Content(left);
      var second := M.ParseServiceMetadata(bytes, lib);
      if !s.syncAgain { return None, left; }
      SyncedIsOk(left);
      left := SyncInode(left, left.name);
      if second.Err? || !s.entrySync { return None, left; }
      left := SyncEntry(left);
      if !s.entropy { return None, left; }
      var editor := new ServiceMetadataEditor(lib, matcher, staleAfter, key, left, second.value);
      return Some(editor), left;
    }

    /** checkDisk. */
    method CheckDisk(readable: bool) returns (error: Option<EditError>)
      requires DiskOk(disk)
      ensures error == Some(Conflict) <==> readable && |Content(disk)| <= M.MAX_BYTES && Content(disk) != view.bytes
      ensures error == None <==> readable && |Content(disk)| <= M.MAX_BYTES && Content(disk) == view.bytes
      ensures error.Some? && error.value != Conflict ==> error.value == Storage
      ensures error == DiskError(disk, view, readable)
    {
      if !readable || |Content(disk)| > M.MAX_BYTES { return Some(Storage); }
      if Content(disk) != view.bytes { return Some(Conflict); }
      return None;
    }

    method RequestSnapshot(data: Option<CacheData>) returns (r: Option<CacheData>)
      ensures r == RequestData(data, view)
    {
      if data.None? { return None; }
      var local := data.value;
      local := local.(metadata := Some(view.metadata));
      return Some(local);
    }

    method VisibleHost(req: Request, data: Option<CacheData>, ghost token: int, now: int)
        returns (error: Option<EditError>)
      requires Valid()
      ensures exists m | At(m, token, now, data) :: error == env.visibility(RequestData(data, view), req, key, m)
    {
      EnvironsAre(lib, matcher.net, staleAfter);
      var local := RequestSnapshot(data);
      error := CheckVisible(local, req, key, token, now, matcher, staleAfter);
      ghost var m :| At(m, token, now, local) && error == VisibilityError(local, req, key, m, matcher.net, staleAfter);
      assert At(m, token, now, data);
    }

    /** The closure that save hands to commit: it reads the clock twice, for the token and for the data. */
    method FinalCheck(req: Request, data: Option<CacheData>, token: int, now: int) returns (error: Option<EditError>)
      requires Valid()
      ensures exists m | At(m, token, now, data) :: error == FinalError(RequestData(data, view), req, key, m, env)
    {
      if !ValidCsrf(req, key, token) {
        ghost var m := SomeMoment(data, token, now);
        assert FinalError(RequestData(data, view), req, key, m, env) == Some(Csrf);
        return Some(Csrf);
      }
      error := VisibleHost(req, data, token, now);
      ghost var m :| At(m, token, now, data) && error == env.visibility(RequestData(data, view), req, key, m);
      assert error == FinalError(RequestData(data, view), req, key, m, env);
    }

    method Print(document: M.Document) returns (contents: Option<Bytes>)
      requires Valid() && M.DistinctIds(document.services)
      ensures contents == env.text(document)
    {
      EnvironsAre(lib, matcher.net, staleAfter);
      var text := M.SerializeServiceMetadataDocumentV3(document, lib);
      return if text.Ok? then Some(text.value) else None;
    }

    method Read(contents: Bytes) returns (metadata: Option<M.Metadata>)
      requires Valid()
      ensures metadata == env.parse(contents)
    {
      EnvironsAre(lib, matcher.net, staleAfter);
      var parsed := M.ParseServiceMetadata(contents, lib);
      return if parsed.Ok? then Some(parsed.value) else None;
    }

    method Mutate(req: Request) returns (document: Option<M.Document>)
      requires Valid()
      ensures document == env.mutate(view.metadata.document, req.id, req.edit)
      ensures document.Some? ==> M.DistinctIds(document.value.services)
    {
      EnvironsAre(lib, matcher.net, staleAfter);
      M.ParsedIsWellFormed(view.bytes, lib);
      document := E.MutateServiceMetadata(view.metadata.document, req.id, req.edit.name, req.edit.url, req.edit.icon,
                                          req.edit.reset, lib);
      if document.Some? { E.MutatedMembers(view.metadata.document, req.id, req.edit, lib); }
    }

    // What save, commit and the last third of commit should come to

    ghost function OutcomeOfSave(req: Request, data: Option<CacheData>, first: Moment, temp: nat,
                                 latest: Option<CacheData>, last: Moment, f: Faults): Outcome
      reads this
      requires Valid()
    {
      FromOpen(disk, view, disabled, req, env.visibility(RequestData(data, view), req, key, first), temp, f, key,
               FinalError(RequestData(latest, view), req, key, last, env), env)
    }

    ghost function CommitOutcome(req: Request, document: M.Document, temp: nat, latest: Option<CacheData>, m: Moment,
                                 f: Faults): Outcome
      reads this
      requires Valid()
    {
      if disabled then Outcome(disk, view, true, Failed(Uncertain))
      else
        FromCompare(disk, view, req.revision, document, temp, f, key,
                    FinalError(RequestData(latest, view), req, key, m, env), env)
    }

    ghost function ReplaceOutcome(req: Request, contents: Bytes, temp: nat, latest: Option<CacheData>, m: Moment,
                                  f: Faults): Outcome
      reads this
      requires env.parse(contents).Some?
    {
      FromRecheck(disk, view, contents, temp, f, key, FinalError(RequestData(latest, view), req, key, m, env), env)
    }

    /** The last third of commit: look again, check the authorization, rename, sync, publish. */
    method Replace(req: Request, contents: Bytes, metadata: M.Metadata, temp: nat, latest: Option<CacheData>,
                   token: int, now: int, f: Faults)
        returns (reply: Reply, ghost m: Moment)
      requires Valid() && !disabled && temp in disk.inodes && env.parse(contents) == Some(metadata)
      modifies this`disk, this`view, this`disabled
      ensures At(m, token, now, latest)
      ensures Outcome(disk, view, disabled, reply) == old(ReplaceOutcome(req, contents, temp, latest, m, f))
    {
      hide EnvOf, FinalError, RequestData, OrderFits;
      m := SomeMoment(latest, token, now);
      var error := CheckDisk(f.stillReadable);
      if error.Some? { return Failed(error.value), m; }
      var refusal := FinalCheck(req, latest, token, now);
      m :| At(m, token, now, latest) && refusal == FinalError(RequestData(latest, view), req, key, m, env);
      if refusal.Some? { return Failed(refusal.value), m; }
      if !f.rename { return Failed(Storage), m; }
      disk := Renaming(disk, temp);
      if !f.dirSync {
        disabled := true;
        return Failed(Uncertain), m;
      }
      disk := disk.(durable := {temp});
      view := ViewOf(contents, metadata, key);
      return Saved, m;
    }

    /** The middle third: write the temporary file, under the new name `temp`, and sync it. */
    method WriteTemporary(contents: Bytes, temp: nat, f: Faults) returns (error: bool)
      requires temp !in disk.inodes
      modifies this`disk
      ensures error <==> !(f.create && f.write && f.fileSync && f.closeTemp)
      ensures disk == if !f.create then old(disk)
                      else if !f.write then old(Put(disk, temp, Inode(f.partial, false)))
                      else old(Put(disk, temp, Inode(contents, f.fileSync)))
    {
      ghost var before := disk;
      if !f.create { return true; }
      disk := Put(disk, temp, Inode([], false));
      PutTwice(before, temp, Inode([], false), Inode(f.partial, false));
      PutTwice(before, temp, Inode([], false), Inode(contents, false));
      PutTwice(before, temp, Inode(contents, false), Inode(contents, true));
      if !f.write {
        disk := Put(disk, temp, Inode(f.partial, false));
        return true;
      }
      disk := Put(disk, temp, Inode(contents, false));
      if !f.fileSync { return true; }
      disk := Put(disk, temp, Inode(contents, true));
      return !f.closeTemp;
    }

    method Commit(req: Request, document: M.Document, temp: nat, latest: Option<CacheData>, token: int, now: int,
                  f: Faults)
        returns (reply: Reply, ghost m: Moment)
      requires Valid() && M.DistinctIds(document.services) && temp !in disk.inodes
      modifies this`disk, this`view, this`disabled
      ensures At(m, token, now, latest)
      ensures Outcome(disk, view, disabled, reply) == old(CommitOutcome(req, document, temp, latest, m, f))
    {
      hide EnvOf, FromRecheck, FinalError, RequestData, OrderFits;
      m := SomeMoment(latest, token, now);
      if disabled { return Failed(Uncertain), m; }
      if req.revision != view.revision { return Failed(Conflict), m; }
      var error := CheckDisk(f.readable);
      if error.Some? { return Failed(error.value), m; }
      var contents := Print(document);
      if contents.None? { return Failed(Unserializable), m; }
      var metadata := Read(contents.value);
      if metadata.None? { return Failed(Unserializable), m; }
      var failed := WriteTemporary(contents.value, temp, f);
      if failed { return Failed(Storage), m; }
      reply, m := Replace(req, contents.value, metadata.value, temp, latest, token, now, f);
    }

    /**
     * save: `data` is what the cache holds at the first visibility check and `asked` the time then, `latest`
     * what it holds at the final one; `token` and `confirmed` are the two readings of the clock there.
     * The steps are those of a run of the protocol (SaveIsARun); what they amount to is SaveOutcome.
     */
    method Save(req: Request, data: Option<CacheData>, asked: int, temp: nat, latest: Option<CacheData>, token: int,
                confirmed: int, f: Faults)
        returns (reply: Reply, ghost first: Moment, ghost last: Moment)
      requires Valid() && temp !in disk.inodes
      modifies this`disk, this`view, this`disabled
      ensures At(first, asked, asked, data) && At(last, token, confirmed, latest)
      ensures Outcome(disk, view, disabled, reply) == old(OutcomeOfSave(req, data, first, temp, latest, last, f))
      ensures Valid()
    {
      hide EnvOf, FromOpen, Sound, FinalError, RequestData, OrderFits;
      ghost var d, v, was := disk, view, disabled;
      reply, first, last := Attempt(req, data, asked, temp, latest, token, confirmed, f);
      SaveKeepsSound(d, v, was, req, env.visibility(RequestData(data, v), req, key, first), temp, f, key,
                     FinalError(RequestData(latest, v), req, key, last, env), env);
    }

    /** Its body. */
    method Attempt(req: Request, data: Option<CacheData>, asked: int, temp: nat, latest: Option<CacheData>, token: int,
                   confirmed: int, f: Faults)
        returns (reply: Reply, ghost first: Moment, ghost last: Moment)
      requires Valid() && temp !in disk.inodes
      modifies this`disk, this`view, this`disabled
      ensures At(first, asked, asked, data) && At(last, token, confirmed, latest)
      ensures Outcome(disk, view, disabled, reply) == old(OutcomeOfSave(req, data, first, temp, latest, last, f))
    {
      hide EnvOf;
      first := SomeMoment(data, asked, asked);
      last := SomeMoment(latest, token, confirmed);
      if disabled { return Failed(Uncertain), first, last; }
      var hidden := VisibleHost(req, data, asked, asked);
      first :| At(first, asked, asked, data) && hidden == env.visibility(RequestData(data, view), req, key, first);
      if hidden.Some? { return Failed(hidden.value), first, last; }
      var document := Mutate(req);
      if document.None? { return Failed(InvalidFields), first, last; }
      reply, last := Commit(req, document.value, temp, latest, token, confirmed, f);
    }

    method Close()
      requires Valid()
      modifies this`disabled
      ensures Valid() && disabled
    {
      hide EnvOf;
      disabled := true;
    }
  }

  /** In terms of documents: a committed file reads as exactly the edited form of the one it replaced. */
  lemma CommitIsTheEdit(c: Commit, lib: M.Library, net: Network, staleAfter: int)
    requires lib.Lawful() && CommitOk(c, EnvOf(lib, net, staleAfter)) && 0 < c.req.id <= M.MAX_INT
    ensures M.Parsed(c.before, lib).Ok? && M.Parsed(c.after, lib).Ok? && E.Accepted(c.req.edit, lib)
    ensures Some(M.Parsed(c.after, lib).value.document)
         == E.Mutated(M.Parsed(c.before, lib).value.document, c.req.id, c.req.edit, lib)
  {
    EnvironsAre(lib, net, staleAfter);
    var d := M.Parsed(c.before, lib).value.document;
    E.UpgradeAndEdit(c.before, c.req.id, c.req.edit, lib);
  }

  lemma PutTwice(d: Disk, n: nat, first: Inode, second: Inode)
    ensures Put(Put(d, n, first), n, second) == Put(d, n, second)
  {
  }

  lemma SyncedIsOk(d: Disk)
    requires DiskOk(d)
    ensures var e := SyncInode(d, d.name);
            && DiskOk(e) && e.name == d.name && Content(e) == Content(d) && e.inodes[e.name].synced
            && DiskOk(SyncEntry(d)) && Content(SyncEntry(d)) == Content(d) && SyncEntry(d).name == d.name
            && DiskOk(SyncEntry(e)) && Content(SyncEntry(e)) == Content(e) && SyncEntry(e).name == d.name
            && SyncEntry(e).durable == {d.name} && SyncEntry(e).inodes == e.inodes
  {
  }

  lemma JoinedIsOk(d: Disk, s: Startup, inode: nat)
    requires DiskOk(d) && inode !in d.inodes
    ensures DiskOk(SyncEntry(Joined(SyncInode(d, d.name), s, inode)))
  {
  }
}
