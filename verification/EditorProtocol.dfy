/**
 * The shared metadata editor as steps: one save at a time under the writer mutex, with polls between
 * any two of its system calls, failures at each of them, and a crash at any point.
 */
module EditorProtocol {
  import opened Common
  import opened Policy
  import opened ServiceCards
  import opened ServiceMatcher
  import opened Selection
  import M = ServiceMetadata
  import E = MetadataEdit

  const SECOND := 1_000_000_000
  const CSRF_DURATION := 1800 * SECOND

  /** HMAC digests under the process key, as an injective function; clients may present any other text. */
  datatype Mac = FileMac(key: nat, bytes: Bytes)
               | TargetMac(key: nat, host: ProxyHost)
               | CsrfMac(key: nat, login: string, issued: int)
               | Other(text: string)

  /** A CSRF token carries the second it was issued in; the clock counts nanoseconds. */
  datatype Token = Token(issued: int, mac: Mac)

  datatype Request = Request(login: string, id: int, edit: E.Edit, revision: Mac, target: Option<Mac>, csrf: Token)

  datatype EditError = Uncertain | Conflict | Storage | Stale | NotVisible | Csrf | InvalidFields | Unserializable

  datatype Reply = Pending | Saved | Failed(error: EditError)

  datatype View = View(metadata: M.Metadata, bytes: Bytes, revision: Mac)

  /**
   * The protocol's view of the rest of the program: reading and printing documents, applying an edit,
   * and the visibility check. EnvOf below fills it in.
   */
  datatype Env = Env(
    parse: Bytes -> Option<M.Metadata>,
    mutate: (M.Document, int, E.Edit) -> Option<M.Document>,
    text: M.Document -> Option<Bytes>,
    visibility: (Option<CacheData>, Request, nat, Moment) -> Option<EditError>
  ) {
    /** Whatever is printed can be read, and whatever can be read is within the size bound. */
    ghost predicate Lawful() {
      && (forall d | text(d).Some? :: parse(text(d).value).Some?)
      && (forall b | parse(b).Some? :: |b| <= M.MAX_BYTES)
    }
  }

  /** When a check happens: the clock for the token and for the data, and the order of ranging over the groups. */
  datatype Moment = Moment(token: int, now: int, order: seq<string>)

  // Disk

  /** A file's content; what an unsynced one holds after a crash is anyone's guess. */
  datatype Inode = Inode(data: Bytes, synced: bool)

  /** `name` is what the directory says now, `durable` what it may say after a crash. */
  datatype Disk = Disk(inodes: map<nat, Inode>, name: nat, durable: set<nat>)

  predicate DiskOk(d: Disk) { d.name in d.durable && d.durable <= d.inodes.Keys }

  function Content(d: Disk): Bytes
    requires DiskOk(d)
  {
    d.inodes[d.name].data
  }

  predicate SameFile(a: Disk, b: Disk) {
    && a.name == b.name && a.durable == b.durable
    && forall n | n in a.durable && n in a.inodes :: n in b.inodes && b.inodes[n] == a.inodes[n]
  }

  // Authorization

  function RequestData(cache: Option<CacheData>, view: View): Option<CacheData> {
    if cache.None? then None else Some(cache.value.(metadata := Some(view.metadata)))
  }

  function WithId(hosts: seq<ProxyHost>, id: int): seq<ProxyHost> {
    if hosts == [] then []
    else WithId(hosts[..|hosts| - 1], id) + (if hosts[|hosts| - 1].id == id then [hosts[|hosts| - 1]] else [])
  }

  /** The hosts an identity sees, in host order. */
  ghost function VisibleHosts(data: CacheData, login: string, order: seq<string>, net: Network): seq<ProxyHost> {
    if data.policy.None? || NormalizedLogin(TrimSpace(login)) == "" then []
    else if !IterationOrder(order, data.policy.value.groups) then []
    else Filter(data.proxyHosts, IsVisible(AccessRules(data.policy.value), ViewerFor(login, order, data), net))
  }

  ghost predicate OrderFits(order: seq<string>, cache: Option<CacheData>) {
    cache.Some? && cache.value.policy.Some? ==> IterationOrder(order, cache.value.policy.value.groups)
  }

  predicate OutOfDate(data: CacheData, now: int, staleAfter: int) {
    data.updatedAt == 0 || now - data.updatedAt > staleAfter || data.updatedAt > now
  }

  /** visibleHost: the error it returns, if any. */
  ghost function VisibilityError(data: Option<CacheData>, req: Request, key: nat, m: Moment, net: Network,
                                 staleAfter: int): Option<EditError> {
    if data.None? || OutOfDate(data.value, m.now, staleAfter) then Some(Stale)
    else
      var hosts := WithId(VisibleHosts(data.value, req.login, m.order, net), req.id);
      if |hosts| != 1 then Some(NotVisible)
      else if req.target.Some? && req.target != Some(TargetMac(key, hosts[0])) then Some(Conflict)
      else None
  }

  function Parse(data: Bytes, lib: M.Library): Option<M.Metadata> {
    var r := M.Parsed(data, lib);
    if r.Ok? then Some(r.value) else None
  }

  function Text(d: M.Document, lib: M.Library): Option<Bytes> {
    var r := M.Serialized(d, lib);
    if r.Ok? then Some(r.value) else None
  }

  ghost function EnvOf(lib: M.Library, net: Network, staleAfter: int): Env {
    Env(
      data => Parse(data, lib),
      (d, id, edit) => E.Mutated(d, id, edit, lib),
      d => Text(d, lib),
      (data: Option<CacheData>, req: Request, key: nat, m: Moment) =>
        VisibilityError(data, req, key, m, net, staleAfter))
  }

  lemma EnvIsLawful(lib: M.Library, net: Network, staleAfter: int)
    ensures EnvOf(lib, net, staleAfter).Lawful()
  {
    forall b | Parse(b, lib).Some? ensures |b| <= M.MAX_BYTES { M.ParsedIsWellFormed(b, lib); }
  }

  predicate ValidCsrf(req: Request, key: nat, now: int) {
    0 <= now - req.csrf.issued * SECOND <= CSRF_DURATION && req.csrf.mac == CsrfMac(key, req.login, req.csrf.issued)
  }

  /** The final check of save. */
  function FinalError(data: Option<CacheData>, req: Request, key: nat, m: Moment, env: Env): Option<EditError> {
    if !ValidCsrf(req, key, m.token) then Some(Csrf) else env.visibility(data, req, key, m)
  }

  // World

  datatype Phase = Created | Written | Synced | Closed | Rechecked | Authorized | Renamed

  datatype Stage = Idle
                 | Opened(req: Request)
                 | Admitted(req: Request, document: M.Document)
                 | Current(req: Request, document: M.Document)
                 | Ready(req: Request, contents: Bytes)
                 | Holding(phase: Phase, req: Request, contents: Bytes, temp: nat)

  /** How far startup has come; what it read the second time is what it will publish. */
  datatype Boot = Off
                | FirstRead(inode: nat)
                | FirstSynced
                | Locked
                | EntrySynced
                | SecondRead(inode: nat, bytes: Bytes)
                | SecondSynced(bytes: Bytes)
                | Reconciled(bytes: Bytes)

  datatype ControlLoad = ControlLoad(policy: Policy, nodes: seq<Node>, roles: map<string, seq<string>>)

  /** A poll in flight: what it has loaded so far. */
  datatype Poll = NoPoll
                | Started(metadata: M.Metadata)
                | Controlled(metadata: M.Metadata, control: ControlLoad)
                | Complete(metadata: M.Metadata, control: ControlLoad, hosts: seq<ProxyHost>, at: int)

  /** One replacement of the file: who asked, and the bytes before and after. */
  datatype Commit = Commit(req: Request, key: nat, before: Bytes, after: Bytes)

  /**
   * `up` says that a process has completed its startup. `initial` is the file's content when the history
   * began. `log` holds the commits that took effect; `unsettled` says that the last of them is renamed but
   * not known to be durable.
   */
  datatype World = World(
    disk: Disk, boot: Boot, up: bool, key: nat, view: View, disabled: bool, stage: Stage, reply: Reply,
    cache: Option<CacheData>, poll: Poll,
    initial: Bytes, log: seq<Commit>, unsettled: bool
  )

  /** The bytes of the last commit known to be durable. */
  function Confirmed(w: World): Bytes {
    if w.log == [] then w.initial
    else if w.unsettled then w.log[|w.log| - 1].before
    else w.log[|w.log| - 1].after
  }

  datatype Label = Open(req: Request)
                 | Admit(m: Moment)
                 | Compare(readable: bool)
                 | Serialize
                 | Create(ok: bool, temp: nat)
                 | Write(ok: bool, partial: Bytes)
                 | FileSync(ok: bool)
                 | CloseTemp(ok: bool)
                 | Recheck(readable: bool)
                 | FinalCheck(m: Moment)
                 | Rename(ok: bool)
                 | DirSync(ok: bool)
                 | CloseEditor
                 | PollStart
                 | PollControl(control: ControlLoad)
                 | PollHosts(hosts: seq<ProxyHost>, at: int)
                 | PollPublish
                 | PollFail
                 | Exit | Crash(entry: nat, garbage: Bytes) | Boot(ok: bool) | Restart(key: nat)
                 | ExternalWrite(bytes: Bytes, inode: nat)

  /** Steps of the world around the editor's own operations. */
  predicate Around(l: Label) { l.PollStart? || l.PollControl? || l.PollHosts? || l.PollPublish? || l.PollFail? }

  /** Steps that begin or end a process. */
  predicate Lifecycle(l: Label) { l.Exit? || l.Crash? || l.Boot? || l.Restart? }

  predicate External(l: Label) { l.ExternalWrite? }

  function Fail(w: World, error: EditError): World { w.(stage := Idle, reply := Failed(error)) }

  predicate Holds(w: World, phase: Phase) { w.up && w.stage.Holding? && w.stage.phase == phase }

  function Advance(w: World, ok: bool, phase: Phase): World
    requires w.stage.Holding?
  {
    if ok then w.(stage := w.stage.(phase := phase)) else Fail(w, Storage)
  }

  /** checkDisk. */
  function DiskError(d: Disk, v: View, readable: bool): Option<EditError> {
    if !readable || !DiskOk(d) || |Content(d)| > M.MAX_BYTES then Some(Storage)
    else if Content(d) != v.bytes then Some(Conflict)
    else None
  }

  function ViewOf(bytes: Bytes, metadata: M.Metadata, key: nat): View { View(metadata, bytes, FileMac(key, bytes)) }

  /** A file that reads and parses. */
  function Loaded(d: Disk, env: Env): Option<Bytes> {
    if DiskOk(d) && |Content(d)| <= M.MAX_BYTES && env.parse(Content(d)).Some? then Some(Content(d)) else None
  }

  function SyncInode(d: Disk, n: nat): Disk {
    if n in d.inodes then d.(inodes := d.inodes[n := d.inodes[n].(synced := true)]) else d
  }

  function SyncEntry(d: Disk): Disk { d.(durable := {d.name}) }

  /**
   * newServiceMetadataEditor, one call at a time: read and parse, sync the file, lock, sync the directory,
   * then read, sync, parse and sync the directory once more. Any failure ends the attempt.
   */
  function Booted(w: World, ok: bool, env: Env): World {
    if !ok then w.(boot := Off)
    else match w.boot
      case Off => if Loaded(w.disk, env).None? then w else w.(boot := FirstRead(w.disk.name))
      case FirstRead(n) => w.(boot := FirstSynced, disk := SyncInode(w.disk, n))
      case FirstSynced => w.(boot := Locked)
      case Locked => w.(boot := EntrySynced, disk := SyncEntry(w.disk))
      case EntrySynced =>
        var fits := DiskOk(w.disk) && |Content(w.disk)| <= M.MAX_BYTES;
        w.(boot := if fits then SecondRead(w.disk.name, Content(w.disk)) else Off)
      case SecondRead(n, bytes) =>
        w.(boot := if env.parse(bytes).None? then Off else SecondSynced(bytes), disk := SyncInode(w.disk, n))
      case SecondSynced(bytes) => w.(boot := Reconciled(bytes), disk := SyncEntry(w.disk))
      case Reconciled(_) => w
  }

  /** All of the process is gone; the disk stays as it is. */
  function Stopped(w: World): World {
    w.(boot := Off, up := false, stage := Idle, reply := Pending, cache := None, poll := NoPoll)
  }

  /** A step of the save under way, or of closing the editor. */
  ghost function SaveNext(w: World, l: Label, env: Env): Option<World> {
    match l
    case Open(req) =>
      if !w.up || w.stage != Idle then None
      else if w.disabled then Some(Fail(w, Uncertain))
      else Some(w.(stage := Opened(req), reply := Pending))
    case Admit(m) =>
      if !w.up || !w.stage.Opened? || !OrderFits(m.order, w.cache) then None
      else
        var req := w.stage.req;
        var error := env.visibility(RequestData(w.cache, w.view), req, w.key, m);
        var document := env.mutate(w.view.metadata.document, req.id, req.edit);
        if error.Some? then Some(Fail(w, error.value))
        else if document.None? then Some(Fail(w, InvalidFields))
        else Some(w.(stage := Admitted(req, document.value)))
    case Compare(readable) =>
      if !w.up || !w.stage.Admitted? then None
      else if w.stage.req.revision != w.view.revision then Some(Fail(w, Conflict))
      else
        var error := DiskError(w.disk, w.view, readable);
        Some(if error.Some? then Fail(w, error.value) else w.(stage := Current(w.stage.req, w.stage.document)))
    case Serialize =>
      if !w.up || !w.stage.Current? then None
      else
        var contents := env.text(w.stage.document);
        Some(if contents.None? then Fail(w, Unserializable) else w.(stage := Stage.Ready(w.stage.req, contents.value)))
    case Create(ok, temp) =>
      if !w.up || !w.stage.Ready? || temp in w.disk.inodes then None
      else if !ok then Some(Fail(w, Storage))
      else Some(w.(stage := Holding(Created, w.stage.req, w.stage.contents, temp),
                   disk := w.disk.(inodes := w.disk.inodes[temp := Inode([], false)])))
    case Write(ok, partial) =>
      if !Holds(w, Created) then None
      else
        var data := if ok then w.stage.contents else partial;
        Some(Advance(w.(disk := w.disk.(inodes := w.disk.inodes[w.stage.temp := Inode(data, false)])), ok, Written))
    case FileSync(ok) =>
      if !Holds(w, Written) || w.stage.temp !in w.disk.inodes then None
      else
        var synced := w.disk.inodes[w.stage.temp].(synced := ok);
        Some(Advance(w.(disk := w.disk.(inodes := w.disk.inodes[w.stage.temp := synced])), ok, Synced))
    case CloseTemp(ok) => if !Holds(w, Synced) then None else Some(Advance(w, ok, Closed))
    case Recheck(readable) =>
      if !Holds(w, Closed) then None
      else
        var error := DiskError(w.disk, w.view, readable);
        Some(if error.Some? then Fail(w, error.value) else Advance(w, true, Rechecked))
    case FinalCheck(m) =>
      if !Holds(w, Rechecked) || !OrderFits(m.order, w.cache) then None
      else
        var error := FinalError(RequestData(w.cache, w.view), w.stage.req, w.key, m, env);
        Some(if error.Some? then Fail(w, error.value) else Advance(w, true, Authorized))
    case Rename(ok) =>
      if !Holds(w, Authorized) then None
      else if !ok then Some(Fail(w, Storage))
      else Some(w.(stage := w.stage.(phase := Renamed),
                   disk := w.disk.(name := w.stage.temp, durable := w.disk.durable + {w.stage.temp}),
                   log := w.log + [Commit(w.stage.req, w.key, w.view.bytes, w.stage.contents)],
                   unsettled := true))
    case DirSync(ok) =>
      if !Holds(w, Renamed) then None
      else if !ok then Some(Fail(w.(disabled := true), Uncertain))
      else
        var parsed := env.parse(w.stage.contents);
        if parsed.None? then None
        else Some(w.(stage := Idle, reply := Saved, disk := w.disk.(durable := {w.disk.name}),
                     view := ViewOf(w.stage.contents, parsed.value, w.key), unsettled := false))
    case CloseEditor => if !w.up || w.stage != Idle then None else Some(w.(disabled := true))
    case _ => None
  }

  function PollNext(w: World, l: Label): Option<World> {
    match l
    case PollStart => if !w.up || w.poll != NoPoll then None else Some(w.(poll := Started(w.view.metadata)))
    case PollControl(control) =>
      if !w.up || !w.poll.Started? then None else Some(w.(poll := Controlled(w.poll.metadata, control)))
    case PollHosts(hosts, at) =>
      if !w.up || !w.poll.Controlled? then None
      else Some(w.(poll := Complete(w.poll.metadata, w.poll.control, hosts, at)))
    case PollPublish =>
      if !w.up || !w.poll.Complete? then None
      else Some(w.(poll := NoPoll, cache := Some(Assembled(w.poll.control, w.poll.hosts, w.poll.metadata, w.poll.at))))
    case PollFail => if !w.up || w.poll == NoPoll then None else Some(w.(poll := NoPoll))
    case _ => None
  }

  /** The end and the beginning of a process, and what strangers do. */
  function OtherNext(w: World, l: Label, env: Env): Option<World> {
    match l
    case Exit => if !w.up && w.boot == Off then None else Some(Stopped(w))
    case Crash(entry, garbage) =>
      if entry !in w.disk.durable || entry !in w.disk.inodes then None
      else
        var survivor := if w.disk.inodes[entry].synced then w.disk.inodes[entry] else Inode(garbage, true);
        Some(Stopped(w).(disk := Disk(w.disk.inodes[entry := survivor], entry, {entry})))
    case Boot(ok) => if w.up then None else Some(Booted(w, ok, env))
    case Restart(key) =>
      if w.up || !w.boot.Reconciled? then None
      else
        var parsed := env.parse(w.boot.bytes);
        if parsed.None? then None
        else Some(Settled(w, w.boot.bytes).(boot := Off, up := true, key := key, disabled := false, reply := Pending,
                                            view := ViewOf(w.boot.bytes, parsed.value, key)))
    case ExternalWrite(bytes, inode) =>
      if inode in w.disk.inodes then None
      else Some(w.(disk := Disk(w.disk.inodes[inode := Inode(bytes, true)], inode, {inode})))
    case _ => None
  }

  /** The effect of a step, or None when it cannot happen. */
  ghost function Next(w: World, l: Label, env: Env): Option<World> {
    if Around(l) then PollNext(w, l) else if Lifecycle(l) || External(l) then OtherNext(w, l, env)
    else SaveNext(w, l, env)
  }

  function Assembled(control: ControlLoad, hosts: seq<ProxyHost>, metadata: M.Metadata, at: int): CacheData {
    CacheData(Some(control.policy), control.nodes, hosts, Some(metadata), control.roles, at)
  }

  /** After a restart the file itself says whether the last, unsettled commit took effect. */
  function Settled(w: World, bytes: Bytes): World {
    if !w.unsettled || w.log == [] then w.(unsettled := false)
    else if bytes == w.log[|w.log| - 1].after then w.(unsettled := false)
    else w.(unsettled := false, log := w.log[..|w.log| - 1])
  }

  ghost function After(w: World, run: seq<Label>, env: Env): Option<World> {
    if run == [] then Some(w)
    else
      var before := After(w, run[..|run| - 1], env);
      if before.None? then None else Next(before.value, run[|run| - 1], env)
  }

  lemma {:induction false} AfterFirst(w: World, l: Label, rest: seq<Label>, env: Env)
    ensures After(w, [l] + rest, env) == if Next(w, l, env).None? then None else After(Next(w, l, env).value, rest, env)
  {
    var run := [l] + rest;
    if rest == [] {
      assert run == [l] && run[..0] == [];
      assert After(w, [], env) == Some(w);
    } else {
      var n := |rest| - 1;
      AfterFirst(w, l, rest[..n], env);
      assert run[..n + 1] == [l] + rest[..n];
    }
  }

  /** Startup on a valid file. */
  predicate IsStart(w: World, env: Env) {
    && w.up && w.boot == Off && !w.disabled && w.stage == Idle && w.cache.None? && w.poll == NoPoll && w.log == []
    && !w.unsettled
    && DiskOk(w.disk) && w.disk.durable == {w.disk.name} && w.disk.inodes[w.disk.name].synced
    && w.initial == Content(w.disk)
    && env.parse(w.initial).Some? && w.view == ViewOf(w.initial, env.parse(w.initial).value, w.key)
  }
}
