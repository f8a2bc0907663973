/** The message handler the listener subscribes with: it parses the
    envelope, dispatches on the topic's last segment, records every `Rec`
    and `Snap` event in `mqtt_messages`, and for a `Snap` (an unrecognized
    face) runs the lock, cooldown, image save, employee insert, `EditPerson`
    publish and compensation steps. One call is a pure step from a `World`
    to a `World` and an `Outcome`. */
module Listener {
  import opened Wrappers
  import opened Php
  import opened KvStore
  import opened ImageStore

  /** Seconds the per-content lock lives (`SET … NX EX 10`). */
  const LockTtl: nat := 10
  /** Seconds a registered content stays suppressed (`SETEX … 300`). */
  const CooldownTtl: nat := 300
  /** The display name of an unrecognized face ("stranger"). */
  const StrangerName := "Người lạ"
  /** The display name of a Snap row whose image was saved for registration. */
  const AutoRegName := "Người lạ (Auto-Reg)"
  /** The topic `EditPerson` commands are published on. */
  const CommandTopic := "mqtt/face/1018656"

  function LockKey(h: string): string
  {
    "snap_lock:" + h
  }

  function CooldownKey(h: string): string
  {
    "snap_cooldown:" + h
  }

  /** The lock and the cooldown marker of a hash never share a key with
      each other or with those of another hash. */
  lemma KeysDistinct(h1: string, h2: string)
    ensures LockKey(h1) != CooldownKey(h2)
    ensures LockKey(h1) == LockKey(h2) <==> h1 == h2
    ensures CooldownKey(h1) == CooldownKey(h2) <==> h1 == h2
  {
    assert LockKey(h1)[5] == 'l';
    assert CooldownKey(h2)[5] == 'c';
    assert LockKey(h1)[10..] == h1 && LockKey(h2)[10..] == h2;
    assert CooldownKey(h1)[14..] == h1 && CooldownKey(h2)[14..] == h2;
  }

  /** One row of `mqtt_messages`. Columns a branch does not fill are `None`.
      `similarity` and `recordId` hold the value before PHP's numeric cast. */
  datatype AuditRow = AuditRow(
    eventType: string,
    personName: Value,
    personId: Option<Value>,
    similarity: Option<Value>,
    recordId: Option<Value>,
    eventTime: Value,
    imagePath: Option<string>)

  /** One row of `employee`. */
  datatype Employee = Employee(sn: string, personName: string, registrationPhoto: string)

  /** One published command: the topic and the fields of the JSON payload. */
  datatype Command = Command(
    topic: string,
    messageId: string,
    operator: string,
    customId: string,
    name: string,
    personType: int,
    picUri: string)

  /** Everything a handler can observe or change: Redis, the disk, the two
      tables (append-only) and the commands published so far. */
  datatype World = World(
    kv: Store,
    files: Files,
    messages: seq<AuditRow>,
    employees: seq<Employee>,
    outbox: seq<Command>)

  /** What the handler captures when it is subscribed: the two upload
      directories, the public base URL, and the library functions the model
      does not open up (md5, base64 decoding, PHP's float-to-string). */
  datatype Ctx = Ctx(
    facesDir: string,
    photosDir: string,
    baseUrl: string,
    md5: string -> string,
    decode: string -> Option<Bytes>,
    floatText: real -> string)

  /** What one invocation observes of the outside world: the clock (`time()`
      and its `date` renderings `Y-m-d H:i:s` and `d/m H:i`), the `uniqid`
      results, the file system's answers, and whether the employee insert
      and the publish succeed. */
  datatype Tick = Tick(
    now: nat,
    fullDate: string,
    shortDate: string,
    uniq: string,
    newSn: string,
    messageId: string,
    disk: Disk,
    insertOk: bool,
    publishOk: bool)

  /** `json_decode($message, true)` as the handler looks at it: either not
      usable at all, or an object whose `info` entry may be absent. An `info`
      that is present is an object; any other JSON value there is not modelled. */
  datatype Payload = Unparseable | Decoded(info: Option<Assoc>)

  /** How one invocation ended. */
  datatype Outcome =
    | Dropped
    | Ignored(kind: string)
    | Recognized(saved: bool)
    | SnapNoPic
    | SnapLocked(hash: string)
    | SnapCooldown(hash: string)
    | SnapSaveFailed(hash: string, error: ImageError)
    | SnapRegistered(hash: string, sn: string, published: bool)
    | SnapInsertFailed(hash: string)
  {
    /** The Snap branches reached only after acquiring the lock. */
    predicate Admitted()
    {
      SnapCooldown? || SnapSaveFailed? || SnapRegistered? || SnapInsertFailed?
    }

    predicate IsSnap()
    {
      SnapNoPic? || SnapLocked? || Admitted()
    }
  }

  datatype Step = Step(world: World, outcome: Outcome)

  /** `w2` is `w1` with exactly one more `mqtt_messages` row. */
  predicate AppendsOne(w1: World, w2: World)
  {
    |w2.messages| == |w1.messages| + 1 && w2.messages[..|w1.messages|] == w1.messages
  }

  /** `$info['time'] ?? date('Y-m-d H:i:s')` */
  function EventTime(tick: Tick, info: Assoc): (v: Value)
    ensures "time" in info ==> v == info["time"]
    ensures "time" !in info ==> v == Str(tick.fullDate)
  {
    Coalesce(info, "time", Str(tick.fullDate))
  }

  /** `$info['pic'] ?? null`, passed to the `?string` parameter of the save. */
  function RecPic(ctx: Ctx, info: Assoc): (p: Option<string>)
    ensures p.None? <==> "pic" !in info
    ensures "pic" in info && info["pic"].Str? ==> p == Some(info["pic"].s)
    ensures "pic" in info && info["pic"].Int? ==> p == Some(IntToString(info["pic"].i))
  {
    match Lookup(info, "pic")
    case None => None
    case Some(v) => Some(ToString(v, ctx.floatText))
  }

  /** `$info['personId'] ?? uniqid()`, passed to the `string` seed parameter. */
  function RecSeed(ctx: Ctx, tick: Tick, info: Assoc): (seed: string)
    ensures "personId" !in info ==> seed == tick.uniq
    ensures "personId" in info && info["personId"].Str? ==> seed == info["personId"].s
    ensures "personId" in info && info["personId"].Int? ==> seed == IntToString(info["personId"].i)
  {
    match Lookup(info, "personId")
    case None => tick.uniq
    case Some(v) => ToString(v, ctx.floatText)
  }

  /** The Snap image payload, or `None` when `$info['pic']` is missing or falsy. */
  function SnapPic(ctx: Ctx, info: Assoc): (p: Option<string>)
    ensures p.None? <==> "pic" !in info || Falsy(info["pic"])
    // a pic the Snap branch accepts is passed on exactly as the Rec branch passes it
    ensures p.Some? ==> p == RecPic(ctx, info)
    // for a string or integer pic, `!$pic` and the save's `empty()` agree
    ensures "pic" in info && !info["pic"].Float? ==> (p.None? <==> Empty(RecPic(ctx, info)))
  {
    match Lookup(info, "pic")
    case None => None
    case Some(v) => if Falsy(v) then None else Some(ToString(v, ctx.floatText))
  }

  function SnapRow(name: string, time: Value, image: Option<string>): AuditRow
  {
    AuditRow("Snap", Str(name), None, None, None, time, image)
  }

  /** The row every Snap branch except a successful save writes. */
  function StrangerRow(tick: Tick, info: Assoc): AuditRow
  {
    SnapRow(StrangerName, EventTime(tick, info), None)
  }

  /** The display name given to an auto-registered employee. */
  function NewPersonName(tick: Tick): string
  {
    StrangerName + " " + tick.shortDate
  }

  /** The `Rec` branch: save the image if any, and log one row. */
  function HandleRec(ctx: Ctx, tick: Tick, info: Assoc, w: World): (s: Step)
    ensures s.outcome.Recognized?
    ensures s.world.kv == w.kv && s.world.employees == w.employees && s.world.outbox == w.outbox
    ensures AppendsOne(w, s.world)
    ensures var row := s.world.messages[|w.messages|];
            && row.eventType == "Rec"
            && row.personName == (if "personName" in info then info["personName"]
                                  else if "persionName" in info then info["persionName"]
                                  else Str("N/A"))
            && row.personId == Some(if "personId" in info then info["personId"] else Str("N/A"))
            && row.similarity == Some(if "similarity1" in info then info["similarity1"] else Int(0))
            && row.recordId == Some(if "RecordID" in info then info["RecordID"] else Int(0))
            && row.eventTime == (if "time" in info then info["time"] else Str(tick.fullDate))
            && (row.imagePath.None? <==> !s.outcome.saved)
    ensures s.outcome.saved ==> TargetName(RecPic(ctx, info), "rec_", RecSeed(ctx, tick, info), tick.now).Some?
    ensures s.outcome.saved ==>
              var n := TargetName(RecPic(ctx, info), "rec_", RecSeed(ctx, tick, info), tick.now).value;
              && s.world.messages[|w.messages|].imagePath == Some(FacesRoot + n)
              && DirFile(ctx.facesDir, n) in s.world.files
              && DirFile(ctx.photosDir, n) in s.world.files
    ensures !s.outcome.saved ==> SubMap(s.world.files, w.files)
  {
    var saved := Save(RecPic(ctx, info), ctx.facesDir, ctx.photosDir, "rec_",
                      RecSeed(ctx, tick, info), tick.now, ctx.decode, tick.disk, w.files);
    var row := AuditRow(
      "Rec",
      Coalesce(info, "personName", Coalesce(info, "persionName", Str("N/A"))),
      Some(Coalesce(info, "personId", Str("N/A"))),
      Some(Coalesce(info, "similarity1", Int(0))),
      Some(Coalesce(info, "RecordID", Int(0))),
      EventTime(tick, info),
      if saved.paths.Success? then Some(saved.paths.value.facesPath) else None);
    Step(w.(files := saved.files, messages := w.messages + [row]), Recognized(saved.paths.Success?))
  }

  /** `$redis->set('snap_lock:' . h, 1, ['NX', 'EX' => 10])` */
  function TryLock(kv: Store, h: string, now: nat): (Store, bool)
  {
    SetNx(kv, LockKey(h), LockTtl, now)
  }

  /** The `EditPerson` command announcing a new employee. */
  function EditPerson(ctx: Ctx, tick: Tick, photosPath: string): (c: Command)
    ensures c.topic == CommandTopic && c.operator == "EditPerson" && c.personType == 0
    ensures c.messageId == tick.messageId
    // the new employee is named by its `sn` and its display name
    ensures c.customId == tick.newSn && c.name == NewPersonName(tick)
    // the picture URI is the base URL, a '/', and the returned photos path
    ensures ctx.baseUrl + "/" <= c.picUri && c.picUri[|ctx.baseUrl| + 1..] == photosPath
  {
    Command(CommandTopic, tick.messageId, "EditPerson", tick.newSn, NewPersonName(tick), 0,
            ctx.baseUrl + "/" + photosPath)
  }

  /** The inner `catch` block: each image is looked up as the upload
      directory followed by the basename of its returned path, and unlinked
      if it exists. */
  function Compensate(ctx: Ctx, paths: ImagePaths, files: Files): (r: Files)
    ensures SubMap(r, files)
    ensures ctx.facesDir + Basename(paths.facesPath) !in r
    ensures ctx.photosDir + Basename(paths.photosPath) !in r
    ensures forall p :: (p in files && p != ctx.facesDir + Basename(paths.facesPath) &&
                         p != ctx.photosDir + Basename(paths.photosPath)) ==> p in r
  {
    files - {ctx.facesDir + Basename(paths.facesPath), ctx.photosDir + Basename(paths.photosPath)}
  }

  /** The Snap branch's outer `try` block, entered holding the lock on `h`.
      The lock is released by the caller, as the `finally` block does. */
  function SnapAdmitted(ctx: Ctx, tick: Tick, pic: string, h: string, time: Value, w: World): (s: Step)
    ensures s.outcome.Admitted() && s.outcome.hash == h
    ensures AppendsOne(w, s.world)
    ensures s.world.messages[|w.messages|].eventType == "Snap"
    ensures s.world.messages[|w.messages|].eventTime == time
    ensures s.outcome.SnapCooldown? <==> Live(w.kv, CooldownKey(h), tick.now)
    ensures s.outcome.SnapCooldown? ==>
              s.world.files == w.files && s.world.messages[|w.messages|] == SnapRow(StrangerName, time, None)
    ensures s.outcome.SnapSaveFailed? ==>
              SubMap(s.world.files, w.files) && s.world.messages[|w.messages|] == SnapRow(StrangerName, time, None)
    ensures !s.outcome.SnapRegistered? ==>
              s.world.employees == w.employees && s.world.outbox == w.outbox && s.world.kv == w.kv
    ensures s.outcome.SnapRegistered? ==> TargetName(Some(pic), "snap_", tick.newSn, tick.now).Some?
    ensures s.outcome.SnapRegistered? ==>
              var n := TargetName(Some(pic), "snap_", tick.newSn, tick.now).value;
              && s.outcome.sn == tick.newSn
              && s.outcome.published == tick.publishOk
              && s.world.messages[|w.messages|] == SnapRow(AutoRegName, time, Some(FacesRoot + n))
              && s.world.employees == w.employees + [Employee(tick.newSn, NewPersonName(tick), PhotosRoot + n)]
              && s.world.outbox == w.outbox +
                   (if tick.publishOk
                    then [Command(CommandTopic, tick.messageId, "EditPerson", tick.newSn,
                                  NewPersonName(tick), 0, ctx.baseUrl + "/" + (PhotosRoot + n))]
                    else [])
              && DirFile(ctx.facesDir, n) in s.world.files
              && DirFile(ctx.photosDir, n) in s.world.files
              && (forall t :: tick.now <= t ==> (Live(s.world.kv, CooldownKey(h), t) <==> t < tick.now + CooldownTtl))
              && (forall k :: k != CooldownKey(h) ==> Agree(s.world.kv, w.kv, k))
  {
    if Live(w.kv, CooldownKey(h), tick.now) then
      Step(w.(messages := w.messages + [SnapRow(StrangerName, time, None)]), SnapCooldown(h))
    else
      var saved := Save(Some(pic), ctx.facesDir, ctx.photosDir, "snap_", tick.newSn, tick.now,
                        ctx.decode, tick.disk, w.files);
      match saved.paths
      case Failure(e) =>
        Step(w.(files := saved.files, messages := w.messages + [SnapRow(StrangerName, time, None)]),
             SnapSaveFailed(h, e))
      case Success(paths) =>
        var w1 := w.(files := saved.files,
                     messages := w.messages + [SnapRow(AutoRegName, time, Some(paths.facesPath))]);
        if tick.insertOk then
          Step(w1.(employees := w1.employees + [Employee(tick.newSn, NewPersonName(tick), paths.photosPath)],
                   outbox := w1.outbox + (if tick.publishOk then [EditPerson(ctx, tick, paths.photosPath)] else []),
                   kv := SetEx(w1.kv, CooldownKey(h), CooldownTtl, tick.now)),
               SnapRegistered(h, tick.newSn, tick.publishOk))
        else
          Step(w1.(files := Compensate(ctx, paths, w1.files)), SnapInsertFailed(h))
  }

  /** The `Snap` branch: an unrecognized face, deduplicated by the md5 of its
      image payload and auto-registered as a new employee. */
  function HandleSnap(ctx: Ctx, tick: Tick, info: Assoc, w: World): (s: Step)
    ensures s.outcome.IsSnap()
    // exactly one audit row on every path
    ensures AppendsOne(w, s.world)
    ensures s.world.messages[|w.messages|].eventType == "Snap"
    ensures s.world.messages[|w.messages|].eventTime == EventTime(tick, info)
    // a missing image: one row, and nothing else happens (no lock is touched)
    ensures s.outcome.SnapNoPic? <==> SnapPic(ctx, info).None?
    ensures s.outcome.SnapNoPic? ==> s.world == w.(messages := w.messages + [StrangerRow(tick, info)])
    ensures !s.outcome.SnapNoPic? ==> s.outcome.hash == ctx.md5(SnapPic(ctx, info).value)
    // a lock held elsewhere: one row, and nothing else happens
    ensures s.outcome.SnapLocked? <==>
              SnapPic(ctx, info).Some? && Live(w.kv, LockKey(ctx.md5(SnapPic(ctx, info).value)), tick.now)
    ensures s.outcome.SnapLocked? ==> s.world == w.(messages := w.messages + [StrangerRow(tick, info)])
    // once acquired, the lock is gone on return
    ensures s.outcome.Admitted() ==> LockKey(s.outcome.hash) !in s.world.kv
    // only a full registration adds an employee, and a command only if it was published
    ensures !s.outcome.SnapRegistered? ==> s.world.employees == w.employees && s.world.outbox == w.outbox
    ensures s.outcome.SnapRegistered? ==>
              && w.employees <= s.world.employees && |s.world.employees| == |w.employees| + 1
              && w.outbox <= s.world.outbox
              && |s.world.outbox| == |w.outbox| + (if s.outcome.published then 1 else 0)
  {
    var time := EventTime(tick, info);
    match SnapPic(ctx, info)
    case None => Step(w.(messages := w.messages + [StrangerRow(tick, info)]), SnapNoPic)
    case Some(pic) =>
      var h := ctx.md5(pic);
      var (kv1, acquired) := TryLock(w.kv, h, tick.now);
      if !acquired then
        Step(w.(messages := w.messages + [StrangerRow(tick, info)]), SnapLocked(h))
      else
        KeysDistinct(h, h);
        var s := SnapAdmitted(ctx, tick, pic, h, time, w.(kv := kv1));
        Step(s.world.(kv := Del(s.world.kv, LockKey(h))), s.outcome)
  }

  /** Past the lock, the Snap branch is the `try` block run on the locked
      store, followed by the `finally` block's `DEL`. */
  lemma SnapUnfold(ctx: Ctx, tick: Tick, info: Assoc, w: World)
    requires HandleSnap(ctx, tick, info, w).outcome.Admitted()
    ensures var pic := SnapPic(ctx, info).value;
            var h := ctx.md5(pic);
            var inner := SnapAdmitted(ctx, tick, pic, h, EventTime(tick, info),
                                      w.(kv := TryLock(w.kv, h, tick.now).0));
            && !Live(w.kv, LockKey(h), tick.now)
            && HandleSnap(ctx, tick, info, w) == Step(inner.world.(kv := Del(inner.world.kv, LockKey(h))), inner.outcome)
  {
  }

  /** A Snap event changes only the lock and cooldown keys of its own hash,
      and the cooldown key only when it registers. */
  lemma SnapChangesOnlyItsOwnKeys(ctx: Ctx, tick: Tick, info: Assoc, w: World)
    requires HandleSnap(ctx, tick, info, w).outcome.Admitted()
    ensures var s := HandleSnap(ctx, tick, info, w);
            && (forall k :: k != LockKey(s.outcome.hash) && k != CooldownKey(s.outcome.hash) ==>
                  Agree(s.world.kv, w.kv, k))
            && (!s.outcome.SnapRegistered? ==> Agree(s.world.kv, w.kv, CooldownKey(s.outcome.hash)))
  {
    var pic := SnapPic(ctx, info).value;
    var h := ctx.md5(pic);
    var inner := SnapAdmitted(ctx, tick, pic, h, EventTime(tick, info),
                              w.(kv := TryLock(w.kv, h, tick.now).0));
    SnapUnfold(ctx, tick, info, w);
    ReleaseFrame(w.kv, inner.world.kv, h, tick.now, inner.outcome.SnapRegistered?);
  }

  /** Taking the lock, changing at most the cooldown key (and not even that
      unless registering), then releasing the lock: only the hash's own two
      keys can end up different. */
  lemma ReleaseFrame(kv: Store, inner: Store, h: string, now: nat, registered: bool)
    requires forall k :: k != CooldownKey(h) ==> Agree(inner, TryLock(kv, h, now).0, k)
    requires !registered ==> inner == TryLock(kv, h, now).0
    ensures forall k :: k != LockKey(h) && k != CooldownKey(h) ==> Agree(Del(inner, LockKey(h)), kv, k)
    ensures !registered ==> Agree(Del(inner, LockKey(h)), kv, CooldownKey(h))
  {
    KeysDistinct(h, h);
    var locked := TryLock(kv, h, now).0;
    forall k | k != LockKey(h)
      ensures Agree(Del(inner, LockKey(h)), inner, k) && Agree(locked, kv, k)
    {
    }
    forall k | k != LockKey(h) && k != CooldownKey(h)
      ensures Agree(Del(inner, LockKey(h)), kv, k)
    {
      assert Agree(inner, locked, k);
    }
  }

  /** Once the lock is held, a live cooldown marker for the same hash
      suppresses the event: one stranger row, no file touched. */
  lemma SnapCooldownSuppresses(ctx: Ctx, tick: Tick, info: Assoc, w: World)
    ensures var s := HandleSnap(ctx, tick, info, w);
            && (s.outcome.SnapCooldown? <==>
                  s.outcome.Admitted() && Live(w.kv, CooldownKey(s.outcome.hash), tick.now))
            && (s.outcome.SnapCooldown? ==>
                  s.world.files == w.files && s.world.messages[|w.messages|] == StrangerRow(tick, info))
  {
    if HandleSnap(ctx, tick, info, w).outcome.Admitted() {
      SnapUnfold(ctx, tick, info, w);
      var h := ctx.md5(SnapPic(ctx, info).value);
      KeysDistinct(h, h);
    }
  }

  /** A failed save logs a stranger row without an image and creates no file. */
  lemma SnapSaveFailureLogsStranger(ctx: Ctx, tick: Tick, info: Assoc, w: World)
    requires HandleSnap(ctx, tick, info, w).outcome.SnapSaveFailed?
    ensures var s := HandleSnap(ctx, tick, info, w);
            && SubMap(s.world.files, w.files)
            && s.world.messages[|w.messages|] == StrangerRow(tick, info)
  {
    SnapUnfold(ctx, tick, info, w);
  }

  /** A full registration: one `Auto-Reg` row naming the faces image, one
      employee whose photo is the photos image, one `EditPerson` command if
      the publish succeeded (and none otherwise), both images on disk, and a
      cooldown marker for the hash that lives exactly 300 seconds. */
  lemma SnapRegistration(ctx: Ctx, tick: Tick, info: Assoc, w: World)
    requires HandleSnap(ctx, tick, info, w).outcome.SnapRegistered?
    ensures TargetName(SnapPic(ctx, info), "snap_", tick.newSn, tick.now).Some?
    ensures var s := HandleSnap(ctx, tick, info, w);
            var n := TargetName(SnapPic(ctx, info), "snap_", tick.newSn, tick.now).value;
            && s.outcome.sn == tick.newSn
            && s.outcome.published == tick.publishOk
            && s.world.messages[|w.messages|] == SnapRow(AutoRegName, EventTime(tick, info), Some(FacesRoot + n))
            && s.world.employees == w.employees + [Employee(tick.newSn, NewPersonName(tick), PhotosRoot + n)]
            && s.world.outbox == w.outbox +
                 (if tick.publishOk
                  then [Command(CommandTopic, tick.messageId, "EditPerson", tick.newSn,
                                NewPersonName(tick), 0, ctx.baseUrl + "/" + (PhotosRoot + n))]
                  else [])
            && DirFile(ctx.facesDir, n) in s.world.files
            && DirFile(ctx.photosDir, n) in s.world.files
            && !Live(w.kv, CooldownKey(s.outcome.hash), tick.now)
            && forall t :: tick.now <= t ==>
                 (Live(s.world.kv, CooldownKey(s.outcome.hash), t) <==> t < tick.now + CooldownTtl)
  {
    SnapUnfold(ctx, tick, info, w);
    var h := ctx.md5(SnapPic(ctx, info).value);
    KeysDistinct(h, h);
  }

  /** One invocation of the subscribed callback on `(topic, message)`. */
  function Handle(ctx: Ctx, tick: Tick, topic: string, payload: Payload, w: World): (s: Step)
    // an unusable envelope is dropped without a trace
    ensures s.outcome.Dropped? <==> payload.Unparseable? || payload.info.None?
    ensures s.outcome.Dropped? ==> s.world == w
    // the event kind is the topic's last segment; unknown kinds change nothing
    ensures s.outcome.Recognized? <==> payload.Decoded? && payload.info.Some? && Basename(topic) == "Rec"
    ensures s.outcome.IsSnap() <==> payload.Decoded? && payload.info.Some? && Basename(topic) == "Snap"
    ensures s.outcome.Ignored? <==>
              payload.Decoded? && payload.info.Some? && Basename(topic) != "Rec" && Basename(topic) != "Snap"
    ensures s.outcome.Ignored? ==> s.world == w && s.outcome.kind == Basename(topic)
    // one audit row per Rec or Snap event, none otherwise; tables only grow
    ensures w.messages <= s.world.messages
    ensures |s.world.messages| == |w.messages| + (if s.outcome.Dropped? || s.outcome.Ignored? then 0 else 1)
    ensures w.employees <= s.world.employees
    ensures |s.world.employees| == |w.employees| + (if s.outcome.SnapRegistered? then 1 else 0)
    ensures w.outbox <= s.world.outbox
    ensures |s.world.outbox| == |w.outbox| + (if s.outcome.SnapRegistered? && s.outcome.published then 1 else 0)
  {
    match payload
    case Unparseable => Step(w, Dropped)
    case Decoded(None) => Step(w, Dropped)
    case Decoded(Some(info)) => HandleEvent(ctx, tick, Basename(topic), info, w)
  }

  /** The dispatch on the event kind, once the envelope has an `info` object. */
  function HandleEvent(ctx: Ctx, tick: Tick, kind: string, info: Assoc, w: World): (s: Step)
    ensures !s.outcome.Dropped?
    ensures s.outcome.Recognized? <==> kind == "Rec"
    ensures s.outcome.IsSnap() <==> kind == "Snap"
    ensures s.outcome.Ignored? <==> kind != "Rec" && kind != "Snap"
    ensures s.outcome.Ignored? ==> s.world == w && s.outcome.kind == kind
    ensures w.messages <= s.world.messages
    ensures |s.world.messages| == |w.messages| + (if s.outcome.Ignored? then 0 else 1)
    ensures w.employees <= s.world.employees
    ensures |s.world.employees| == |w.employees| + (if s.outcome.SnapRegistered? then 1 else 0)
    ensures w.outbox <= s.world.outbox
    ensures |s.world.outbox| == |w.outbox| + (if s.outcome.SnapRegistered? && s.outcome.published then 1 else 0)
  {
    if kind == "Rec" then HandleRec(ctx, tick, info, w)
    else if kind == "Snap" then HandleSnap(ctx, tick, info, w)
    else Step(w, Ignored(kind))
  }

  /** The upload directory ends in exactly one '/', as both directories the
      listener is configured with do. */
  predicate SlashTerminated(dir: string)
  {
    dir == RTrimSlash(dir) + "/"
  }

  /** The files a successful save writes are exactly the ones the `catch`
      block unlinks, so compensation leaves a sub-map of the files before
      the save. */
  lemma CompensationUndoesSave(ctx: Ctx, files: Files, sn: string, now: nat, f: Format, b: Bytes)
    requires SlashTerminated(ctx.facesDir) && SlashTerminated(ctx.photosDir)
    requires '/' !in sn
    ensures var n := ImageName("snap_", sn, now, f);
            var left := Compensate(ctx, ImagePaths(FacesRoot + n, PhotosRoot + n),
                                   files[DirFile(ctx.facesDir, n) := b][DirFile(ctx.photosDir, n) := b]);
            && SubMap(left, files)
            && DirFile(ctx.facesDir, n) !in left
            && DirFile(ctx.photosDir, n) !in left
  {
    var n := ImageName("snap_", sn, now, f);
    var facesFile := DirFile(ctx.facesDir, n);
    var photosFile := DirFile(ctx.photosDir, n);
    SlashTerminatedDirFile(ctx.facesDir, n);
    SlashTerminatedDirFile(ctx.photosDir, n);
    CompensationTargets(ctx.facesDir, ctx.photosDir, n, sn, now, f);
    UndoWrites(files, facesFile, photosFile, b);
  }

  /** In a slash-terminated directory, `rtrim`-then-join is plain concatenation. */
  lemma SlashTerminatedDirFile(dir: string, n: string)
    requires SlashTerminated(dir)
    ensures DirFile(dir, n) == dir + n
  {
    assert RTrimSlash(dir) + "/" + n == (RTrimSlash(dir) + "/") + n;
  }

  /** The compensation's path for each image is the directory joined with
      the image's file name. */
  lemma CompensationTargets(facesDir: string, photosDir: string, n: string, sn: string, now: nat, f: Format)
    requires '/' !in sn
    requires n == ImageName("snap_", sn, now, f)
    ensures facesDir + Basename(FacesRoot + n) == facesDir + n
    ensures photosDir + Basename(PhotosRoot + n) == photosDir + n
  {
    ImageNameIsSegment("snap_", sn, now, f);
    assert FacesRoot + n == "uploads/faces" + "/" + n;
    assert PhotosRoot + n == "uploads/photos" + "/" + n;
    BasenameOfPath("uploads/faces", n);
    BasenameOfPath("uploads/photos", n);
  }

  /** Writing two files and unlinking both leaves a sub-map of the start. */
  lemma UndoWrites(files: Files, a: string, b: string, x: Bytes)
    ensures SubMap(files[a := x][b := x] - {a, b}, files)
  {
  }

  /** A failed employee insert leaves neither image behind, and adds no
      employee and no cooldown. */
  lemma InsertFailureRemovesImages(ctx: Ctx, tick: Tick, info: Assoc, w: World)
    requires SlashTerminated(ctx.facesDir) && SlashTerminated(ctx.photosDir)
    requires '/' !in tick.newSn
    requires HandleSnap(ctx, tick, info, w).outcome.SnapInsertFailed?
    ensures var s := HandleSnap(ctx, tick, info, w);
            var n := TargetName(SnapPic(ctx, info), "snap_", tick.newSn, tick.now).value;
            && SubMap(s.world.files, w.files)
            && DirFile(ctx.facesDir, n) !in s.world.files
            && DirFile(ctx.photosDir, n) !in s.world.files
            && s.world.employees == w.employees
            && Agree(s.world.kv, w.kv, CooldownKey(s.outcome.hash))
  {
    var pic := SnapPic(ctx, info).value;
    var h := ctx.md5(pic);
    var locked := w.(kv := TryLock(w.kv, h, tick.now).0);
    var inner := SnapAdmitted(ctx, tick, pic, h, EventTime(tick, info), locked);
    SnapUnfold(ctx, tick, info, w);
    var s := HandleSnap(ctx, tick, info, w);
    assert s == Step(inner.world.(kv := Del(inner.world.kv, LockKey(h))), inner.outcome);
    AdmittedInsertFailure(ctx, tick, pic, h, EventTime(tick, info), locked);
    KeysDistinct(h, h);
    LockReleaseKeepsOthers(w.kv, h, tick.now, CooldownKey(h));
  }

  /** Taking the lock and releasing it again leaves every other key as it was. */
  lemma LockReleaseKeepsOthers(kv: Store, h: string, now: nat, k: string)
    requires k != LockKey(h)
    ensures Agree(Del(TryLock(kv, h, now).0, LockKey(h)), kv, k)
  {
  }

  /** The `try` block's side of `InsertFailureRemovesImages`: the images the
      save wrote are unlinked again, and Redis is left as the lock left it. */
  lemma AdmittedInsertFailure(ctx: Ctx, tick: Tick, pic: string, h: string, time: Value, w: World)
    requires SlashTerminated(ctx.facesDir) && SlashTerminated(ctx.photosDir)
    requires '/' !in tick.newSn
    requires SnapAdmitted(ctx, tick, pic, h, time, w).outcome.SnapInsertFailed?
    ensures TargetName(Some(pic), "snap_", tick.newSn, tick.now).Some?
    ensures var s := SnapAdmitted(ctx, tick, pic, h, time, w);
            var n := TargetName(Some(pic), "snap_", tick.newSn, tick.now).value;
            && SubMap(s.world.files, w.files)
            && DirFile(ctx.facesDir, n) !in s.world.files
            && DirFile(ctx.photosDir, n) !in s.world.files
            && s.world.employees == w.employees
            && s.world.kv == w.kv
  {
    var f := ParseDataUrl(pic).value;
    var b := ctx.decode(ExplodeSecond(pic)).value;
    CompensationUndoesSave(ctx, w.files, tick.newSn, tick.now, f, b);
  }

  /** As written, the row logged before a failed insert still names the
      faces image, which the compensation has just deleted. */
  lemma InsertFailureRowNamesDeletedImage(ctx: Ctx, tick: Tick, info: Assoc, w: World)
    requires SlashTerminated(ctx.facesDir) && SlashTerminated(ctx.photosDir)
    requires '/' !in tick.newSn
    requires HandleSnap(ctx, tick, info, w).outcome.SnapInsertFailed?
    ensures var s := HandleSnap(ctx, tick, info, w);
            var n := TargetName(SnapPic(ctx, info), "snap_", tick.newSn, tick.now).value;
            && s.world.messages[|w.messages|] == SnapRow(AutoRegName, EventTime(tick, info), Some(FacesRoot + n))
            && DirFile(ctx.facesDir, n) !in s.world.files
  {
    InsertFailureRemovesImages(ctx, tick, info, w);
  }
}
