/** Handlers run one after another over the shared state, each at one
    instant: the guarantees the lock and the cooldown marker give across
    invocations. Mutual exclusion therefore reads "a handler that starts
    while another's lock is live is turned away". */
module Dedup {
  import opened Wrappers
  import opened Php
  import opened KvStore
  import opened Listener

  /** One delivered message together with what its invocation observes. */
  datatype Message = Message(topic: string, payload: Payload, tick: Tick)

  /** How many outcomes logged an audit row. */
  function Logged(out: seq<Outcome>): nat
  {
    if |out| == 0 then 0
    else (if out[0].Dropped? || out[0].Ignored? then 0 else 1) + Logged(out[1..])
  }

  /** How many outcomes registered an employee. */
  function Registrations(out: seq<Outcome>): nat
  {
    if |out| == 0 then 0 else (if out[0].SnapRegistered? then 1 else 0) + Registrations(out[1..])
  }

  /** How many outcomes published an `EditPerson` command. */
  function Publications(out: seq<Outcome>): nat
  {
    if |out| == 0 then 0
    else (if out[0].SnapRegistered? && out[0].published then 1 else 0) + Publications(out[1..])
  }

  /** The handler applied to each message in turn: one audit row per logged
      outcome, one employee per registration, one command per published
      registration, and nothing already recorded is lost. */
  function Run(ctx: Ctx, msgs: seq<Message>, w: World): (r: (World, seq<Outcome>))
    ensures |r.1| == |msgs|
    ensures w.messages <= r.0.messages && w.employees <= r.0.employees && w.outbox <= r.0.outbox
    ensures |r.0.messages| == |w.messages| + Logged(r.1)
    ensures |r.0.employees| == |w.employees| + Registrations(r.1)
    ensures |r.0.outbox| == |w.outbox| + Publications(r.1)
    decreases |msgs|
  {
    if |msgs| == 0 then (w, [])
    else
      var s := Handle(ctx, msgs[0].tick, msgs[0].topic, msgs[0].payload, w);
      var rest := Run(ctx, msgs[1..], s.world);
      assert ([s.outcome] + rest.1)[1..] == rest.1;
      (rest.0, [s.outcome] + rest.1)
  }

  /** The outcomes of a non-empty run: the first message's, then the rest's. */
  lemma RunCons(ctx: Ctx, msgs: seq<Message>, w: World)
    requires 0 < |msgs|
    ensures var s := Handle(ctx, msgs[0].tick, msgs[0].topic, msgs[0].payload, w);
            && Run(ctx, msgs, w).0 == Run(ctx, msgs[1..], s.world).0
            && Run(ctx, msgs, w).1 == [s.outcome] + Run(ctx, msgs[1..], s.world).1
  {
  }

  /** A Snap message for content whose lock is live is turned away: it logs
      one stranger row and changes nothing else, not even the lock. */
  lemma LockedOutWhileHeld(ctx: Ctx, tick: Tick, topic: string, info: Assoc, w: World)
    requires Basename(topic) == "Snap"
    requires SnapPic(ctx, info).Some?
    requires Live(w.kv, LockKey(ctx.md5(SnapPic(ctx, info).value)), tick.now)
    ensures var s := Handle(ctx, tick, topic, Decoded(Some(info)), w);
            && s.outcome.SnapLocked?
            && s.world == w.(messages := w.messages + [StrangerRow(tick, info)])
  {
  }

  /** Mutual exclusion: while one handler is inside its critical section
      for content hash `h` (it acquired the lock at `tickA.now`), every Snap
      handler for content with the same hash that starts within the lock's
      10 seconds is turned away without registering anything. */
  lemma MutualExclusion(ctx: Ctx, tickA: Tick, tickB: Tick, topic: string, info: Assoc, w: World, h: string)
    requires TryLock(w.kv, h, tickA.now).1
    requires Basename(topic) == "Snap"
    requires SnapPic(ctx, info).Some? && ctx.md5(SnapPic(ctx, info).value) == h
    requires tickA.now <= tickB.now < tickA.now + LockTtl
    ensures var inside := w.(kv := TryLock(w.kv, h, tickA.now).0);
            var s := Handle(ctx, tickB, topic, Decoded(Some(info)), inside);
            && s.outcome == SnapLocked(h)
            && s.world.kv == inside.kv
            && s.world.files == w.files
            && s.world.employees == w.employees
            && s.world.outbox == w.outbox
  {
    var inside := w.(kv := TryLock(w.kv, h, tickA.now).0);
    assert Live(inside.kv, LockKey(h), tickB.now);
    LockedOutWhileHeld(ctx, tickB, topic, info, inside);
  }

  /** A lock left behind by a handler that never released it stops
      blocking once its 10 seconds are over: a later Snap handler for the
      same content acquires the lock and is admitted. */
  lemma StaleLockExpires(ctx: Ctx, tick: Tick, topic: string, info: Assoc, w: World, t: int)
    requires Basename(topic) == "Snap"
    requires SnapPic(ctx, info).Some?
    requires var k := LockKey(ctx.md5(SnapPic(ctx, info).value)); k in w.kv && w.kv[k] == t + LockTtl
    requires t + LockTtl <= tick.now
    ensures Handle(ctx, tick, topic, Decoded(Some(info)), w).outcome.Admitted()
  {
  }

  /** A cooldown marker for `h` is present and lasts at least until `until`. */
  predicate CoolUntil(w: World, h: string, until: int)
  {
    CooldownKey(h) in w.kv && until <= w.kv[CooldownKey(h)]
  }

  /** No handler removes a cooldown marker or brings its expiry forward. */
  lemma HandleKeepsCooldown(ctx: Ctx, tick: Tick, topic: string, payload: Payload, w: World,
                            h: string, until: int)
    requires CoolUntil(w, h, until)
    ensures CoolUntil(Handle(ctx, tick, topic, payload, w).world, h, until)
  {
    if payload.Decoded? && payload.info.Some? {
      var info := payload.info.value;
      if Basename(topic) == "Rec" {
        assert Handle(ctx, tick, topic, payload, w) == HandleRec(ctx, tick, info, w);
      } else if Basename(topic) == "Snap" {
        assert Handle(ctx, tick, topic, payload, w) == HandleSnap(ctx, tick, info, w);
        SnapKeepsCooldown(ctx, tick, info, w, h, until);
      }
    }
  }

  /** The `Snap` branch of `HandleKeepsCooldown`. */
  lemma SnapKeepsCooldown(ctx: Ctx, tick: Tick, info: Assoc, w: World, h: string, until: int)
    requires CoolUntil(w, h, until)
    ensures CoolUntil(HandleSnap(ctx, tick, info, w).world, h, until)
  {
    var s := HandleSnap(ctx, tick, info, w);
    if s.outcome.Admitted() {
      SnapChangesOnlyItsOwnKeys(ctx, tick, info, w);
      KeysDistinct(s.outcome.hash, h);
      if s.outcome.SnapRegistered? && s.outcome.hash == h {
        SnapRegistration(ctx, tick, info, w);
        assert Live(s.world.kv, CooldownKey(h), tick.now + CooldownTtl - 1);
      }
    }
  }

  /** A registration for `h` needs its cooldown to be dead and leaves one
      that lives for the full window. */
  lemma RegistrationArmsCooldown(ctx: Ctx, tick: Tick, topic: string, payload: Payload, w: World)
    requires Handle(ctx, tick, topic, payload, w).outcome.SnapRegistered?
    ensures var s := Handle(ctx, tick, topic, payload, w);
            && !Live(w.kv, CooldownKey(s.outcome.hash), tick.now)
            && CoolUntil(s.world, s.outcome.hash, tick.now + CooldownTtl)
  {
    var s := Handle(ctx, tick, topic, payload, w);
    SnapRegistration(ctx, tick, payload.info.value, w);
    assert Live(s.world.kv, CooldownKey(s.outcome.hash), tick.now + CooldownTtl - 1);
  }

  /** No outcome in `out` is a registration of `h`. */
  predicate NeverRegisters(out: seq<Outcome>, h: string)
  {
    forall i :: 0 <= i < |out| ==> !(out[i].SnapRegistered? && out[i].hash == h)
  }

  /** While a cooldown marker for `h` lives, no message registers `h`. */
  lemma {:induction false} NoRegistrationWhileCool(ctx: Ctx, msgs: seq<Message>, w: World,
                                                  h: string, until: int)
    requires CoolUntil(w, h, until)
    requires forall i :: 0 <= i < |msgs| ==> msgs[i].tick.now < until
    ensures NeverRegisters(Run(ctx, msgs, w).1, h)
    decreases |msgs|
  {
    if |msgs| > 0 {
      var m := msgs[0];
      var s := Handle(ctx, m.tick, m.topic, m.payload, w);
      CoolStep(ctx, m.tick, m.topic, m.payload, w, h, until);
      NoRegistrationWhileCool(ctx, msgs[1..], s.world, h, until);
      RunCons(ctx, msgs, w);
    }
  }

  /** One invocation before `until` neither registers `h` nor shortens its cooldown. */
  lemma CoolStep(ctx: Ctx, tick: Tick, topic: string, payload: Payload, w: World, h: string, until: int)
    requires CoolUntil(w, h, until)
    requires tick.now < until
    ensures var s := Handle(ctx, tick, topic, payload, w);
            && !(s.outcome.SnapRegistered? && s.outcome.hash == h)
            && CoolUntil(s.world, h, until)
  {
    var s := Handle(ctx, tick, topic, payload, w);
    if s.outcome.SnapRegistered? && s.outcome.hash == h {
      RegistrationArmsCooldown(ctx, tick, topic, payload, w);
      assert false;
    }
    HandleKeepsCooldown(ctx, tick, topic, payload, w, h, until);
  }

  /** No two registrations in `out` are for the same content hash. */
  predicate RegistersEachHashOnce(out: seq<Outcome>)
  {
    forall i, j :: 0 <= i < j < |out| && out[i].SnapRegistered? && out[j].SnapRegistered? ==>
      out[i].hash != out[j].hash
  }

  /** Within one cooldown window (messages in time order, the last less
      than 300 seconds after the first), each content hash is registered
      at most once. */
  lemma {:induction false} OneRegistrationPerWindow(ctx: Ctx, msgs: seq<Message>, w: World)
    requires forall i, j :: 0 <= i <= j < |msgs| ==> msgs[i].tick.now <= msgs[j].tick.now
    requires 0 < |msgs| ==> msgs[|msgs| - 1].tick.now < msgs[0].tick.now + CooldownTtl
    ensures RegistersEachHashOnce(Run(ctx, msgs, w).1)
    decreases |msgs|
  {
    if |msgs| > 0 {
      var m := msgs[0];
      var s := Handle(ctx, m.tick, m.topic, m.payload, w);
      RunCons(ctx, msgs, w);
      OneRegistrationPerWindow(ctx, msgs[1..], s.world);
      if s.outcome.SnapRegistered? {
        QuietAfterRegistration(ctx, msgs, w);
      }
      ConsRegistersOnce(s.outcome, Run(ctx, msgs[1..], s.world).1);
    }
  }

  /** After the first message of a window registers a hash, the rest of the
      window never registers it again. */
  lemma QuietAfterRegistration(ctx: Ctx, msgs: seq<Message>, w: World)
    requires forall i, j :: 0 <= i <= j < |msgs| ==> msgs[i].tick.now <= msgs[j].tick.now
    requires 0 < |msgs| && msgs[|msgs| - 1].tick.now < msgs[0].tick.now + CooldownTtl
    requires Handle(ctx, msgs[0].tick, msgs[0].topic, msgs[0].payload, w).outcome.SnapRegistered?
    ensures var s := Handle(ctx, msgs[0].tick, msgs[0].topic, msgs[0].payload, w);
            NeverRegisters(Run(ctx, msgs[1..], s.world).1, s.outcome.hash)
  {
    var m := msgs[0];
    var s := Handle(ctx, m.tick, m.topic, m.payload, w);
    RegistrationArmsCooldown(ctx, m.tick, m.topic, m.payload, w);
    forall k | 0 <= k < |msgs[1..]| ensures msgs[1..][k].tick.now < m.tick.now + CooldownTtl {
      assert msgs[1..][k] == msgs[k + 1];
    }
    NoRegistrationWhileCool(ctx, msgs[1..], s.world, s.outcome.hash, m.tick.now + CooldownTtl);
  }

  lemma ConsRegistersOnce(o: Outcome, rest: seq<Outcome>)
    requires RegistersEachHashOnce(rest)
    requires o.SnapRegistered? ==> NeverRegisters(rest, o.hash)
    ensures RegistersEachHashOnce([o] + rest)
  {
    var out := [o] + rest;
    forall i, j | 0 <= i < j < |out| && out[i].SnapRegistered? && out[j].SnapRegistered?
      ensures out[i].hash != out[j].hash
    {
      assert out[j] == rest[j - 1];
      if i > 0 {
        assert out[i] == rest[i - 1];
      }
    }
  }

  /** Two Snap messages with the same image, the second within the
      cooldown window of a first that registered: one employee, at most one
      command, two audit rows, and the second is suppressed by the cooldown. */
  lemma DuplicateSnapScenario(ctx: Ctx, topic: string, info: Assoc, tick1: Tick, tick2: Tick, w: World)
    requires Basename(topic) == "Snap"
    requires Handle(ctx, tick1, topic, Decoded(Some(info)), w).outcome.SnapRegistered?
    requires tick1.now <= tick2.now < tick1.now + CooldownTtl
    ensures var r := Run(ctx, [Message(topic, Decoded(Some(info)), tick1),
                               Message(topic, Decoded(Some(info)), tick2)], w);
            && r.1[0].SnapRegistered?
            && r.1[1].SnapCooldown?
            && |r.0.messages| == |w.messages| + 2
            && |r.0.employees| == |w.employees| + 1
            && |r.0.outbox| == |w.outbox| + (if tick1.publishOk then 1 else 0)
  {
    var p := Decoded(Some(info));
    DuplicateSnapOutcomes(ctx, topic, info, tick1, tick2, w);
    var out := Run(ctx, [Message(topic, p, tick1), Message(topic, p, tick2)], w).1;
    assert out[1..] == [out[1]] && out[1..][1..] == [];
  }

  /** The outcomes of the duplicate pair: a registration, published exactly
      when the publish succeeded, followed by a cooldown suppression. */
  lemma DuplicateSnapOutcomes(ctx: Ctx, topic: string, info: Assoc, tick1: Tick, tick2: Tick, w: World)
    requires Basename(topic) == "Snap"
    requires Handle(ctx, tick1, topic, Decoded(Some(info)), w).outcome.SnapRegistered?
    requires tick1.now <= tick2.now < tick1.now + CooldownTtl
    ensures var out := Run(ctx, [Message(topic, Decoded(Some(info)), tick1),
                                 Message(topic, Decoded(Some(info)), tick2)], w).1;
            && out[0].SnapRegistered? && out[0].published == tick1.publishOk
            && out[1].SnapCooldown?
  {
    var p := Decoded(Some(info));
    var m1 := Message(topic, p, tick1);
    var m2 := Message(topic, p, tick2);
    var s1 := Handle(ctx, tick1, topic, p, w);
    var s2 := Handle(ctx, tick2, topic, p, s1.world);
    RunCons(ctx, [m1, m2], w);
    assert [m1, m2][1..] == [m2];
    RunCons(ctx, [m2], s1.world);
    assert s1 == HandleSnap(ctx, tick1, info, w);
    assert s2 == HandleSnap(ctx, tick2, info, s1.world);
    SnapRegistration(ctx, tick1, info, w);
    RepeatIsCooled(ctx, topic, info, tick1, tick2, w);
  }

  /** The same image again, within 300 seconds of its registration, finds
      the lock free and the cooldown live. */
  lemma RepeatIsCooled(ctx: Ctx, topic: string, info: Assoc, tick1: Tick, tick2: Tick, w: World)
    requires Basename(topic) == "Snap"
    requires HandleSnap(ctx, tick1, info, w).outcome.SnapRegistered?
    requires tick1.now <= tick2.now < tick1.now + CooldownTtl
    ensures HandleSnap(ctx, tick2, info, HandleSnap(ctx, tick1, info, w).world).outcome.SnapCooldown?
  {
    var p := Decoded(Some(info));
    var s1 := HandleSnap(ctx, tick1, info, w);
    assert Handle(ctx, tick1, topic, p, w) == s1;
    RegistrationArmsCooldown(ctx, tick1, topic, p, w);
    SnapCooldownSuppresses(ctx, tick2, info, s1.world);
  }

  /** The recognized-face example: a `Rec` message naming Alice is logged
      once with her name, similarity, record id and time, and registers no
      one. */
  lemma RecScenario(ctx: Ctx, tick: Tick, w: World)
    ensures var info := map["personName" := Str("Alice"), "similarity1" := Float(0.92),
                            "RecordID" := Int(7), "time" := Str("2024-01-01 10:00:00")];
            var s := Handle(ctx, tick, "x/face/1/Rec", Decoded(Some(info)), w);
            && s.outcome.Recognized?
            && |s.world.messages| == |w.messages| + 1
            && s.world.messages[|w.messages|].personName == Str("Alice")
            && s.world.messages[|w.messages|].similarity == Some(Float(0.92))
            && s.world.messages[|w.messages|].recordId == Some(Int(7))
            && s.world.messages[|w.messages|].eventTime == Str("2024-01-01 10:00:00")
            && s.world.employees == w.employees
  {
    var info := map["personName" := Str("Alice"), "similarity1" := Float(0.92),
                    "RecordID" := Int(7), "time" := Str("2024-01-01 10:00:00")];
    BasenameOfPath("x/face/1", "Rec");
    assert "x/face/1/Rec" == "x/face/1" + "/" + "Rec";
    assert Handle(ctx, tick, "x/face/1/Rec", Decoded(Some(info)), w) == HandleRec(ctx, tick, info, w);
  }
}
