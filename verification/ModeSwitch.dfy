/**
 * Double-buffered encoder switching. Several switchers share one pool of encoder sessions; each replaces its
 * encoder by a new one without dropping the frames still inside the old one.
 */
module ModeSwitch {
  import opened Wire
  import opened Classifier

  datatype EncoderConfig = EncoderConfig(codec: Codec, width: u32, height: u32, fps: u32, kbps: Option<u32>)

  /** A frame on its way through or out of an encoder; `encoder` says which one of the switcher's it was. */
  datatype Packet = Packet(frame: nat, idr: bool, encoder: nat)

  /** The pipeline contract of an encoder: frames wait in order; a keyframe request marks the next frame. */
  datatype Encoder = Encoder(id: nat, pending: seq<Packet>, keyframe: bool)

  /** What an encoder does with a submitted frame: hand back its oldest packet, keep everything, or refuse it. */
  datatype Pace = Emit | Buffer | Refuse

  function Fresh(id: nat): Encoder { Encoder(id, [], false) }

  function Submitted(e: Encoder, frame: nat, natural: bool): Encoder {
    e.(pending := e.pending + [Packet(frame, e.keyframe || natural, e.id)], keyframe := false)
  }

  // ---- One switcher ----

  /** A packet that left an encoder, or was lost because the encoder failed to flush. */
  datatype Exit = Exit(packet: Packet, lost: bool)

  datatype Stage =
    | Idle
    | Acquired(config: EncoderConfig, mode: Mode)
    | Built(next: Encoder, config: EncoderConfig, mode: Mode)
    | Primed(next: Encoder, config: EncoderConfig, mode: Mode)
    | Draining(retiring: Encoder)
    | Drained

  /** `submitted` and `log` record every frame accepted and every packet gone, in order. */
  datatype Switcher =
    | Vacant
    | Opening(config: EncoderConfig, mode: Mode)
    | Live(active: Encoder, config: EncoderConfig, mode: Mode, stage: Stage, submitted: seq<nat>, log: seq<Exit>)

  datatype Action =
    | Open(config: EncoderConfig, mode: Mode)
    | Construct(ok: bool)
    | Close
    | Encode(frame: nat, natural: bool, pace: Pace)
    | RequestKeyframe
    | RequestMode(mode: Mode)
    | Begin(config: EncoderConfig, mode: Mode)
    | Build(ok: bool)
    | Prime
    | Swap
    | Flush(ok: bool)
    | Release

  predicate Enabled(s: Switcher, a: Action) {
    match a
    case Open(_, _) => s.Vacant?
    case Construct(_) => s.Opening?
    case Close | Encode(_, _, _) | RequestKeyframe | RequestMode(_) | Begin(_, _) => s.Live? && s.stage.Idle?
    case Build(_) => s.Live? && s.stage.Acquired?
    case Prime => s.Live? && s.stage.Built?
    case Swap => s.Live? && s.stage.Primed?
    case Flush(_) => s.Live? && s.stage.Draining?
    case Release => s.Live? && s.stage.Drained?
  }

  function Leaving(packets: seq<Packet>, lost: bool): seq<Exit> {
    seq(|packets|, i requires 0 <= i < |packets| => Exit(packets[i], lost))
  }

  function Encoded(s: Switcher, frame: nat, natural: bool, pace: Pace): Switcher
    requires s.Live?
  {
    if pace == Refuse then s
    else
      var e := Submitted(s.active, frame, natural);
      if pace == Buffer then s.(active := e, submitted := s.submitted + [frame])
      else s.(active := e.(pending := e.pending[1..]), submitted := s.submitted + [frame],
              log := s.log + Leaving(e.pending[..1], false))
  }

  /** One atomic step of a switcher against the pool: the free slots and the switcher afterwards. */
  function Step(free: nat, s: Switcher, a: Action): (nat, Switcher)
    requires Enabled(s, a)
  {
    match a
    case Open(config, mode) => if free == 0 then (free, s) else (free - 1, Opening(config, mode))
    case Construct(ok) =>
      if ok then (free, Live(Fresh(0), s.config, s.mode, Idle, [], [])) else (free + 1, Vacant)
    case Close => (free + 1, Vacant)
    case Encode(frame, natural, pace) => (free, Encoded(s, frame, natural, pace))
    case RequestKeyframe => (free, s.(active := s.active.(keyframe := true)))
    case RequestMode(mode) => (free, s.(mode := mode))
    case Begin(config, mode) => if free == 0 then (free, s) else (free - 1, s.(stage := Acquired(config, mode)))
    case Build(ok) =>
      if ok then (free, s.(stage := Built(Fresh(s.active.id + 1), s.stage.config, s.stage.mode)))
      else (free + 1, s.(stage := Idle))
    case Prime => (free, s.(stage := Primed(s.stage.next.(keyframe := true), s.stage.config, s.stage.mode)))
    case Swap =>
      (free, s.(active := s.stage.next, config := s.stage.config, mode := s.stage.mode, stage := Draining(s.active)))
    case Flush(ok) => (free, s.(stage := Drained, log := s.log + Leaving(s.stage.retiring.pending, !ok)))
    case Release => (free + 1, s.(stage := Idle))
  }

  // ---- Frames ----

  function Left(log: seq<Exit>): seq<Packet> {
    seq(|log|, i requires 0 <= i < |log| => log[i].packet)
  }

  function InRetiring(stage: Stage): seq<Packet> {
    if stage.Draining? then stage.retiring.pending else []
  }

  /** Every packet of a switcher in the order of its frames: gone, in the encoder being drained, in the active one. */
  function Packets(s: Switcher): seq<Packet>
    requires s.Live?
  {
    Left(s.log) + InRetiring(s.stage) + s.active.pending
  }

  function Frames(packets: seq<Packet>): seq<nat> {
    seq(|packets|, i requires 0 <= i < |packets| => packets[i].frame)
  }

  function FramesDelivered(log: seq<Exit>): seq<nat> {
    if log == [] then []
    else
      var last := log[|log| - 1];
      FramesDelivered(log[..|log| - 1]) + if last.lost then [] else [last.packet.frame]
  }

  /** Packet `k` comes from the encoder of the one before it or a later one, and then, if switched to, is an IDR. */
  ghost predicate Follows(packets: seq<Packet>, k: nat)
    requires k < |packets|
  {
    if k == 0 then packets[0].encoder > 0 ==> packets[0].idr
    else
      var before, p := packets[k - 1], packets[k];
      before.encoder == p.encoder || (before.encoder < p.encoder && p.idr)
  }

  /** Encoders follow one another, and the first packet of each that was switched to is an IDR. */
  ghost predicate EachSwitchStartsWithIdr(packets: seq<Packet>) {
    forall k :: 0 <= k < |packets| ==> Follows(packets, k)
  }

  /** An encoder that was switched to and has had no frame yet still owes its IDR. */
  ghost predicate OwesIdr(packets: seq<Packet>, active: Encoder) {
    && (forall k :: 0 <= k < |packets| ==> packets[k].encoder <= active.id)
    && (active.id > 0 && (packets == [] || packets[|packets| - 1].encoder != active.id) ==> active.keyframe)
  }

  ghost predicate Staged(s: Switcher)
    requires s.Live?
  {
    match s.stage
    case Built(next, _, _) => next == Fresh(s.active.id + 1)
    case Primed(next, _, _) => next == Fresh(s.active.id + 1).(keyframe := true)
    case Draining(_) => s.active.pending == []
    case _ => true
  }

  ghost predicate Orderly(s: Switcher) {
    s.Live? ==>
      && Frames(Packets(s)) == s.submitted
      && EachSwitchStartsWithIdr(Packets(s)) && OwesIdr(Packets(s), s.active)
      && Staged(s)
  }

  lemma LeftAppend(log: seq<Exit>, packets: seq<Packet>, lost: bool)
    ensures Left(log + Leaving(packets, lost)) == Left(log) + packets
  {
  }

  lemma Reassociate(a: seq<Packet>, b: seq<Packet>, c: seq<Packet>, d: seq<Packet>)
    requires b + c == d
    ensures a + b + c == a + d
  {
  }

  lemma EncodeAppends(s: Switcher, frame: nat, natural: bool, pace: Pace)
    requires s.Live? && s.stage.Idle? && pace != Refuse
    ensures var s' := Encoded(s, frame, natural, pace);
            Packets(s') == Packets(s) + [Packet(frame, s.active.keyframe || natural, s.active.id)]
  {
    var pending := s.active.pending + [Packet(frame, s.active.keyframe || natural, s.active.id)];
    if pace == Emit {
      hide Left, Leaving;
      LeftAppend(s.log, pending[..1], false);
      Reassociate(Left(s.log), pending[..1], pending[1..], pending);
    }
  }

  lemma AppendKeepsOrder(packets: seq<Packet>, p: Packet, active: Encoder, frames: seq<nat>)
    requires Frames(packets) == frames && EachSwitchStartsWithIdr(packets) && OwesIdr(packets, active)
    requires p.encoder == active.id && (active.keyframe ==> p.idr)
    ensures Frames(packets + [p]) == frames + [p.frame]
    ensures EachSwitchStartsWithIdr(packets + [p])
    ensures OwesIdr(packets + [p], Encoder(active.id, [], false))
  {
    forall k | 0 <= k < |packets| + 1 ensures Follows(packets + [p], k) {
      if k < |packets| {
        assert Follows(packets, k);
      } else {
        NewestFollows(packets, p, active);
      }
    }
  }

  lemma NewestFollows(packets: seq<Packet>, p: Packet, active: Encoder)
    requires OwesIdr(packets, active) && p.encoder == active.id && (active.keyframe ==> p.idr)
    ensures Follows(packets + [p], |packets|)
  {
  }

  lemma OwesIgnoresPending(packets: seq<Packet>, e: Encoder, f: Encoder)
    requires OwesIdr(packets, e) && e.id == f.id && e.keyframe == f.keyframe
    ensures OwesIdr(packets, f)
  {
  }

  lemma EncodeKeepsOrder(s: Switcher, frame: nat, natural: bool, pace: Pace)
    requires s.Live? && s.stage.Idle? && Orderly(s)
    ensures Orderly(Encoded(s, frame, natural, pace))
  {
    hide EachSwitchStartsWithIdr, OwesIdr, Frames, Packets;
    if pace != Refuse {
      var p := Packet(frame, s.active.keyframe || natural, s.active.id);
      EncodeAppends(s, frame, natural, pace);
      AppendKeepsOrder(Packets(s), p, s.active, s.submitted);
      OwesIgnoresPending(Packets(s) + [p], Encoder(s.active.id, [], false), Encoded(s, frame, natural, pace).active);
    }
  }

  /** Between taking a frame in and letting one out, a switcher only moves packets from one place to the next. */
  lemma OtherStepsMovePackets(free: nat, s: Switcher, a: Action)
    requires s.Live? && Enabled(s, a) && Staged(s) && !a.Encode? && !a.Close?
    ensures var s' := Step(free, s, a).1;
            s'.Live? && Packets(s') == Packets(s) && s'.submitted == s.submitted && Staged(s')
  {
    if a.Flush? {
      LeftAppend(s.log, s.stage.retiring.pending, !a.ok);
    }
  }

  lemma StepKeepsOrder(free: nat, s: Switcher, a: Action)
    requires Enabled(s, a) && Orderly(s)
    ensures Orderly(Step(free, s, a).1)
  {
    if a.Encode? {
      hide Orderly, Encoded;
      EncodeKeepsOrder(s, a.frame, a.natural, a.pace);
    } else if s.Live? && !a.Close? {
      hide EachSwitchStartsWithIdr, Frames, Packets, Encoded;
      OtherStepsMovePackets(free, s, a);
    }
  }

  // ---- Any number of switchers on one pool ----

  datatype System = System(max: nat, free: nat, switchers: seq<Switcher>)

  /** Switcher `who` takes one step; steps of different switchers interleave freely. */
  datatype Move = Move(who: nat, action: Action)

  function Start(max: nat, n: nat): System {
    System(max, max, seq(n, i requires 0 <= i < n => Vacant))
  }

  predicate CanMove(y: System, m: Move) {
    m.who < |y.switchers| && Enabled(y.switchers[m.who], m.action)
  }

  function Moved(y: System, m: Move): System
    requires CanMove(y, m)
  {
    var (free, s) := Step(y.free, y.switchers[m.who], m.action);
    y.(free := free, switchers := y.switchers[m.who := s])
  }

  /** The moves form a run of the system from its start, ending in `y`. */
  ghost predicate Leads(max: nat, n: nat, moves: seq<Move>, y: System) {
    if moves == [] then y == Start(max, n)
    else
      var k := |moves| - 1;
      exists x :: Leads(max, n, moves[..k], x) && CanMove(x, moves[k]) && y == Moved(x, moves[k])
  }

  /** The session slots a switcher holds: two from acquiring the new slot until the old encoder is dropped. */
  function Held(s: Switcher): nat {
    match s
    case Vacant => 0
    case Opening(_, _) => 1
    case Live(_, _, _, stage, _, _) => if stage.Idle? then 1 else 2
  }

  function TotalHeld(switchers: seq<Switcher>): nat {
    if switchers == [] then 0 else TotalHeld(switchers[..|switchers| - 1]) + Held(switchers[|switchers| - 1])
  }

  lemma {:induction false} HeldAfterUpdate(switchers: seq<Switcher>, i: nat, s: Switcher)
    requires i < |switchers|
    ensures TotalHeld(switchers[i := s]) == TotalHeld(switchers) - Held(switchers[i]) + Held(s)
  {
    var k := |switchers| - 1;
    if i == k {
      assert switchers[i := s][..k] == switchers[..k];
    } else {
      assert switchers[i := s][..k] == switchers[..k][i := s];
      HeldAfterUpdate(switchers[..k], i, s);
    }
  }

  lemma {:induction false} VacantHoldsNothing(n: nat)
    ensures TotalHeld(Start(0, n).switchers) == 0
  {
    if n > 0 {
      VacantHoldsNothing(n - 1);
      assert Start(0, n).switchers[..n - 1] == Start(0, n - 1).switchers;
    }
  }

  ghost predicate Sound(y: System) {
    && y.free + TotalHeld(y.switchers) == y.max
    && forall i :: 0 <= i < |y.switchers| ==> Orderly(y.switchers[i])
  }

  lemma MoveKeepsSound(y: System, m: Move)
    requires Sound(y) && CanMove(y, m)
    ensures Sound(Moved(y, m))
  {
    hide Orderly, Encoded;
    var s := y.switchers[m.who];
    StepKeepsOrder(y.free, s, m.action);
    HeldAfterUpdate(y.switchers, m.who, Step(y.free, s, m.action).1);
    StepConservesSlots(y.free, s, m.action);
  }

  lemma StepConservesSlots(free: nat, s: Switcher, a: Action)
    requires Enabled(s, a)
    ensures var (free', s') := Step(free, s, a); free' + Held(s') == free + Held(s)
  {
  }

  /**
   * In every state any interleaving reaches, mid-switch included: free slots plus held slots are all the slots,
   * every frame a switcher accepted is in exactly one place and in order, and every encoder switched to opens
   * with an IDR.
   */
  lemma {:induction false} EveryRunIsSound(max: nat, n: nat, moves: seq<Move>, y: System)
    requires Leads(max, n, moves, y)
    ensures y.max == max && |y.switchers| == n && Sound(y)
  {
    if moves == [] {
      VacantHoldsNothing(n);
      assert y.switchers == Start(0, n).switchers;
    } else {
      hide Sound;
      var k := |moves| - 1;
      var x :| Leads(max, n, moves[..k], x) && CanMove(x, moves[k]) && y == Moved(x, moves[k]);
      EveryRunIsSound(max, n, moves[..k], x);
      MoveKeepsSound(x, moves[k]);
    }
  }

  lemma {:induction false} NothingLostAllDelivered(log: seq<Exit>)
    requires forall i :: 0 <= i < |log| ==> !log[i].lost
    ensures FramesDelivered(log) == Frames(Left(log))
  {
    if log != [] {
      var k := |log| - 1;
      NothingLostAllDelivered(log[..k]);
      assert Frames(Left(log)) == Frames(Left(log[..k])) + [log[k].packet.frame];
    }
  }

  /** With no failed flush and nothing left inside, the frames delivered are those submitted, once each, in order. */
  lemma EveryFrameOnceInOrder(max: nat, n: nat, moves: seq<Move>, y: System, i: nat)
    requires Leads(max, n, moves, y) && i < |y.switchers|
    requires var s := y.switchers[i];
             s.Live? && s.stage.Idle? && s.active.pending == []
             && forall j :: 0 <= j < |s.log| ==> !s.log[j].lost
    ensures FramesDelivered(y.switchers[i].log) == y.switchers[i].submitted
  {
    EveryRunIsSound(max, n, moves, y);
    var s := y.switchers[i];
    NothingLostAllDelivered(s.log);
    assert Packets(s) == Left(s.log);
    assert Orderly(s);
  }

  function CountLive(switchers: seq<Switcher>): nat {
    if switchers == [] then 0
    else CountLive(switchers[..|switchers| - 1]) + if switchers[|switchers| - 1].Live? then 1 else 0
  }

  /** No switcher is in the middle of opening or switching. */
  ghost predicate AtRest(switchers: seq<Switcher>) {
    forall i :: 0 <= i < |switchers| ==>
      !switchers[i].Opening? && (switchers[i].Live? ==> switchers[i].stage.Idle?)
  }

  lemma {:induction false} QuietHoldsOneEach(switchers: seq<Switcher>)
    requires AtRest(switchers)
    ensures TotalHeld(switchers) == CountLive(switchers)
  {
    if switchers != [] {
      QuietHoldsOneEach(switchers[..|switchers| - 1]);
    }
  }

  /** With every switcher at rest, a switch can begin exactly when fewer encoders run than there are slots. */
  lemma SwitchNeedsASpareSlot(max: nat, n: nat, moves: seq<Move>, y: System, m: Move)
    requires Leads(max, n, moves, y) && CanMove(y, m) && m.action.Begin?
    requires AtRest(y.switchers)
    ensures Moved(y, m).switchers[m.who].stage.Acquired? <==> CountLive(y.switchers) < max
    ensures CountLive(y.switchers) == max ==> Moved(y, m) == y
  {
    hide Orderly, Encoded;
    EveryRunIsSound(max, n, moves, y);
    QuietHoldsOneEach(y.switchers);
    assert y.switchers[m.who := y.switchers[m.who]] == y.switchers;
  }

  // ---- The switcher itself ----

  datatype SwitchError = NoSessionAvailable(limit: nat, active: nat) | FactoryError

  datatype Outcome = Switched(tail: seq<Packet>, flushFailed: bool) | Failed(error: SwitchError)

  /** One whole switch, run without interruption as the six steps of the model above. */
  function Attempt(
      free: nat, s: Switcher, config: EncoderConfig, mode: Mode, built: bool, flushed: bool): (nat, Switcher)
    requires s.Live? && s.stage.Idle?
  {
    var (f1, s1) := Step(free, s, Begin(config, mode));
    if s1.stage.Idle? then (f1, s1)
    else
      var (f2, s2) := Step(f1, s1, Build(built));
      if s2.stage.Idle? then (f2, s2)
      else
        var (f3, s3) := Step(f2, s2, Prime);
        var (f4, s4) := Step(f3, s3, Swap);
        var (f5, s5) := Step(f4, s4, Flush(flushed));
        Step(f5, s5, Release)
  }

  /** A switch either leaves everything as it was or completes; either way it holds as many slots as before. */
  lemma SwitchIsAllOrNothing(
      free: nat, s: Switcher, config: EncoderConfig, mode: Mode, built: bool, flushed: bool)
    requires s.Live? && s.stage.Idle?
    ensures Attempt(free, s, config, mode, built, flushed) ==
            if free == 0 || !built then (free, s)
            else
              (free, s.(active := Encoder(s.active.id + 1, [], true), config := config, mode := mode,
                        log := s.log + Leaving(s.active.pending, !flushed)))
  {
    hide Encoded;
  }

  class SessionLimiter {
    const maxSessions: nat
    var available: nat

    constructor (maxSessions: nat)
      ensures this.maxSessions == maxSessions && available == maxSessions
    {
      this.maxSessions, available := maxSessions, maxSessions;
    }

    method TryAcquire() returns (granted: bool)
      modifies this
      ensures granted == (old(available) > 0)
      ensures available == old(available) - if granted then 1 else 0
    {
      granted := available > 0;
      if granted {
        available := available - 1;
      }
    }

    method Drop()
      modifies this
      ensures available == old(available) + 1
    {
      available := available + 1;
    }

    function ActiveSessions(): nat
      reads this
    {
      if maxSessions >= available then maxSessions - available else 0
    }
  }

  class DoubleBufferedEncoder {
    const limiter: SessionLimiter
    var active: Encoder
    var config: EncoderConfig
    var mode: Mode
    ghost var submitted: seq<nat>
    ghost var log: seq<Exit>

    ghost function View(): Switcher
      reads this
    {
      Live(active, config, mode, Idle, submitted, log)
    }

    /** The caller hands over the slot it acquired; see NewEncoder. */
    constructor (limiter: SessionLimiter, config: EncoderConfig, mode: Mode)
      ensures this.limiter == limiter
      ensures View() == Live(Fresh(0), config, mode, Idle, [], [])
    {
      this.limiter, this.config, this.mode := limiter, config, mode;
      active, submitted, log := Fresh(0), [], [];
    }

    /** `pace` and `natural` are the encoder's own choices. */
    method Encode(frame: nat, natural: bool, pace: Pace) returns (packet: Option<Packet>)
      modifies this
      ensures View() == Step(limiter.available, old(View()), Action.Encode(frame, natural, pace)).1
      ensures packet.Some? <==> pace == Emit
      ensures packet.Some? ==> log == old(log) + [Exit(packet.value, false)]
    {
      packet := None;
      if pace != Refuse {
        submitted := submitted + [frame];
        active := Submitted(active, frame, natural);
        if pace == Emit {
          packet := Some(active.pending[0]);
          log := log + [Exit(active.pending[0], false)];
          active := active.(pending := active.pending[1..]);
        }
      }
    }

    method RequestMode(mode: Mode)
      modifies this`mode
      ensures this.mode == mode
    {
      this.mode := mode;
    }

    /** `built` and `flushed` say whether the factory and the old encoder's flush succeed. */
    method SwitchTo(config: EncoderConfig, mode: Mode, built: bool, flushed: bool) returns (r: Outcome)
      requires limiter.available <= limiter.maxSessions
      modifies this, limiter
      ensures (limiter.available, View()) == Attempt(old(limiter.available), old(View()), config, mode, built, flushed)
      ensures limiter.available == old(limiter.available)
      ensures r.Switched? <==> old(limiter.available) > 0 && built
      ensures r.Failed? ==> View() == old(View())
      ensures r.Failed? ==>
                r.error == if old(limiter.available) > 0 then FactoryError
                           else NoSessionAvailable(limiter.maxSessions, limiter.maxSessions)
      ensures r.Switched? ==>
                && r == Switched(if flushed then old(active).pending else [], !flushed)
                && active == Fresh(old(active).id + 1).(keyframe := true) && this.config == config && this.mode == mode
                && submitted == old(submitted) && log == old(log) + Leaving(old(active).pending, !flushed)
    {
      hide Attempt;
      SwitchIsAllOrNothing(limiter.available, View(), config, mode, built, flushed);
      var granted := limiter.TryAcquire();
      if !granted {
        return Failed(NoSessionAvailable(limiter.maxSessions, limiter.ActiveSessions()));
      }
      if !built {
        limiter.Drop();
        return Failed(FactoryError);
      }
      var next := Fresh(active.id + 1);
      next := next.(keyframe := true);
      var retiring := active;
      active := next;
      this.config, this.mode := config, mode;
      log := log + Leaving(retiring.pending, !flushed);
      r := Switched(if flushed then retiring.pending else [], !flushed);
      limiter.Drop();
    }
  }

  /** Opens a switcher: a slot is taken exactly when an encoder comes back, and given back if the factory fails. */
  method NewEncoder(limiter: SessionLimiter, config: EncoderConfig, mode: Mode, built: bool)
    returns (e: DoubleBufferedEncoder?, error: Option<SwitchError>)
    requires limiter.available <= limiter.maxSessions
    modifies limiter
    ensures e != null <==> old(limiter.available) > 0 && built
    ensures e != null <==> error.None?
    ensures e != null ==>
              && fresh(e) && e.limiter == limiter && limiter.available == old(limiter.available) - 1
              && e.View() == Live(Fresh(0), config, mode, Idle, [], [])
    ensures e == null ==> limiter.available == old(limiter.available)
    ensures old(limiter.available) == 0 ==> error == Some(NoSessionAvailable(limiter.maxSessions, limiter.maxSessions))
    ensures old(limiter.available) > 0 && !built ==> error == Some(FactoryError)
  {
    e, error := null, None;
    var granted := limiter.TryAcquire();
    if !granted {
      error := Some(NoSessionAvailable(limiter.maxSessions, limiter.ActiveSessions()));
      return;
    }
    if !built {
      limiter.Drop();
      error := Some(FactoryError);
      return;
    }
    e := new DoubleBufferedEncoder(limiter, config, mode);
  }
}
