/**
 * The mouse-button half of the X11 injector. It gets whole button masks and sends the display server one
 * press or release for each button that changed.
 */
module ButtonInjector {
  import opened InputAdmission

  /** The defined buttons, in the order the injector visits them. */
  datatype MouseButton = Left | Middle | Right

  const BUTTONS: seq<MouseButton> := [Left, Middle, Right]

  function MaskOf(b: MouseButton): bv8 {
    match b case Left => 0x01 case Middle => 0x02 case Right => 0x04
  }

  predicate Pressed(mask: bv8, b: MouseButton) { mask & MaskOf(b) != 0 }

  function ButtonsOf(mask: bv8): set<MouseButton> { set b: MouseButton | Pressed(mask, b) }

  lemma ChangedBit(curr: bv8, prev: bv8, b: MouseButton)
    ensures (curr ^ prev) & MaskOf(b) == 0 <==> (Pressed(curr, b) <==> Pressed(prev, b))
  {
  }

  lemma HeldIsPressed(mask: bv8, b: MouseButton)
    ensures Pressed(Held(mask), b) <==> Pressed(mask, b)
  {
  }

  lemma HeldButtons(mask: bv8)
    ensures ButtonsOf(Held(mask)) == ButtonsOf(mask)
  {
    forall b: MouseButton ensures Pressed(Held(mask), b) <==> Pressed(mask, b) { HeldIsPressed(mask, b); }
  }

  lemma NoneDefined(mask: bv8)
    ensures mask & DEFINED_BUTTON_BITS == 0 <==> ButtonsOf(mask) == {}
  {
    assert mask & DEFINED_BUTTON_BITS == 0
           <==> !Pressed(mask, Left) && !Pressed(mask, Middle) && !Pressed(mask, Right);
    assert ButtonsOf(mask) == {}
           <==> Left !in ButtonsOf(mask) && Middle !in ButtonsOf(mask) && Right !in ButtonsOf(mask);
  }

  /** The lowest bit is the left button, then the middle and the right one; the others are none. */
  lemma ButtonBits(mask: bv8)
    ensures Left in ButtonsOf(mask) <==> mask & 1 == 1
    ensures Middle in ButtonsOf(mask) <==> mask & 2 == 2
    ensures Right in ButtonsOf(mask) <==> mask & 4 == 4
  {
  }

  // ---- The display server ----

  datatype ServerEvent = ServerEvent(button: MouseButton, press: bool)

  /** The buttons the display server sees down after a series of events. */
  function Down(events: seq<ServerEvent>): set<MouseButton> {
    if events == [] then {}
    else
      var before, e := Down(events[..|events| - 1]), events[|events| - 1];
      if e.press then before + {e.button} else before - {e.button}
  }

  /** No button is pressed while down or released while up. */
  ghost predicate Alternates(events: seq<ServerEvent>) {
    forall i :: 0 <= i < |events| ==> (events[i].press <==> events[i].button !in Down(events[..i]))
  }

  function Occurrences(events: seq<ServerEvent>, e: ServerEvent): nat {
    if events == [] then 0
    else Occurrences(events[..|events| - 1], e) + if events[|events| - 1] == e then 1 else 0
  }

  /** Presses and releases of each button balance, up to the one press of a button still down. */
  lemma {:induction false} Balance(events: seq<ServerEvent>, b: MouseButton)
    requires Alternates(events)
    ensures Occurrences(events, ServerEvent(b, true))
            == Occurrences(events, ServerEvent(b, false)) + if b in Down(events) then 1 else 0
  {
    if events != [] {
      var before := events[..|events| - 1];
      assert forall i :: 0 <= i < |before| ==> before[..i] == events[..i];
      Balance(before, b);
    }
  }

  lemma SendOne(events: seq<ServerEvent>, e: ServerEvent)
    requires Alternates(events) && (e.press <==> e.button !in Down(events))
    ensures Alternates(events + [e])
    ensures Down(events + [e]) == if e.press then Down(events) + {e.button} else Down(events) - {e.button}
  {
    assert (events + [e])[..|events|] == events;
    assert forall i :: 0 <= i < |events| ==> (events + [e])[..i] == events[..i];
  }

  // ---- The injector ----

  /** What reaches the injector from its queue, in order, and the release at the end. */
  datatype Call = Inject(event: InputEvent) | ReleaseAll

  datatype Injector = Injector(prevButtonMask: bv8, sent: seq<ServerEvent>)

  /** The events that take the first `n` buttons from one mask to another. */
  function Changes(prev: bv8, curr: bv8, n: nat): seq<ServerEvent>
    requires n <= |BUTTONS|
  {
    if n == 0 then []
    else
      var b := BUTTONS[n - 1];
      Changes(prev, curr, n - 1)
      + if Pressed(curr, b) == Pressed(prev, b) then [] else [ServerEvent(b, Pressed(curr, b))]
  }

  function Called(i: Injector, call: Call): Injector {
    match call
    case Inject(e) =>
      if e.eventType == Button then
        Injector(e.buttonMask, i.sent + Changes(i.prevButtonMask, e.buttonMask, |BUTTONS|))
      else i
    case ReleaseAll =>
      if ButtonsOf(i.prevButtonMask) == {} then i
      else Injector(0, i.sent + Changes(i.prevButtonMask, 0, |BUTTONS|))
  }

  class XTestInjector {
    var prevButtonMask: bv8
    var sent: seq<ServerEvent>

    ghost function State(): Injector
      reads this
    {
      Injector(prevButtonMask, sent)
    }

    constructor ()
      ensures State() == Injector(0, [])
    {
      prevButtonMask, sent := 0, [];
    }

    method Inject(event: InputEvent)
      modifies this
      ensures State() == Called(old(State()), Call.Inject(event))
    {
      if event.eventType == Button {
        var curr, prev := event.buttonMask, prevButtonMask;
        var changed := curr ^ prev;
        ghost var before := sent;
        prevButtonMask := curr;
        for n := 0 to |BUTTONS|
          invariant prevButtonMask == curr && sent == before + Changes(prev, curr, n)
        {
          hide MaskOf;
          var b := BUTTONS[n];
          ChangedBit(curr, prev, b);
          if changed & MaskOf(b) != 0 {
            var pressed := curr & MaskOf(b) != 0;
            sent := sent + [ServerEvent(b, pressed)];
          }
        }
      }
    }

    method ReleaseAll()
      modifies this
      ensures State() == Called(old(State()), Call.ReleaseAll)
    {
      var held := prevButtonMask;
      NoneDefined(held);
      if held & DEFINED_BUTTON_BITS == 0 {
        return;
      }
      ghost var before := sent;
      prevButtonMask := 0;
      for n := 0 to |BUTTONS|
        invariant prevButtonMask == 0 && sent == before + Changes(held, 0, n)
      {
        var b := BUTTONS[n];
        NothingPressed(b);
        if held & MaskOf(b) != 0 {
          sent := sent + [ServerEvent(b, false)];
        }
      }
    }
  }

  lemma NothingPressed(b: MouseButton)
    ensures !Pressed(0, b)
  {
  }

  // ---- Runs ----

  function RunCalls(calls: seq<Call>): Injector {
    if calls == [] then Injector(0, []) else Called(RunCalls(calls[..|calls| - 1]), calls[|calls| - 1])
  }

  /** The server sees down exactly the buttons of the mask the injector remembers. */
  ghost predicate InStep(i: Injector) {
    Alternates(i.sent) && Down(i.sent) == ButtonsOf(i.prevButtonMask)
  }

  /** Where a button comes in the injector's visit. */
  function Place(b: MouseButton): (k: nat)
    ensures k < |BUTTONS| && BUTTONS[k] == b
  {
    match b case Left => 0 case Middle => 1 case Right => 2
  }

  /** After the changes of the first `n` buttons, those are as in the new mask and the others as in the old. */
  ghost predicate Partway(events: seq<ServerEvent>, prev: bv8, curr: bv8, n: nat) {
    Alternates(events)
    && forall b: MouseButton :: b in Down(events) <==> Pressed(if Place(b) < n then curr else prev, b)
  }

  lemma OneChange(events: seq<ServerEvent>, prev: bv8, curr: bv8, n: nat)
    requires n < |BUTTONS| && Partway(events, prev, curr, n)
    ensures var b := BUTTONS[n];
            Partway(events + (if Pressed(curr, b) == Pressed(prev, b) then [] else [ServerEvent(b, Pressed(curr, b))]),
                    prev, curr, n + 1)
  {
    hide Pressed, Alternates, Down;
    var b := BUTTONS[n];
    assert Place(b) == n && forall c: MouseButton :: Place(c) == n ==> c == b;
    if Pressed(curr, b) == Pressed(prev, b) {
      assert events + [] == events;
    } else {
      SendOne(events, ServerEvent(b, Pressed(curr, b)));
    }
  }

  lemma {:induction false} ChangesApply(sent: seq<ServerEvent>, prev: bv8, curr: bv8, n: nat)
    requires Alternates(sent) && Down(sent) == ButtonsOf(prev) && n <= |BUTTONS|
    ensures Partway(sent + Changes(prev, curr, n), prev, curr, n)
  {
    hide Pressed, Alternates, Down;
    if n == 0 {
      assert sent + [] == sent;
    } else {
      hide Partway;
      ChangesApply(sent, prev, curr, n - 1);
      var before, b := sent + Changes(prev, curr, n - 1), BUTTONS[n - 1];
      OneChange(before, prev, curr, n - 1);
      var change := if Pressed(curr, b) == Pressed(prev, b) then [] else [ServerEvent(b, Pressed(curr, b))];
      assert sent + Changes(prev, curr, n) == before + change;
    }
  }

  lemma ChangesReach(sent: seq<ServerEvent>, prev: bv8, curr: bv8)
    requires Alternates(sent) && Down(sent) == ButtonsOf(prev)
    ensures InStep(Injector(curr, sent + Changes(prev, curr, |BUTTONS|)))
  {
    hide Changes, Pressed, Alternates, Down;
    var sent' := sent + Changes(prev, curr, |BUTTONS|);
    ChangesApply(sent, prev, curr, |BUTTONS|);
    assert forall b: MouseButton :: Place(b) < |BUTTONS|;
  }

  /** Whatever is injected, the server's buttons follow the masks, and no event is out of turn. */
  lemma {:induction false} ServerFollows(calls: seq<Call>)
    ensures InStep(RunCalls(calls))
  {
    hide Changes, Alternates, ButtonsOf;
    if calls == [] {
      NothingDown();
    } else {
      ServerFollows(calls[..|calls| - 1]);
      var i, call := RunCalls(calls[..|calls| - 1]), calls[|calls| - 1];
      ChangesReach(i.sent, i.prevButtonMask, if call.Inject? then call.event.buttonMask else 0);
    }
  }

  lemma NothingDown()
    ensures InStep(Injector(0, []))
  {
    forall b: MouseButton ensures !Pressed(0, b) { NothingPressed(b); }
  }

  /** A release leaves nothing down and every press of the session matched by a release. */
  lemma ReleaseAllBalances(calls: seq<Call>, b: MouseButton)
    ensures var sent := RunCalls(calls + [ReleaseAll]).sent;
            Down(sent) == {} && Occurrences(sent, ServerEvent(b, true)) == Occurrences(sent, ServerEvent(b, false))
  {
    hide Changes, Alternates, Occurrences;
    var all := calls + [ReleaseAll];
    assert all[..|calls|] == calls;
    ServerFollows(all);
    Balance(RunCalls(all).sent, b);
    NothingDown();
  }

  function Injections(events: seq<InputEvent>): (calls: seq<Call>)
    ensures |calls| == |events| && forall i :: 0 <= i < |events| ==> calls[i] == Inject(events[i])
  {
    seq(|events|, i requires 0 <= i < |events| => Inject(events[i]))
  }

  /** The buttons down after a series of events are those the admission guard's mirror is defined by. */
  lemma {:induction false} ServerHoldsTheMirror(events: seq<InputEvent>)
    ensures Down(RunCalls(Injections(events)).sent) == ButtonsOf(HeldAfter(events))
  {
    hide Changes, Alternates, Down;
    ServerFollows(Injections(events));
    LastMask(events);
  }

  lemma {:induction false} LastMask(events: seq<InputEvent>)
    ensures ButtonsOf(RunCalls(Injections(events)).prevButtonMask) == ButtonsOf(HeldAfter(events))
  {
    hide Changes, ButtonsOf, Held;
    if events != [] {
      var front, e := events[..|events| - 1], events[|events| - 1];
      LastMask(front);
      assert Injections(events)[..|events| - 1] == Injections(front);
      HeldButtons(e.buttonMask);
    }
  }
}
