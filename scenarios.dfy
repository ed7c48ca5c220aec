/**
  Whole-stream examples of the decoder: a two-packet touch cycle with
  single-touch fields, the same with multi-touch fields, an overrun that is
  skipped, and the coordinate rotation on concrete numbers.
 */
module Scenarios {
  import opened Wrappers
  import opened Wire
  import opened TouchState
  import opened Packets
  import opened Retry

  /** An event as the kernel sends it, timestamps zero. */
  function Ev(evType: u16, evCode: u16, evValue: i32): InputEvent {
    InputEvent(0, 0, evType, evCode, evValue)
  }

  /** The device delivering that event's record in one read. */
  function Delivered(e: InputEvent): (o: ReadOutcome)
    ensures ReadOf(o) == Some(e)
  {
    DecodeEncode(e);
    Chunk(EncodeEvent(e))
  }

  const Report: InputEvent := Ev(EvSyn, SynReport, 0)

  /** `ry = 100`, `rx = 1080 - 50 + 1`. */
  lemma RotateExample()
    ensures Rotate(100, 50, 1080) == (1031, 100)
  {
  }

  /**
    `ABS_X` shares code 0 with `SYN_REPORT`; only the type tells them apart,
    so an `ABS_X` record does not end the packet: followed by `SYN_REPORT` it
    is assembled into one two-event packet that sets `x`.
   */
  lemma AbsXIsNotATerminator(v: i32)
    ensures var s := [Some(Ev(EvAbs, AbsX, v)), Some(Report)];
      NextPacket(s, 0) == Fetch([Ev(EvAbs, AbsX, v), Report], Assembled, 2)
    ensures DecodePacket(Unknown, [Ev(EvAbs, AbsX, v), Report]).x == v
  {
    var s := [Some(Ev(EvAbs, AbsX, v)), Some(Report)];
    assert !DropAt(s, 0) && !ReportAt(s, 0) && ReportAt(s, 1) && !DropAt(s, 1);
    assert !HasDrop(s, 0, 2);
    PacketAssembledIff(s, 0, 2);
    assert Decoded(s, 0, 2) == [Ev(EvAbs, AbsX, v), Report];
    assert [Ev(EvAbs, AbsX, v), Report][..1] == [Ev(EvAbs, AbsX, v)];
  }

  /** A `SYN_DROPPED` followed at once by `SYN_REPORT`: one bad packet, both records consumed. */
  lemma DroppedThenReport()
    ensures var s := [Some(Ev(EvSyn, SynDropped, 0)), Some(Report)];
      NextPacket(s, 0) == Fetch([], BadPacket, 2)
  {
    var s := [Some(Ev(EvSyn, SynDropped, 0)), Some(Report)];
    assert DropAt(s, 0) && ReportAt(s, 1);
    PacketBadIff(s, 0, 2);
  }

  /** A device whose successive reads deliver exactly the records of `es`. */
  predicate Delivers(s: seq<Option<InputEvent>>, es: seq<InputEvent>) {
    |s| == |es| && forall k :: 0 <= k < |s| ==> s[k] == Some(es[k])
  }

  /** Such a device exists for every event sequence: the kernel's own encoding of it. */
  lemma DeliversEncoded(es: seq<InputEvent>)
    ensures Delivers(Reads(seq(|es|, k requires 0 <= k < |es| => Delivered(es[k]))), es)
  {
  }

  /** A packet as `getEvPacket` can return it: one `SYN_REPORT`, at the end, and no `SYN_DROPPED`. */
  predicate Clean(p: seq<InputEvent>) {
    && |p| > 0 && IsSynReport(p[|p| - 1])
    && forall k :: 0 <= k < |p| - 1 ==> !IsSynReport(p[k]) && !IsSynDropped(p[k])
  }

  /** A clean packet delivered from `i` to `j` comes back whole. */
  lemma CleanSample(s: seq<Option<InputEvent>>, es: seq<InputEvent>, i: nat, j: nat)
    requires Delivers(s, es)
    requires i < j <= |es| && Clean(es[i..j])
    ensures NextPacket(s, i) == Fetch(es[i..j], Assembled, j)
  {
    var p := es[i..j];
    assert p[|p| - 1] == es[j - 1];
    assert ReportAt(s, j - 1);
    forall k | i <= k < j
      ensures !FaultAt(s, k) && (k < j - 1 ==> !ReportAt(s, k)) && !DropAt(s, k)
    {
      assert p[k - i] == es[k];
    }
    PacketAssembledIff(s, i, j);
    assert Decoded(s, i, j) == p by {
      forall k | 0 <= k < |p|
        ensures Decoded(s, i, j)[k] == p[k]
      {
      }
    }
  }

  /** The first of two clean packets comes back first. */
  lemma FirstOfTwo(s: seq<Option<InputEvent>>, p: seq<InputEvent>, q: seq<InputEvent>)
    requires Delivers(s, p + q) && Clean(p)
    ensures NextPacket(s, 0) == Fetch(p, Assembled, |p|)
  {
    assert (p + q)[0..|p|] == p;
    CleanSample(s, p + q, 0, |p|);
  }

  /** The second comes back from where the first ended. */
  lemma SecondOfTwo(s: seq<Option<InputEvent>>, p: seq<InputEvent>, q: seq<InputEvent>)
    requires Delivers(s, p + q) && Clean(q)
    ensures NextPacket(s, |p|) == Fetch(q, Assembled, |s|)
  {
    assert (p + q)[|p|..|p + q|] == q;
    CleanSample(s, p + q, |p|, |p + q|);
  }

  /** A touch cycle split over two packets, completed by the second. */
  lemma TwoPacketCycle(s: seq<Option<InputEvent>>, p: seq<InputEvent>, q: seq<InputEvent>, viewWidth: int)
    requires Delivers(s, p + q) && Clean(p) && Clean(q)
    requires !Complete(DecodePacket(Unknown, p))
    requires Complete(DecodePacket(DecodePacket(Unknown, p), q))
    ensures var t := DecodePacket(DecodePacket(Unknown, p), q);
      GetInputSpec(s, 0, viewWidth).result == InputResult(viewWidth - t.y + 1, t.x, NoError)
  {
    FirstOfTwo(s, p, q);
    SecondOfTwo(s, p, q);
    RunStep(s, 0, Start, viewWidth);
    RunStep(s, |p|, Control(DecodePacket(Unknown, p), 0, 1), viewWidth);
  }

  /**
    Touch down with `ABS_X=200, ABS_Y=300, BTN_TOUCH=1`, then lift with
    `BTN_TOUCH=0`: the second packet completes the cycle and the call
    returns the rotated point of (200, 300).
   */
  lemma SingleTouchCycle(s: seq<Option<InputEvent>>, viewWidth: int)
    requires Delivers(s, [Ev(EvAbs, AbsX, 200), Ev(EvAbs, AbsY, 300), Ev(EvKey, BtnTouch, 1), Report,
                          Ev(EvKey, BtnTouch, 0), Report])
    ensures GetInputSpec(s, 0, viewWidth).result == InputResult(viewWidth - 300 + 1, 200, NoError)
  {
    var p := [Ev(EvAbs, AbsX, 200), Ev(EvAbs, AbsY, 300), Ev(EvKey, BtnTouch, 1), Report];
    var q := [Ev(EvKey, BtnTouch, 0), Report];
    var t := DecodePacket(Unknown, p);
    assert t == Touch(200, 300, true, false) by {
      DecodeLastX(Unknown, p, 0);
      DecodeLastY(Unknown, p, 1);
      DecodeFlags(Unknown, p);
      assert SignalsPress(p[2]);
    }
    assert DecodePacket(t, q) == Touch(200, 300, true, true) by {
      DecodeKeepsCoordinates(t, q);
      DecodeFlags(t, q);
      assert SignalsRelease(q[0]);
    }
    assert p + q == [p[0], p[1], p[2], p[3], q[0], q[1]];
    TwoPacketCycle(s, p, q, viewWidth);
  }

  /**
    The same cycle from a controller without `BTN_TOUCH`: multi-touch
    positions, contact by `ABS_MT_PRESSURE > 0`, lift by pressure 0.
   */
  lemma MultiTouchCycle(s: seq<Option<InputEvent>>, viewWidth: int)
    requires Delivers(s, [Ev(EvAbs, AbsMtPositionX, 200), Ev(EvAbs, AbsMtPositionY, 300),
                          Ev(EvAbs, AbsMtPressure, 40), Report, Ev(EvAbs, AbsMtPressure, 0), Report])
    ensures GetInputSpec(s, 0, viewWidth).result == InputResult(viewWidth - 300 + 1, 200, NoError)
  {
    var p := [Ev(EvAbs, AbsMtPositionX, 200), Ev(EvAbs, AbsMtPositionY, 300),
              Ev(EvAbs, AbsMtPressure, 40), Report];
    var q := [Ev(EvAbs, AbsMtPressure, 0), Report];
    var t := DecodePacket(Unknown, p);
    assert t == Touch(200, 300, true, false) by {
      DecodeLastX(Unknown, p, 0);
      DecodeLastY(Unknown, p, 1);
      DecodeFlags(Unknown, p);
      assert SignalsPress(p[2]);
    }
    assert DecodePacket(t, q) == Touch(200, 300, true, true) by {
      DecodeKeepsCoordinates(t, q);
      DecodeFlags(t, q);
      assert SignalsRelease(q[0]);
    }
    assert p + q == [p[0], p[1], p[2], p[3], q[0], q[1]];
    TwoPacketCycle(s, p, q, viewWidth);
  }
}
