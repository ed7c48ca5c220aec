/**
  The device handle of koboin/koboin.go:40-184: `New` keeps the view size,
  `getEvPacket` assembles one packet and `GetInput` runs the decode loop.
  The open device node is a finite sequence of read outcomes with a cursor.
 */
module Koboin {
  import opened Wrappers
  import opened Wire
  import opened TouchState
  import opened Packets
  import opened Retry

  class TouchDevice {
    /** What successive reads of the device node deliver. */
    const stream: seq<ReadOutcome>
    /** How many reads have been made so far. */
    var cursor: nat
    const viewWidth: int
    /** Stored but never used by the decoder. */
    const viewHeight: int

    ghost predicate Valid()
      reads this
    {
      cursor <= |stream|
    }

    /** `New`, once the device node is open: the view size is stored, nothing is read yet. */
    constructor New(device: seq<ReadOutcome>, vWidth: int, vHeight: int)
      ensures Valid()
      ensures stream == device && cursor == 0
      ensures viewWidth == vWidth && viewHeight == vHeight
    {
      stream := device;
      cursor := 0;
      viewWidth := vWidth;
      viewHeight := vHeight;
    }

    /** `binary.Read` of one record. */
    method ReadEvent() returns (r: Option<InputEvent>)
      requires Valid() && cursor < |stream|
      modifies this
      ensures Valid() && cursor == old(cursor) + 1
      ensures r == ReadOf(stream[old(cursor)])
    {
      r := ReadOf(stream[cursor]);
      cursor := cursor + 1;
    }

    /** `getEvPacket`: read until a whole packet, a bad packet or a read error. */
    method GetEvPacket() returns (packet: seq<InputEvent>, status: Status)
      requires Valid()
      modifies this
      ensures Valid()
      ensures Fetch(packet, status, cursor) == NextPacket(Reads(stream), old(cursor))
    {
      packet := [];
      var badPacket := false;
      while cursor < |stream|
        invariant Valid() && old(cursor) <= cursor
        invariant badPacket ==> packet == []
        invariant Assemble(Reads(stream), cursor, packet, badPacket) == NextPacket(Reads(stream), old(cursor))
        decreases |stream| - cursor
      {
        var r := ReadEvent();
        if r.None? {
          status := ReadFailed;
          return;
        }
        var e := r.value;
        if IsSynDropped(e) {
          badPacket := true;
          packet := [];
          continue;
        }
        if badPacket && IsSynReport(e) {
          status := BadPacket;
          return;
        }
        if !badPacket {
          packet := packet + [e];
          if IsSynReport(e) {
            status := Assembled;
            return;
          }
        }
      }
      status := StreamEnd;
    }

    /** The decode loop over one packet's events (`for _, e := range evPacket`). */
    static method DecodeEvents(t: Touch, evPacket: seq<InputEvent>) returns (r: Touch)
      ensures r == DecodePacket(t, evPacket)
    {
      var x, y, touchPressed, touchReleased := t.x, t.y, t.pressed, t.released;
      for i := 0 to |evPacket|
        invariant Touch(x, y, touchPressed, touchReleased) == DecodePacket(t, evPacket[..i])
      {
        assert evPacket[..i + 1][..i] == evPacket[..i];
        var e := evPacket[i];
        if e.evType == EvKey {
          if e.evCode == BtnTouch {
            if e.evValue == 1 {
              touchPressed := true;
            } else {
              touchReleased := true;
            }
          }
        } else if e.evType == EvAbs {
          if e.evCode == AbsX {
            x := e.evValue;
          } else if e.evCode == AbsY {
            y := e.evValue;
          } else if e.evCode == AbsMtPositionX {
            x := e.evValue;
          } else if e.evCode == AbsMtPositionY {
            y := e.evValue;
          } else if e.evCode == AbsMtPressure {
            if e.evValue > 0 {
              touchPressed := true;
            } else {
              touchReleased := true;
            }
          } else if e.evCode == AbsMtTouchWidthMajor {
            if e.evValue > 0 {
              touchPressed := true;
            } else {
              touchReleased := true;
            }
          }
        }
      }
      assert evPacket[..|evPacket|] == evPacket;
      r := Touch(x, y, touchPressed, touchReleased);
    }

    /**
      `GetInput`: gather packets until the touch is complete or a retry budget
      runs out, then rotate into screen coordinates.
     */
    method GetInput() returns (rx: int, ry: int, err: InputError)
      requires Valid()
      modifies this
      ensures Valid()
      ensures InputResult(rx, ry, err) == GetInputSpec(Reads(stream), old(cursor), viewWidth).result
      ensures cursor == GetInputSpec(Reads(stream), old(cursor), viewWidth).cursor
    {
      var x, y := -1, -1;
      var touchPressed, touchReleased := false, false;
      var getEvAttempts: nat, decodeEvAttempts: nat := 0, 0;
      ghost var spec := GetInputSpec(Reads(stream), cursor, viewWidth);
      while true
        invariant Valid()
        invariant var v := Run(Reads(stream), cursor,
                               Control(Touch(x, y, touchPressed, touchReleased), getEvAttempts, decodeEvAttempts),
                               viewWidth);
                  v.result == spec.result && v.cursor == spec.cursor
        decreases |stream| - cursor
      {
        ghost var c := Control(Touch(x, y, touchPressed, touchReleased), getEvAttempts, decodeEvAttempts);
        RunStep(Reads(stream), cursor, c, viewWidth);
        var evPacket, status := GetEvPacket();
        if status == StreamEnd {
          return x, y, StreamEnded;
        }
        if status != Assembled {
          getEvAttempts := getEvAttempts + 1;
          continue;
        }
        if getEvAttempts > 4 {
          return x, y, TouchReadFailed;
        }
        getEvAttempts := 0;
        var t := DecodeEvents(Touch(x, y, touchPressed, touchReleased), evPacket);
        x, y, touchPressed, touchReleased := t.x, t.y, t.pressed, t.released;
        if x >= 0 && y >= 0 && touchPressed && touchReleased {
          ry := x;
          rx := viewWidth - y + 1;
          return rx, ry, NoError;
        }
        if decodeEvAttempts < 5 {
          decodeEvAttempts := decodeEvAttempts + 1;
        } else {
          return -1, -1, IncompleteTouchCycle;
        }
      }
    }
  }
}
