/**
  The call-local touch observation of `GetInput` and how one event packet
  updates it (koboin/koboin.go:100-102, 119-161), plus the final coordinate
  rotation (koboin/koboin.go:181-182).
 */
module TouchState {
  import opened Wire

  /** `x`, `y`, `touchPressed`, `touchReleased`; -1 means "not seen yet". */
  datatype Touch = Touch(x: int, y: int, pressed: bool, released: bool)

  /** The observation every call of `GetInput` starts from. */
  const Unknown: Touch := Touch(-1, -1, false, false)

  /** Enough is known to report a touch. */
  predicate Complete(t: Touch) {
    t.x >= 0 && t.y >= 0 && t.pressed && t.released
  }

  /** Events that carry the horizontal device coordinate. */
  predicate SetsX(e: InputEvent) {
    e.evType == EvAbs && (e.evCode == AbsX || e.evCode == AbsMtPositionX)
  }

  /** Events that carry the vertical device coordinate. */
  predicate SetsY(e: InputEvent) {
    e.evType == EvAbs && (e.evCode == AbsY || e.evCode == AbsMtPositionY)
  }

  /** The two multi-touch codes some controllers use to signal contact. */
  predicate IsContactCode(e: InputEvent) {
    e.evType == EvAbs && (e.evCode == AbsMtPressure || e.evCode == AbsMtTouchWidthMajor)
  }

  /** Events that report a finger going down, under any controller's convention. */
  predicate SignalsPress(e: InputEvent) {
    (e.evType == EvKey && e.evCode == BtnTouch && e.evValue == 1) ||
    (IsContactCode(e) && e.evValue > 0)
  }

  /** Events that report a finger lifting, under any controller's convention. */
  predicate SignalsRelease(e: InputEvent) {
    (e.evType == EvKey && e.evCode == BtnTouch && e.evValue != 1) ||
    (IsContactCode(e) && e.evValue <= 0)
  }

  /**
    The per-event case analysis of the decode loop. The flags are only ever
    set, coordinates are overwritten, and every other type/code pair leaves
    the observation as it was.
   */
  function Step(t: Touch, e: InputEvent): (r: Touch)
    ensures r.x == (if SetsX(e) then e.evValue else t.x)
    ensures r.y == (if SetsY(e) then e.evValue else t.y)
    ensures r.pressed == (t.pressed || SignalsPress(e))
    ensures r.released == (t.released || SignalsRelease(e))
  {
    if e.evType == EvKey then
      if e.evCode == BtnTouch then
        if e.evValue == 1 then t.(pressed := true) else t.(released := true)
      else t
    else if e.evType == EvAbs then
      if e.evCode == AbsX then t.(x := e.evValue)
      else if e.evCode == AbsY then t.(y := e.evValue)
      else if e.evCode == AbsMtPositionX then t.(x := e.evValue)
      else if e.evCode == AbsMtPositionY then t.(y := e.evValue)
      else if e.evCode == AbsMtPressure then
        if e.evValue > 0 then t.(pressed := true) else t.(released := true)
      else if e.evCode == AbsMtTouchWidthMajor then
        if e.evValue > 0 then t.(pressed := true) else t.(released := true)
      else t
    else t
  }

  /** Folding one packet, event by event in packet order, into the observation. */
  function DecodePacket(t: Touch, p: seq<InputEvent>): (r: Touch)
    ensures t.pressed ==> r.pressed
    ensures t.released ==> r.released
  {
    if p == [] then t else Step(DecodePacket(t, p[..|p| - 1]), p[|p| - 1])
  }

  /** Folding several packets in the order they were read. */
  function DecodeAll(t: Touch, ps: seq<seq<InputEvent>>): Touch
    decreases ps
  {
    if ps == [] then t else DecodeAll(DecodePacket(t, ps[0]), ps[1..])
  }

  function Flatten(ps: seq<seq<InputEvent>>): seq<InputEvent>
  {
    if ps == [] then [] else ps[0] + Flatten(ps[1..])
  }

  /** Decoding two pieces one after the other is decoding them joined. */
  lemma {:induction false} DecodeConcat(t: Touch, p: seq<InputEvent>, q: seq<InputEvent>)
    ensures DecodePacket(t, p + q) == DecodePacket(DecodePacket(t, p), q)
  {
    if q == [] {
      assert p + q == p;
    } else {
      var q' := q[..|q| - 1];
      assert (p + q)[..|p + q| - 1] == p + q';
      DecodeConcat(t, p, q');
    }
  }

  /** Packet boundaries do not matter to the observation: it is one fold over all events. */
  lemma {:induction false} DecodeAllFlat(t: Touch, ps: seq<seq<InputEvent>>)
    ensures DecodeAll(t, ps) == DecodePacket(t, Flatten(ps))
    decreases ps
  {
    if ps != [] {
      DecodeAllFlat(DecodePacket(t, ps[0]), ps[1..]);
      DecodeConcat(t, ps[0], Flatten(ps[1..]));
    }
  }

  lemma {:induction false} DecodeAllSnoc(t: Touch, ps: seq<seq<InputEvent>>, p: seq<InputEvent>)
    ensures DecodeAll(t, ps + [p]) == DecodePacket(DecodeAll(t, ps), p)
    decreases ps
  {
    if ps == [] {
      assert ps + [p] == [p];
    } else {
      assert (ps + [p])[1..] == ps[1..] + [p];
      DecodeAllSnoc(DecodePacket(t, ps[0]), ps[1..], p);
    }
  }

  /**
    The flags record whether ANY event so far signalled a press (a release):
    once set they stay set, and nothing else sets them.
   */
  lemma {:induction false} DecodeFlags(t: Touch, p: seq<InputEvent>)
    ensures DecodePacket(t, p).pressed <==>
              t.pressed || exists k :: 0 <= k < |p| && SignalsPress(p[k])
    ensures DecodePacket(t, p).released <==>
              t.released || exists k :: 0 <= k < |p| && SignalsRelease(p[k])
  {
    if p != [] {
      var p' := p[..|p| - 1];
      DecodeFlags(t, p');
      if exists k :: 0 <= k < |p'| && SignalsPress(p'[k]) {
        var k :| 0 <= k < |p'| && SignalsPress(p'[k]);
        assert p[k] == p'[k];
      }
      if exists k :: 0 <= k < |p| && SignalsPress(p[k]) {
        var k :| 0 <= k < |p| && SignalsPress(p[k]);
        assert k < |p'| ==> p'[k] == p[k];
      }
      if exists k :: 0 <= k < |p'| && SignalsRelease(p'[k]) {
        var k :| 0 <= k < |p'| && SignalsRelease(p'[k]);
        assert p[k] == p'[k];
      }
      if exists k :: 0 <= k < |p| && SignalsRelease(p[k]) {
        var k :| 0 <= k < |p| && SignalsRelease(p[k]);
        assert k < |p'| ==> p'[k] == p[k];
      }
    }
  }

  /** With no coordinate event at all, the coordinates are left as they were. */
  lemma {:induction false} DecodeKeepsCoordinates(t: Touch, p: seq<InputEvent>)
    requires forall k :: 0 <= k < |p| ==> !SetsX(p[k])
    requires forall k :: 0 <= k < |p| ==> !SetsY(p[k])
    ensures DecodePacket(t, p).x == t.x && DecodePacket(t, p).y == t.y
  {
    if p != [] {
      DecodeKeepsCoordinates(t, p[..|p| - 1]);
    }
  }

  /** The last `ABS_X`/`ABS_MT_POSITION_X` event of the packet decides `x`. */
  lemma {:induction false} DecodeLastX(t: Touch, p: seq<InputEvent>, k: nat)
    requires k < |p| && SetsX(p[k])
    requires forall j :: k < j < |p| ==> !SetsX(p[j])
    ensures DecodePacket(t, p).x == p[k].evValue
  {
    if k < |p| - 1 {
      DecodeLastX(t, p[..|p| - 1], k);
    }
  }

  /** The last `ABS_Y`/`ABS_MT_POSITION_Y` event of the packet decides `y`. */
  lemma {:induction false} DecodeLastY(t: Touch, p: seq<InputEvent>, k: nat)
    requires k < |p| && SetsY(p[k])
    requires forall j :: k < j < |p| ==> !SetsY(p[j])
    ensures DecodePacket(t, p).y == p[k].evValue
  {
    if k < |p| - 1 {
      DecodeLastY(t, p[..|p| - 1], k);
    }
  }

  /** Events outside the mapping table (sync events, other keys, other axes) change nothing. */
  lemma {:induction false} DecodeIgnores(t: Touch, p: seq<InputEvent>)
    requires forall k :: 0 <= k < |p| ==>
               !SetsX(p[k]) && !SetsY(p[k]) && !SignalsPress(p[k]) && !SignalsRelease(p[k])
    ensures DecodePacket(t, p) == t
  {
    if p != [] {
      DecodeIgnores(t, p[..|p| - 1]);
    }
  }

  /**
    Device coordinates to screen coordinates, counter-clockwise for the
    panel's mounting: `ry = x`, `rx = viewWidth - y + 1`, with no clamping.
   */
  function Rotate(x: int, y: int, viewWidth: int): (r: (int, int))
    ensures Unrotate(r.0, r.1, viewWidth) == (x, y)
  {
    (viewWidth - y + 1, x)
  }

  /** The device point a screen point came from. */
  function Unrotate(rx: int, ry: int, viewWidth: int): (int, int)
  {
    (ry, viewWidth - rx + 1)
  }

  /** The rotation loses nothing: it is undone by `Unrotate`, in both orders. */
  lemma RotateInverse(x: int, y: int, rx: int, ry: int, viewWidth: int)
    ensures Unrotate(Rotate(x, y, viewWidth).0, Rotate(x, y, viewWidth).1, viewWidth) == (x, y)
    ensures Rotate(Unrotate(rx, ry, viewWidth).0, Unrotate(rx, ry, viewWidth).1, viewWidth) == (rx, ry)
  {
  }

  /**
    Only the literal formula holds: a device point with `0 <= y < viewWidth`
    lands on `2 <= rx <= viewWidth + 1`, so `y == 0` maps one column past a
    `viewWidth`-wide screen.
   */
  lemma RotateRange(x: int, y: int, viewWidth: int)
    requires x >= 0 && 0 <= y < viewWidth
    ensures Rotate(x, y, viewWidth).1 >= 0
    ensures 2 <= Rotate(x, y, viewWidth).0 <= viewWidth + 1
    ensures y == 0 ==> Rotate(x, y, viewWidth).0 == viewWidth + 1
  {
  }
}
