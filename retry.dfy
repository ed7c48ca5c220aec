/**
  The retry and completion loop of `GetInput` (koboin/koboin.go:98-183),
  stated over the successive packet-assembly attempts it makes.
 */
module Retry {
  import opened Wrappers
  import opened Wire
  import opened TouchState
  import opened Packets

  /** The error `GetInput` returns; `StreamEnded` is model only. */
  datatype InputError = NoError | TouchReadFailed | IncompleteTouchCycle | StreamEnded

  /** `rx, ry, err` as `GetInput` returns them. */
  datatype InputResult = InputResult(rx: int, ry: int, err: InputError)

  /** The loop's locals: the observation and the two attempt counters. */
  datatype Control = Control(touch: Touch, getAttempts: nat, decodeAttempts: nat)

  const Start: Control := Control(Unknown, 0, 0)

  /**
    How a call ended: its result, how many packet-assembly attempts it made,
    the observation it had at the end, and the cursor after the last attempt.
   */
  datatype Verdict = Verdict(result: InputResult, used: nat, final: Touch, cursor: nat)

  predicate Failed(f: Fetch) {
    f.status == ReadFailed || f.status == BadPacket
  }

  /** The packets among the attempts that came back whole, in order. */
  function AssembledPackets(fs: seq<Fetch>): (ps: seq<seq<InputEvent>>)
    ensures |ps| <= |fs|
  {
    if fs == [] then []
    else (if fs[0].status == Assembled then [fs[0].packet] else []) + AssembledPackets(fs[1..])
  }

  /** What one pass of the loop body decides. */
  datatype Next = Continue(control: Control) | Stop(result: InputResult, final: Touch)

  /**
    One pass of the loop body on the attempt `f`. A failed attempt only
    counts; a whole packet after more than four failures in a row ends the
    call with the raw `x, y`; otherwise the packet is decoded and the call
    succeeds with the rotated point, goes round again (at most five times),
    or gives up with `-1, -1`.
   */
  function Attempt(f: Fetch, c: Control, viewWidth: int): (r: Next)
    ensures r.Stop? && r.result.err == NoError ==>
              && f.status == Assembled && c.getAttempts <= 4
              && Complete(r.final) && r.final == DecodePacket(c.touch, f.packet)
              && (r.result.rx, r.result.ry) == Rotate(r.final.x, r.final.y, viewWidth)
    ensures r.Stop? && r.result.err == TouchReadFailed <==> f.status == Assembled && c.getAttempts > 4
    ensures r.Stop? && r.result.err == TouchReadFailed ==> r.result == InputResult(c.touch.x, c.touch.y, TouchReadFailed)
    ensures r.Stop? && r.result.err == IncompleteTouchCycle ==>
              && f.status == Assembled && c.decodeAttempts >= 5
              && r.final == DecodePacket(c.touch, f.packet)
              && !Complete(r.final) && r.result.rx == -1 && r.result.ry == -1
    ensures f.status == Assembled && c.getAttempts <= 4 && Complete(DecodePacket(c.touch, f.packet)) ==>
              r.Stop? && r.result.err == NoError
    ensures r.Stop? && r.result.err == StreamEnded <==> f.status == StreamEnd
    ensures Failed(f) ==> r == Continue(c.(getAttempts := c.getAttempts + 1))
    ensures r.Continue? && f.status == Assembled ==>
              && r.control.touch == DecodePacket(c.touch, f.packet) && !Complete(r.control.touch)
              && r.control.getAttempts == 0 && r.control.decodeAttempts == c.decodeAttempts + 1 <= 5
  {
    if f.status == StreamEnd then
      Stop(InputResult(c.touch.x, c.touch.y, StreamEnded), c.touch)
    else if f.status != Assembled then
      Continue(c.(getAttempts := c.getAttempts + 1))
    else if c.getAttempts > 4 then
      Stop(InputResult(c.touch.x, c.touch.y, TouchReadFailed), c.touch)
    else
      var t := DecodePacket(c.touch, f.packet);
      if Complete(t) then
        var (rx, ry) := Rotate(t.x, t.y, viewWidth);
        Stop(InputResult(rx, ry, NoError), t)
      else if c.decodeAttempts < 5 then
        Continue(Control(t, 0, c.decodeAttempts + 1))
      else
        Stop(InputResult(-1, -1, IncompleteTouchCycle), t)
  }

  /** The loop run over the attempts `fs`, which end with the stream's end. */
  function Drive(fs: seq<Fetch>, c: Control, viewWidth: int): (v: Verdict)
    requires fs != [] && fs[|fs| - 1].status == StreamEnd
    ensures 1 <= v.used <= |fs| && v.cursor == fs[v.used - 1].next
    ensures v.result.err == NoError ==>
              Complete(v.final) && (v.result.rx, v.result.ry) == Rotate(v.final.x, v.final.y, viewWidth)
    ensures v.result.err == IncompleteTouchCycle ==> v.result.rx == -1 && v.result.ry == -1
    ensures v.result.err == TouchReadFailed || v.result.err == StreamEnded ==>
              v.result.rx == v.final.x && v.result.ry == v.final.y
    decreases |fs|
  {
    match Attempt(fs[0], c, viewWidth)
    case Stop(result, final) => Verdict(result, 1, final, fs[0].next)
    case Continue(c') =>
      var v := Drive(fs[1..], c', viewWidth);
      v.(used := v.used + 1)
  }

  lemma DriveContinues(fs: seq<Fetch>, c: Control, viewWidth: int)
    requires fs != [] && fs[|fs| - 1].status == StreamEnd
    requires Attempt(fs[0], c, viewWidth).Continue?
    ensures |fs| > 1
    ensures var v, v' := Drive(fs, c, viewWidth), Drive(fs[1..], Attempt(fs[0], c, viewWidth).control, viewWidth);
      v.result == v'.result && v.cursor == v'.cursor && v.final == v'.final && v.used == v'.used + 1
  {
  }

  lemma DriveStops(fs: seq<Fetch>, c: Control, viewWidth: int)
    requires fs != [] && fs[|fs| - 1].status == StreamEnd
    requires Attempt(fs[0], c, viewWidth).Stop?
    ensures var v := Drive(fs, c, viewWidth);
      v.result == Attempt(fs[0], c, viewWidth).result && v.cursor == fs[0].next &&
      v.final == Attempt(fs[0], c, viewWidth).final && v.used == 1
  {
  }

  /**
    The loop run from the cursor `i` with the loop variables `c`, one
    `getEvPacket` call after another, as `GetInput` executes it.
   */
  function Run(s: seq<Option<InputEvent>>, i: nat, c: Control, viewWidth: int): (v: Verdict)
    requires i <= |s|
    ensures v.used >= 1 && i <= v.cursor <= |s|
    ensures v.result.err == StreamEnded ==> v.cursor == |s|
    ensures v.result.err == NoError ==>
              Complete(v.final) && (v.result.rx, v.result.ry) == Rotate(v.final.x, v.final.y, viewWidth)
    ensures v.result.err == IncompleteTouchCycle ==> v.result.rx == -1 && v.result.ry == -1
    ensures v.result.err == TouchReadFailed || v.result.err == StreamEnded ==>
              v.result.rx == v.final.x && v.result.ry == v.final.y
    decreases |s| - i
  {
    var f := NextPacket(s, i);
    match Attempt(f, c, viewWidth)
    case Stop(result, final) => Verdict(result, 1, final, f.next)
    case Continue(c') =>
      var v := Run(s, f.next, c', viewWidth);
      v.(used := v.used + 1)
  }

  /** The run from a cursor is the loop over the attempts from that cursor. */
  lemma {:induction false} RunIsDrive(s: seq<Option<InputEvent>>, i: nat, c: Control, viewWidth: int)
    requires i <= |s|
    ensures Run(s, i, c, viewWidth) == Drive(Attempts(s, i), c, viewWidth)
    decreases |s| - i
  {
    var fs := Attempts(s, i);
    var f := NextPacket(s, i);
    AttemptsCons(s, i);
    match Attempt(f, c, viewWidth)
    case Stop(_, _) =>
      DriveStops(fs, c, viewWidth);
    case Continue(c') =>
      DriveContinues(fs, c, viewWidth);
      assert fs[1..] == Attempts(s, f.next);
      RunIsDrive(s, f.next, c', viewWidth);
  }

  /**
    One pass of the loop seen from the cursor: the packet fetched at `i`
    either ends the run there or hands the updated variables on to the run
    from where that fetch stopped.
   */
  lemma RunStep(s: seq<Option<InputEvent>>, i: nat, c: Control, viewWidth: int)
    requires i <= |s|
    ensures var f, v := NextPacket(s, i), Run(s, i, c, viewWidth);
      match Attempt(f, c, viewWidth)
      case Stop(result, _) => v.result == result && v.cursor == f.next
      case Continue(c') =>
        && i < f.next <= |s|
        && v.result == Run(s, f.next, c', viewWidth).result
        && v.cursor == Run(s, f.next, c', viewWidth).cursor
  {
  }

  /**
    One call of `GetInput` with the cursor at `i`. It succeeds only with a
    complete observation, rotated; and since every call starts with its
    failure counter at zero, the failure limit needs at least five failed
    attempts before the packet that ends the call.
   */
  function GetInputSpec(s: seq<Option<InputEvent>>, i: nat, viewWidth: int): (v: Verdict)
    requires i <= |s|
    ensures i <= v.cursor <= |s|
    ensures v.result.err == NoError ==>
              Complete(v.final) && (v.result.rx, v.result.ry) == Rotate(v.final.x, v.final.y, viewWidth)
    ensures v.result.err == NoError ==> v.result.ry >= 0 && v.result.rx <= viewWidth + 1
    ensures v.result.err == TouchReadFailed ==> v.used >= 6
  {
    RunIsDrive(s, i, Start, viewWidth);
    GetBudgetFromStart(Attempts(s, i), viewWidth);
    Run(s, i, Start, viewWidth)
  }

  lemma AssembledPacketsCons(fs: seq<Fetch>, n: nat)
    requires 0 < n <= |fs|
    ensures AssembledPackets(fs[..n]) ==
              (if fs[0].status == Assembled then [fs[0].packet] else []) + AssembledPackets(fs[1..][..n - 1])
  {
    assert fs[..n][1..] == fs[1..][..n - 1];
  }

  /**
    The loop is a fold: the observation at the end is every packet that was
    decoded, folded in the order read (all whole packets except, on the
    failure-limit path, the one that ended the call undecoded).
   */
  lemma {:induction false} DriveFolds(fs: seq<Fetch>, c: Control, viewWidth: int)
    requires fs != [] && fs[|fs| - 1].status == StreamEnd
    ensures var v := Drive(fs, c, viewWidth);
      && (v.result.err != TouchReadFailed ==>
            v.final == DecodeAll(c.touch, AssembledPackets(fs[..v.used])))
      && (v.result.err == TouchReadFailed ==>
            fs[v.used - 1].status == Assembled &&
            v.final == DecodeAll(c.touch, AssembledPackets(fs[..v.used - 1])))
    decreases |fs|
  {
    var v := Drive(fs, c, viewWidth);
    var a := Attempt(fs[0], c, viewWidth);
    if a.Stop? {
      DriveStops(fs, c, viewWidth);
      assert fs[..1] == [fs[0]] && fs[..0] == [];
      assert AssembledPackets([fs[0]]) == (if fs[0].status == Assembled then [fs[0].packet] else []);
    } else {
      DriveContinues(fs, c, viewWidth);
      DriveFolds(fs[1..], a.control, viewWidth);
      var v' := Drive(fs[1..], a.control, viewWidth);
      assert a.control.touch == if fs[0].status == Assembled then DecodePacket(c.touch, fs[0].packet) else c.touch;
      var n := if v.result.err == TouchReadFailed then v.used - 1 else v.used;
      AssembledPacketsCons(fs, n);
      var rest := AssembledPackets(fs[1..][..n - 1]);
      if fs[0].status == Assembled {
        assert ([fs[0].packet] + rest)[1..] == rest;
        assert DecodeAll(c.touch, [fs[0].packet] + rest) == DecodeAll(a.control.touch, rest);
      } else {
        assert [] + rest == rest;
      }
      assert fs[v.used - 1] == fs[1..][v'.used - 1];
    }
  }

  /**
    At most six whole packets are taken in one call (fewer when the decode
    counter already stands at `decodeAttempts`); giving up on an incomplete
    touch cycle happens after exactly that many.
   */
  lemma {:induction false} DecodeBudget(fs: seq<Fetch>, c: Control, viewWidth: int)
    requires fs != [] && fs[|fs| - 1].status == StreamEnd
    requires c.decodeAttempts <= 5
    ensures var v := Drive(fs, c, viewWidth);
      && |AssembledPackets(fs[..v.used])| <= 6 - c.decodeAttempts
      && (v.result.err == IncompleteTouchCycle ==>
            |AssembledPackets(fs[..v.used])| == 6 - c.decodeAttempts)
    decreases |fs|
  {
    var v := Drive(fs, c, viewWidth);
    var a := Attempt(fs[0], c, viewWidth);
    if a.Stop? {
      DriveStops(fs, c, viewWidth);
      assert fs[..1] == [fs[0]];
      assert AssembledPackets([fs[0]]) == (if fs[0].status == Assembled then [fs[0].packet] else []);
    } else {
      DriveContinues(fs, c, viewWidth);
      DecodeBudget(fs[1..], a.control, viewWidth);
      AssembledPacketsCons(fs, v.used);
    }
  }

  /**
    The failure limit is checked only after a good read: the call fails with
    `TouchReadFailed` on a whole packet that follows five failed attempts in a
    row, or fewer when the counter already stood at `getAttempts`.
   */
  lemma {:induction false} GetBudget(fs: seq<Fetch>, c: Control, viewWidth: int)
    requires fs != [] && fs[|fs| - 1].status == StreamEnd
    ensures var v := Drive(fs, c, viewWidth);
      v.result.err == TouchReadFailed ==>
        && fs[v.used - 1].status == Assembled
        && (forall k :: 0 <= k < v.used - 1 && v.used - 6 <= k ==> Failed(fs[k]))
        && (v.used < 6 ==> v.used - 1 + c.getAttempts >= 5)
    decreases |fs|
  {
    var v := Drive(fs, c, viewWidth);
    var a := Attempt(fs[0], c, viewWidth);
    if a.Stop? {
      DriveStops(fs, c, viewWidth);
    } else if v.result.err == TouchReadFailed {
      DriveContinues(fs, c, viewWidth);
      GetBudget(fs[1..], a.control, viewWidth);
      var v' := Drive(fs[1..], a.control, viewWidth);
      assert fs[v.used - 1] == fs[1..][v'.used - 1];
      assert a.control.getAttempts == if fs[0].status == Assembled then 0 else c.getAttempts + 1;
      forall k | 0 <= k < v.used - 1 && v.used - 6 <= k
        ensures Failed(fs[k])
      {
        if k > 0 {
          assert fs[k] == fs[1..][k - 1];
        }
      }
    }
  }

  /** From the start of a call: the five attempts before the last all failed. */
  lemma GetBudgetFromStart(fs: seq<Fetch>, viewWidth: int)
    requires fs != [] && fs[|fs| - 1].status == StreamEnd
    ensures var v := Drive(fs, Start, viewWidth);
      v.result.err == TouchReadFailed ==>
        && v.used >= 6
        && fs[v.used - 1].status == Assembled
        && forall k :: v.used - 6 <= k < v.used - 1 ==> Failed(fs[k])
  {
    GetBudget(fs, Start, viewWidth);
  }

  /**
    Conversely: failed attempts in a row that bring the counter past four,
    then a whole packet, end the call with the current raw `x, y`, whatever
    the packet holds.
   */
  lemma {:induction false} FailuresThenPacket(fs: seq<Fetch>, c: Control, viewWidth: int, n: nat)
    requires fs != [] && fs[|fs| - 1].status == StreamEnd
    requires n < |fs| && fs[n].status == Assembled
    requires forall k :: 0 <= k < n ==> Failed(fs[k])
    requires c.getAttempts + n > 4
    ensures Drive(fs, c, viewWidth) ==
              Verdict(InputResult(c.touch.x, c.touch.y, TouchReadFailed), n + 1, c.touch, fs[n].next)
    decreases n
  {
    if n > 0 {
      assert Failed(fs[0]);
      DriveContinues(fs, c, viewWidth);
      FailuresThenPacket(fs[1..], c.(getAttempts := c.getAttempts + 1), viewWidth, n - 1);
    } else {
      DriveStops(fs, c, viewWidth);
    }
  }

  /**
    Conversely: when the next `6 - decodeAttempts` attempts all bring whole
    packets and the observation is still incomplete after each of them, the
    call gives up with `-1, -1` on the last of them.
   */
  lemma {:induction false} IncompleteCycles(fs: seq<Fetch>, c: Control, viewWidth: int)
    requires fs != [] && fs[|fs| - 1].status == StreamEnd
    requires c.decodeAttempts <= 5 && c.getAttempts <= 4
    requires 6 - c.decodeAttempts < |fs|
    requires forall k :: 0 <= k < 6 - c.decodeAttempts ==> fs[k].status == Assembled
    requires forall j :: 1 <= j <= 6 - c.decodeAttempts ==>
               !Complete(DecodeAll(c.touch, AssembledPackets(fs[..j])))
    ensures Drive(fs, c, viewWidth).result == InputResult(-1, -1, IncompleteTouchCycle)
    ensures Drive(fs, c, viewWidth).used == 6 - c.decodeAttempts
    decreases 5 - c.decodeAttempts
  {
    var m := 6 - c.decodeAttempts;
    var t := DecodePacket(c.touch, fs[0].packet);
    AssembledPacketsCons(fs, 1);
    assert AssembledPackets(fs[..1]) == [fs[0].packet];
    assert DecodeAll(c.touch, [fs[0].packet]) == t;
    assert !Complete(t);
    if c.decodeAttempts < 5 {
      var c' := Control(t, 0, c.decodeAttempts + 1);
      DriveContinues(fs, c, viewWidth);
      forall j | 1 <= j <= 6 - c'.decodeAttempts
        ensures !Complete(DecodeAll(c'.touch, AssembledPackets(fs[1..][..j])))
      {
        AssembledPacketsCons(fs, j + 1);
        assert !Complete(DecodeAll(c.touch, AssembledPackets(fs[..j + 1])));
      }
      IncompleteCycles(fs[1..], c', viewWidth);
    } else {
      DriveStops(fs, c, viewWidth);
    }
  }

  /**
    Peeling off the first attempt: the fold of the first `j` attempts is the
    fold of the rest from the observation after the first.
   */
  lemma FoldAfterFirst(fs: seq<Fetch>, t: Touch, j: nat)
    requires 0 < j <= |fs|
    ensures DecodeAll(t, AssembledPackets(fs[..j])) ==
              DecodeAll(if fs[0].status == Assembled then DecodePacket(t, fs[0].packet) else t,
                        AssembledPackets(fs[1..][..j - 1]))
  {
    AssembledPacketsCons(fs, j);
    var rest := AssembledPackets(fs[1..][..j - 1]);
    if fs[0].status == Assembled {
      assert ([fs[0].packet] + rest)[1..] == rest;
    } else {
      assert [] + rest == rest;
    }
  }

  /**
    The loop stops at the first complete observation: no whole packet before
    the last attempt of a call left the fold complete, and a success ends on
    a whole packet.
   */
  lemma {:induction false} DriveStopsAtFirstComplete(fs: seq<Fetch>, c: Control, viewWidth: int)
    requires fs != [] && fs[|fs| - 1].status == StreamEnd
    ensures var v := Drive(fs, c, viewWidth);
      && (v.result.err == NoError ==> fs[v.used - 1].status == Assembled)
      && forall j :: 0 <= j < v.used - 1 && fs[j].status == Assembled ==>
           !Complete(DecodeAll(c.touch, AssembledPackets(fs[..j + 1])))
    decreases |fs|
  {
    var v := Drive(fs, c, viewWidth);
    var a := Attempt(fs[0], c, viewWidth);
    if a.Stop? {
      DriveStops(fs, c, viewWidth);
    } else {
      DriveContinues(fs, c, viewWidth);
      var v' := Drive(fs[1..], a.control, viewWidth);
      DriveStopsAtFirstComplete(fs[1..], a.control, viewWidth);
      assert fs[v.used - 1] == fs[1..][v'.used - 1];
      forall j | 0 <= j < v.used - 1 && fs[j].status == Assembled
        ensures !Complete(DecodeAll(c.touch, AssembledPackets(fs[..j + 1])))
      {
        FoldAfterFirst(fs, c.touch, j + 1);
        if j > 0 {
          assert fs[j] == fs[1..][j - 1];
        } else {
          assert fs[1..][..0] == [];
        }
      }
    }
  }

  /**
    The failure counter as the loop finds it on reaching attempt `k` when it
    started at `g`: the failed attempts right before `k`, plus `g` when they
    reach back to the first attempt.
   */
  function FailStreak(fs: seq<Fetch>, k: nat, g: nat): nat
    requires k <= |fs|
  {
    if k == 0 then g else if Failed(fs[k - 1]) then FailStreak(fs, k - 1, g) + 1 else 0
  }

  lemma {:induction false} FailStreakShift(fs: seq<Fetch>, k: nat, g: nat)
    requires 0 < k <= |fs|
    ensures FailStreak(fs, k, g) == FailStreak(fs[1..], k - 1, if Failed(fs[0]) then g + 1 else 0)
    decreases k
  {
    if k > 1 {
      assert fs[1..][k - 2] == fs[k - 1];
      FailStreakShift(fs, k - 1, g);
    }
  }

  /** A whole packet at attempt `k` finds at most four failures in a row before it. */
  predicate StreakOk(fs: seq<Fetch>, k: nat, g: nat)
    requires k < |fs|
  {
    fs[k].status == Assembled ==> FailStreak(fs, k, g) <= 4
  }

  /** A whole packet at attempt `j` leaves the fold from `t` incomplete. */
  predicate IncompleteAt(fs: seq<Fetch>, t: Touch, j: nat)
    requires j < |fs|
  {
    fs[j].status == Assembled ==> !Complete(DecodeAll(t, AssembledPackets(fs[..j + 1])))
  }

  /**
    The attempts up to `n` are failures and whole packets; no whole packet
    meets more than four failures in a row (counting from `c`'s counter);
    the decode budget left in `c` covers the packets before `n`; and the
    fold from `c`'s observation first becomes complete on the packet at `n`.
   */
  predicate CompletesFirstAt(fs: seq<Fetch>, c: Control, n: nat) {
    && n < |fs| && fs[n].status == Assembled
    && (forall k :: 0 <= k < n ==> fs[k].status != StreamEnd)
    && (forall k :: 0 <= k <= n ==> StreakOk(fs, k, c.getAttempts))
    && |AssembledPackets(fs[..n])| + c.decodeAttempts <= 5
    && (forall j :: 0 <= j < n ==> IncompleteAt(fs, c.touch, j))
    && Complete(DecodeAll(c.touch, AssembledPackets(fs[..n + 1])))
  }

  lemma StreakTail(fs: seq<Fetch>, n: nat, g: nat, g': nat)
    requires 0 < n < |fs|
    requires g' == if Failed(fs[0]) then g + 1 else 0
    requires forall k :: 0 <= k <= n ==> StreakOk(fs, k, g)
    ensures forall k :: 0 <= k <= n - 1 ==> StreakOk(fs[1..], k, g')
  {
    forall k | 0 <= k <= n - 1
      ensures StreakOk(fs[1..], k, g')
    {
      FailStreakShift(fs, k + 1, g);
      assert StreakOk(fs, k + 1, g);
      assert fs[1..][k] == fs[k + 1];
    }
  }

  lemma IncompleteTail(fs: seq<Fetch>, n: nat, t: Touch, t': Touch)
    requires 0 < n < |fs|
    requires t' == if fs[0].status == Assembled then DecodePacket(t, fs[0].packet) else t
    requires forall j :: 0 <= j < n ==> IncompleteAt(fs, t, j)
    ensures forall j :: 0 <= j < n - 1 ==> IncompleteAt(fs[1..], t', j)
  {
    forall j | 0 <= j < n - 1
      ensures IncompleteAt(fs[1..], t', j)
    {
      FoldAfterFirst(fs, t, j + 2);
      assert IncompleteAt(fs, t, j + 1);
      assert fs[1..][j] == fs[j + 1];
    }
  }

  /** The first attempt before `n` goes round the loop, and the rest still completes first at `n - 1`. */
  lemma CompletesFirstAtTail(fs: seq<Fetch>, c: Control, viewWidth: int, n: nat)
    requires CompletesFirstAt(fs, c, n) && n > 0
    ensures Attempt(fs[0], c, viewWidth).Continue?
    ensures var c' := Attempt(fs[0], c, viewWidth).control;
      && CompletesFirstAt(fs[1..], c', n - 1)
      && DecodeAll(c'.touch, AssembledPackets(fs[1..][..n])) == DecodeAll(c.touch, AssembledPackets(fs[..n + 1]))
  {
    FoldAfterFirst(fs, c.touch, 1);
    assert fs[1..][..0] == [];
    AssembledPacketsCons(fs, n);
    assert StreakOk(fs, 0, c.getAttempts) && IncompleteAt(fs, c.touch, 0);
    var c' := Attempt(fs[0], c, viewWidth).control;
    StreakTail(fs, n, c.getAttempts, c'.getAttempts);
    IncompleteTail(fs, n, c.touch, c'.touch);
    FoldAfterFirst(fs, c.touch, n + 1);
  }

  /**
    Conversely: when the fold first becomes complete on the whole packet at
    attempt `n`, within both budgets, the call succeeds there with that
    fold, rotated.
   */
  lemma {:induction false} CompletesAt(fs: seq<Fetch>, c: Control, viewWidth: int, n: nat)
    requires fs != [] && fs[|fs| - 1].status == StreamEnd
    requires CompletesFirstAt(fs, c, n)
    ensures var t := DecodeAll(c.touch, AssembledPackets(fs[..n + 1]));
      Drive(fs, c, viewWidth) ==
        Verdict(InputResult(Rotate(t.x, t.y, viewWidth).0, Rotate(t.x, t.y, viewWidth).1, NoError),
                n + 1, t, fs[n].next)
    decreases n
  {
    if n == 0 {
      CompletesFirst(fs, c, viewWidth);
    } else {
      CompletesFirstAtTail(fs, c, viewWidth, n);
      var c' := Attempt(fs[0], c, viewWidth).control;
      DriveContinues(fs, c, viewWidth);
      CompletesAt(fs[1..], c', viewWidth, n - 1);
      assert fs[1..][n - 1] == fs[n];
    }
  }

  lemma CompletesFirst(fs: seq<Fetch>, c: Control, viewWidth: int)
    requires fs != [] && fs[|fs| - 1].status == StreamEnd
    requires CompletesFirstAt(fs, c, 0)
    ensures var t := DecodeAll(c.touch, AssembledPackets(fs[..1]));
      Drive(fs, c, viewWidth) ==
        Verdict(InputResult(Rotate(t.x, t.y, viewWidth).0, Rotate(t.x, t.y, viewWidth).1, NoError), 1, t, fs[0].next)
  {
    FoldAfterFirst(fs, c.touch, 1);
    assert fs[1..][..0] == [];
    assert StreakOk(fs, 0, c.getAttempts);
    DriveStops(fs, c, viewWidth);
  }

  /**
    The same from the stream: a call whose attempts first complete the
    observation at attempt `n`, within both budgets, returns that
    observation rotated, without error.
   */
  lemma GetInputCompletesAt(s: seq<Option<InputEvent>>, i: nat, viewWidth: int, n: nat)
    requires i <= |s| && CompletesFirstAt(Attempts(s, i), Start, n)
    ensures var t := DecodeAll(Unknown, AssembledPackets(Attempts(s, i)[..n + 1]));
      GetInputSpec(s, i, viewWidth).result ==
        InputResult(Rotate(t.x, t.y, viewWidth).0, Rotate(t.x, t.y, viewWidth).1, NoError)
  {
    RunIsDrive(s, i, Start, viewWidth);
    CompletesAt(Attempts(s, i), Start, viewWidth, n);
  }

  /** A prefix of attempts that ends in a whole packet holds at least one. */
  lemma {:induction false} AssembledLast(fs: seq<Fetch>)
    requires fs != [] && fs[|fs| - 1].status == Assembled
    ensures |AssembledPackets(fs)| >= 1
    decreases |fs|
  {
    if |fs| > 1 {
      assert fs[1..][|fs[1..]| - 1] == fs[|fs| - 1];
      AssembledLast(fs[1..]);
    }
  }

  /**
    The attempts up to `n` are failures and whole packets; no whole packet
    meets more than four failures in a row; the packets up to and including
    the one at `n` use up the decode budget left in `c`; and none of them
    leaves the fold from `c`'s observation complete.
   */
  predicate ExhaustsAt(fs: seq<Fetch>, c: Control, n: nat) {
    && n < |fs| && fs[n].status == Assembled
    && (forall k :: 0 <= k < n ==> fs[k].status != StreamEnd)
    && (forall k :: 0 <= k <= n ==> StreakOk(fs, k, c.getAttempts))
    && |AssembledPackets(fs[..n + 1])| + c.decodeAttempts == 6
    && (forall j :: 0 <= j <= n ==> IncompleteAt(fs, c.touch, j))
  }

  /** The first attempt before `n` goes round the loop, and the rest still exhausts the budget at `n - 1`. */
  lemma ExhaustsAtTail(fs: seq<Fetch>, c: Control, viewWidth: int, n: nat)
    requires fs != [] && fs[|fs| - 1].status == StreamEnd
    requires ExhaustsAt(fs, c, n) && n > 0
    ensures Attempt(fs[0], c, viewWidth).Continue?
    ensures var c' := Attempt(fs[0], c, viewWidth).control;
      && ExhaustsAt(fs[1..], c', n - 1)
      && DecodeAll(c'.touch, AssembledPackets(fs[1..][..n])) == DecodeAll(c.touch, AssembledPackets(fs[..n + 1]))
  {
    assert n + 1 < |fs|;
    FoldAfterFirst(fs, c.touch, 1);
    assert fs[1..][..0] == [];
    AssembledPacketsCons(fs, n + 1);
    assert fs[1..][..n][n - 1] == fs[n];
    AssembledLast(fs[1..][..n]);
    assert StreakOk(fs, 0, c.getAttempts) && IncompleteAt(fs, c.touch, 0);
    var c' := Attempt(fs[0], c, viewWidth).control;
    StreakTail(fs, n, c.getAttempts, c'.getAttempts);
    IncompleteTail(fs, n + 1, c.touch, c'.touch);
    FoldAfterFirst(fs, c.touch, n + 1);
  }

  lemma GivesUpFirst(fs: seq<Fetch>, c: Control, viewWidth: int)
    requires fs != [] && fs[|fs| - 1].status == StreamEnd
    requires ExhaustsAt(fs, c, 0)
    ensures Drive(fs, c, viewWidth) ==
              Verdict(InputResult(-1, -1, IncompleteTouchCycle), 1, DecodeAll(c.touch, AssembledPackets(fs[..1])), fs[0].next)
  {
    FoldAfterFirst(fs, c.touch, 1);
    assert fs[1..][..0] == [];
    AssembledPacketsCons(fs, 1);
    assert StreakOk(fs, 0, c.getAttempts) && IncompleteAt(fs, c.touch, 0);
    DriveStops(fs, c, viewWidth);
  }

  /**
    Conversely to `DecodeBudget`: when the whole packets up to attempt `n`
    use up the decode budget and none completes the observation, with failed
    attempts anywhere between them but never more than four in a row before
    a packet, the call gives up with `-1, -1` at `n`.
   */
  lemma {:induction false} GivesUpAt(fs: seq<Fetch>, c: Control, viewWidth: int, n: nat)
    requires fs != [] && fs[|fs| - 1].status == StreamEnd
    requires ExhaustsAt(fs, c, n)
    ensures Drive(fs, c, viewWidth) ==
              Verdict(InputResult(-1, -1, IncompleteTouchCycle), n + 1,
                      DecodeAll(c.touch, AssembledPackets(fs[..n + 1])), fs[n].next)
    decreases n
  {
    if n == 0 {
      GivesUpFirst(fs, c, viewWidth);
    } else {
      ExhaustsAtTail(fs, c, viewWidth, n);
      var c' := Attempt(fs[0], c, viewWidth).control;
      DriveContinues(fs, c, viewWidth);
      GivesUpAt(fs[1..], c', viewWidth, n - 1);
      assert fs[1..][n - 1] == fs[n];
    }
  }

  /** The same from the stream: such a call returns `-1, -1` with the incomplete-cycle error. */
  lemma GetInputGivesUpAt(s: seq<Option<InputEvent>>, i: nat, viewWidth: int, n: nat)
    requires i <= |s| && ExhaustsAt(Attempts(s, i), Start, n)
    ensures GetInputSpec(s, i, viewWidth).result == InputResult(-1, -1, IncompleteTouchCycle)
  {
    RunIsDrive(s, i, Start, viewWidth);
    GivesUpAt(Attempts(s, i), Start, viewWidth, n);
  }

  /**
    Where the run sits in the stream matters only to the cursor: from `i + k`
    in `s` it does what it does from `k` in `s[i..]`.
   */
  lemma {:induction false} RunShift(s: seq<Option<InputEvent>>, i: nat, k: nat, c: Control, viewWidth: int)
    requires i + k <= |s|
    ensures var v, w := Run(s, i + k, c, viewWidth), Run(s[i..], k, c, viewWidth);
      v.result == w.result && v.cursor == w.cursor + i
    decreases |s| - (i + k)
  {
    var t := s[i..];
    var f := NextPacket(t, k);
    AssembleShift(s, i, k, [], false);
    match Attempt(f, c, viewWidth)
    case Stop(_, _) =>
    case Continue(c') =>
      RunShift(s, i, f.next, c', viewWidth);
  }

  /**
    No state survives between calls: what a call returns depends only on the
    outcomes from its cursor on, never on what earlier calls read.
   */
  lemma CallsIndependent(s: seq<Option<InputEvent>>, i: nat, viewWidth: int)
    requires i <= |s|
    ensures GetInputSpec(s, i, viewWidth).result == GetInputSpec(s[i..], 0, viewWidth).result
    ensures GetInputSpec(s, i, viewWidth).cursor == GetInputSpec(s[i..], 0, viewWidth).cursor + i
  {
    RunShift(s, i, 0, Start, viewWidth);
  }
}
