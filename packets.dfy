/**
  Packet assembly, `getEvPacket` (koboin/koboin.go:63-96): records are read
  one at a time and grouped up to and including the first `SYN_REPORT`; a
  `SYN_DROPPED` throws away what was gathered and everything up to and
  including the next `SYN_REPORT`.

  The device is a finite sequence of read outcomes and a cursor into it;
  assembly works on what each read delivers (`Reads`). Reading past the last
  outcome is the model-only `StreamEnd`: the device node itself never runs
  out, so the source has no such case.
 */
module Packets {
  import opened Wrappers
  import opened Wire

  /** What one `binary.Read` of a record gets from the device. */
  datatype ReadOutcome =
    | Chunk(bytes: seq<byte>)   // the bytes delivered for one record
    | Fault                     // a transport error

  function ReadOf(o: ReadOutcome): Option<InputEvent> {
    match o
    case Chunk(bytes) => ReadRecord(bytes)
    case Fault => None
  }

  /**
    What successive reads of the device deliver, record by record. Packet
    assembly below works on these: `None` is a failed read.
   */
  function Reads(stream: seq<ReadOutcome>): seq<Option<InputEvent>>
  {
    seq(|stream|, k requires 0 <= k < |stream| => ReadOf(stream[k]))
  }

  /** How one packet-assembly attempt ended. */
  datatype Status =
    | Assembled    // a complete packet, error nil
    | ReadFailed   // the read error, returned at once
    | BadPacket    // "bad event packet": a SYN_DROPPED recovery boundary was crossed
    | StreamEnd    // model only: no outcome left to read

  /** The packet (Go returns it on every path), the status and the cursor afterwards. */
  datatype Fetch = Fetch(packet: seq<InputEvent>, status: Status, next: nat)

  predicate FaultAt(s: seq<Option<InputEvent>>, k: nat)
    requires k < |s|
  {
    s[k].None?
  }

  predicate ReportAt(s: seq<Option<InputEvent>>, k: nat)
    requires k < |s|
  {
    s[k].Some? && IsSynReport(s[k].value)
  }

  predicate DropAt(s: seq<Option<InputEvent>>, k: nat)
    requires k < |s|
  {
    s[k].Some? && IsSynDropped(s[k].value)
  }

  /** Outcomes `i..j` all read successfully. */
  predicate GoodReads(s: seq<Option<InputEvent>>, i: nat, j: nat)
    requires i <= j <= |s|
  {
    forall k :: i <= k < j ==> !FaultAt(s, k)
  }

  /** None of the outcomes `i..j` is a `SYN_REPORT`. */
  predicate NoReport(s: seq<Option<InputEvent>>, i: nat, j: nat)
    requires i <= j <= |s|
  {
    forall k :: i <= k < j ==> !ReportAt(s, k)
  }

  /** Outcomes `i..j` all read successfully and none is a `SYN_REPORT`. */
  predicate OpenRun(s: seq<Option<InputEvent>>, i: nat, j: nat)
    requires i <= j <= |s|
  {
    GoodReads(s, i, j) && NoReport(s, i, j)
  }

  /** Outcomes `i..j` make one hardware sample: good reads ending at the first `SYN_REPORT`. */
  predicate SampleRun(s: seq<Option<InputEvent>>, i: nat, j: nat)
  {
    i < j <= |s| && GoodReads(s, i, j) && NoReport(s, i, j - 1) && ReportAt(s, j - 1)
  }

  /** Outcomes `i..j` are good reads without a `SYN_REPORT`, then a failed read. */
  predicate FailRun(s: seq<Option<InputEvent>>, i: nat, j: nat)
  {
    i < j <= |s| && OpenRun(s, i, j - 1) && FaultAt(s, j - 1)
  }

  predicate HasDrop(s: seq<Option<InputEvent>>, i: nat, j: nat)
    requires i <= j <= |s|
  {
    exists k :: i <= k < j && DropAt(s, k)
  }

  /** The events read from outcomes `i..j`, which all read successfully. */
  function Decoded(s: seq<Option<InputEvent>>, i: nat, j: nat): seq<InputEvent>
    requires i <= j <= |s| && GoodReads(s, i, j)
  {
    seq(j - i, k requires 0 <= k < j - i => assert !FaultAt(s, i + k); s[i + k].value)
  }

  /**
    The assembly loop from outcome `i`, with the events gathered so far in
    `acc` and `bad` set once a `SYN_DROPPED` has been seen.
   */
  function Assemble(s: seq<Option<InputEvent>>, i: nat, acc: seq<InputEvent>, bad: bool): (f: Fetch)
    requires i <= |s|
    ensures i <= f.next <= |s|
    ensures f.status == StreamEnd ==> f.next == |s|
    ensures f.status != StreamEnd ==> i < f.next
    decreases |s| - i
  {
    if i == |s| then Fetch(acc, StreamEnd, i)
    else match s[i]
      case None => Fetch(acc, ReadFailed, i + 1)
      case Some(e) =>
        if IsSynDropped(e) then Assemble(s, i + 1, [], true)
        else if bad && IsSynReport(e) then Fetch(acc, BadPacket, i + 1)
        else if !bad then
          if IsSynReport(e) then Fetch(acc + [e], Assembled, i + 1)
          else Assemble(s, i + 1, acc + [e], false)
        else Assemble(s, i + 1, acc, true)
  }

  /**
    One call of `getEvPacket` with the cursor at `i`. It always reads at
    least one outcome unless the stream has run out; a packet it returns
    holds one event per read; a bad packet comes back empty.
   */
  function NextPacket(s: seq<Option<InputEvent>>, i: nat): (f: Fetch)
    requires i <= |s|
    ensures i <= f.next <= |s|
    ensures f.status == StreamEnd ==> f.next == |s|
    ensures f.status != StreamEnd ==> i < f.next
    ensures f.status == Assembled ==> |f.packet| == f.next - i
    ensures f.status == BadPacket ==> f.packet == []
  {
    AssembledSound(s, i, []);
    BadPacketSound(s, i, [], false);
    Assemble(s, i, [], false)
  }

  /** Once a `SYN_DROPPED` has been seen, no packet can come back. */
  lemma {:induction false} BadNeverAssembles(s: seq<Option<InputEvent>>, i: nat)
    requires i <= |s|
    ensures Assemble(s, i, [], true).status != Assembled
    decreases |s| - i
  {
    if i < |s| && s[i].Some? {
      BadNeverAssembles(s, i + 1);
    }
  }

  /** A sample from `i + 1` extends back over a good read at `i` that is not a `SYN_REPORT`. */
  lemma ExtendSample(s: seq<Option<InputEvent>>, i: nat, j: nat)
    requires i < j && SampleRun(s, i + 1, j)
    requires !FaultAt(s, i) && !ReportAt(s, i)
    ensures SampleRun(s, i, j)
    ensures HasDrop(s, i, j) <==> DropAt(s, i) || HasDrop(s, i + 1, j)
  {
    if HasDrop(s, i, j) && !DropAt(s, i) {
      var k :| i <= k < j && DropAt(s, k);
      assert i + 1 <= k;
    }
  }

  lemma DecodedCons(s: seq<Option<InputEvent>>, i: nat, j: nat)
    requires i < j <= |s| && GoodReads(s, i, j)
    ensures s[i].Some? && Decoded(s, i, j) == [s[i].value] + Decoded(s, i + 1, j)
  {
    assert !FaultAt(s, i);
  }

  /** A packet comes back only from a clean sample, and it is exactly the events read. */
  lemma {:induction false} AssembledSound(s: seq<Option<InputEvent>>, i: nat, acc: seq<InputEvent>)
    requires i <= |s|
    ensures var f := Assemble(s, i, acc, false);
      f.status == Assembled ==>
        SampleRun(s, i, f.next) && !HasDrop(s, i, f.next) &&
        f.packet == acc + Decoded(s, i, f.next)
    decreases |s| - i
  {
    if i < |s| && s[i].Some? {
      var e := s[i].value;
      var f := Assemble(s, i, acc, false);
      if IsSynDropped(e) {
        BadNeverAssembles(s, i + 1);
      } else if IsSynReport(e) {
        assert !DropAt(s, i);
      } else {
        AssembledSound(s, i + 1, acc + [e]);
        if f.status == Assembled {
          ExtendSample(s, i, f.next);
          DecodedCons(s, i, f.next);
        }
      }
    }
  }

  /** A bad packet comes back only from a sample that held a `SYN_DROPPED` (or followed one). */
  lemma {:induction false} BadPacketSound(s: seq<Option<InputEvent>>, i: nat, acc: seq<InputEvent>, bad: bool)
    requires i <= |s|
    requires bad ==> acc == []
    ensures var f := Assemble(s, i, acc, bad);
      f.status == BadPacket ==>
        SampleRun(s, i, f.next) && (bad || HasDrop(s, i, f.next)) && f.packet == []
    decreases |s| - i
  {
    if i < |s| && s[i].Some? {
      var e := s[i].value;
      var f := Assemble(s, i, acc, bad);
      if !IsSynReport(e) {
        var dropped := IsSynDropped(e);
        BadPacketSound(s, i + 1, if dropped then [] else if bad then acc else acc + [e], bad || dropped);
        if f.status == BadPacket {
          ExtendSample(s, i, f.next);
          assert dropped ==> DropAt(s, i);
        }
      }
    }
  }

  /** A read error comes back only at the first failed read, before any `SYN_REPORT`. */
  lemma {:induction false} ReadFailedSound(s: seq<Option<InputEvent>>, i: nat, acc: seq<InputEvent>, bad: bool)
    requires i <= |s|
    ensures Assemble(s, i, acc, bad).status == ReadFailed ==> FailRun(s, i, Assemble(s, i, acc, bad).next)
    decreases |s| - i
  {
    if i < |s| && s[i].Some? {
      var e := s[i].value;
      ReadFailedSound(s, i + 1, if IsSynDropped(e) then [] else if bad then acc else acc + [e],
                      bad || IsSynDropped(e));
    }
  }

  /** The model-only end of stream comes only when no outcome left ends the sample. */
  lemma {:induction false} StreamEndSound(s: seq<Option<InputEvent>>, i: nat, acc: seq<InputEvent>, bad: bool)
    requires i <= |s|
    ensures Assemble(s, i, acc, bad).status == StreamEnd ==> OpenRun(s, i, |s|)
    decreases |s| - i
  {
    if i < |s| && s[i].Some? {
      var e := s[i].value;
      StreamEndSound(s, i + 1, if IsSynDropped(e) then [] else if bad then acc else acc + [e],
                     bad || IsSynDropped(e));
    }
  }

  /** Conversely, a sample from `i` to `j` is consumed whole, and its drops decide the verdict. */
  lemma {:induction false} SampleComplete(s: seq<Option<InputEvent>>, i: nat, j: nat, acc: seq<InputEvent>, bad: bool)
    requires SampleRun(s, i, j)
    ensures Assemble(s, i, acc, bad).next == j
    ensures Assemble(s, i, acc, bad).status == (if bad || HasDrop(s, i, j) then BadPacket else Assembled)
    decreases j - i
  {
    assert !FaultAt(s, i);
    var e := s[i].value;
    if i < j - 1 {
      assert !ReportAt(s, i);
      SampleComplete(s, i + 1, j, if IsSynDropped(e) then [] else if bad then acc else acc + [e],
                     bad || IsSynDropped(e));
      ExtendSample(s, i, j);
      assert IsSynDropped(e) <==> DropAt(s, i);
    } else {
      assert !HasDrop(s, i, j) by {
        forall k | i <= k < j
          ensures !DropAt(s, k)
        {
          assert k == i;
        }
      }
    }
  }

  /** Conversely, good reads without a `SYN_REPORT` then a failed read end in that read error. */
  lemma {:induction false} FailComplete(s: seq<Option<InputEvent>>, i: nat, j: nat, acc: seq<InputEvent>, bad: bool)
    requires FailRun(s, i, j)
    ensures Assemble(s, i, acc, bad).next == j && Assemble(s, i, acc, bad).status == ReadFailed
    decreases j - i
  {
    if i < j - 1 {
      assert !FaultAt(s, i) && !ReportAt(s, i);
      var e := s[i].value;
      FailComplete(s, i + 1, j, if IsSynDropped(e) then [] else if bad then acc else acc + [e],
                   bad || IsSynDropped(e));
    }
  }

  /** Conversely, when nothing left ends the sample, the stream runs out. */
  lemma {:induction false} EndComplete(s: seq<Option<InputEvent>>, i: nat, acc: seq<InputEvent>, bad: bool)
    requires i <= |s| && OpenRun(s, i, |s|)
    ensures Assemble(s, i, acc, bad).status == StreamEnd
    decreases |s| - i
  {
    if i < |s| {
      assert !FaultAt(s, i) && !ReportAt(s, i);
      var e := s[i].value;
      EndComplete(s, i + 1, if IsSynDropped(e) then [] else if bad then acc else acc + [e],
                  bad || IsSynDropped(e));
    }
  }

  /** `getEvPacket` succeeds exactly on a clean sample: good reads up to the first `SYN_REPORT`, no `SYN_DROPPED`. */
  lemma PacketAssembledIff(s: seq<Option<InputEvent>>, i: nat, j: nat)
    requires i <= j <= |s|
    ensures (NextPacket(s, i).status == Assembled && NextPacket(s, i).next == j) <==>
              SampleRun(s, i, j) && !HasDrop(s, i, j)
    ensures NextPacket(s, i).status == Assembled ==>
              SampleRun(s, i, NextPacket(s, i).next) &&
              NextPacket(s, i).packet == Decoded(s, i, NextPacket(s, i).next)
  {
    AssembledSound(s, i, []);
    if SampleRun(s, i, j) {
      SampleComplete(s, i, j, [], false);
    }
  }

  /** `getEvPacket` reports a bad packet exactly when the sample it skipped held a `SYN_DROPPED`. */
  lemma PacketBadIff(s: seq<Option<InputEvent>>, i: nat, j: nat)
    requires i <= j <= |s|
    ensures (NextPacket(s, i).status == BadPacket && NextPacket(s, i).next == j) <==>
              SampleRun(s, i, j) && HasDrop(s, i, j)
    ensures NextPacket(s, i).status == BadPacket ==> NextPacket(s, i).packet == []
  {
    BadPacketSound(s, i, [], false);
    if SampleRun(s, i, j) {
      SampleComplete(s, i, j, [], false);
    }
  }

  /** `getEvPacket` returns a read error exactly at the first failed read before any `SYN_REPORT`. */
  lemma PacketReadFailedIff(s: seq<Option<InputEvent>>, i: nat, j: nat)
    requires i <= j <= |s|
    ensures (NextPacket(s, i).status == ReadFailed && NextPacket(s, i).next == j) <==> FailRun(s, i, j)
  {
    ReadFailedSound(s, i, [], false);
    if FailRun(s, i, j) {
      FailComplete(s, i, j, [], false);
    }
  }

  /**
    A successful packet is non-empty, ends in `SYN_REPORT` and holds no other
    `SYN_REPORT` and no `SYN_DROPPED`.
   */
  lemma PacketWellFormed(s: seq<Option<InputEvent>>, i: nat)
    requires i <= |s|
    requires NextPacket(s, i).status == Assembled
    ensures var p := NextPacket(s, i).packet;
      && |p| > 0 && IsSynReport(p[|p| - 1])
      && (forall k :: 0 <= k < |p| - 1 ==> !IsSynReport(p[k]))
      && (forall k :: 0 <= k < |p| ==> !IsSynDropped(p[k]))
  {
    var f := NextPacket(s, i);
    PacketAssembledIff(s, i, f.next);
    var p := f.packet;
    assert |p| == f.next - i;
    forall k | 0 <= k < |p|
      ensures s[i + k].Some? && p[k] == s[i + k].value
      ensures k < |p| - 1 ==> !IsSynReport(p[k])
    {
      assert !FaultAt(s, i + k);
      if k < |p| - 1 {
        assert !ReportAt(s, i + k);
      }
    }
    forall k | 0 <= k < |p|
      ensures !IsSynDropped(p[k])
    {
      assert !DropAt(s, i + k);
    }
  }

  /**
    Every packet-assembly attempt from cursor `i` until the stream runs out:
    the packets `GetInput` can be handed, in order.
   */
  function Attempts(s: seq<Option<InputEvent>>, i: nat): (fs: seq<Fetch>)
    requires i <= |s|
    ensures |fs| > 0 && fs[0] == NextPacket(s, i)
    ensures fs[|fs| - 1].status == StreamEnd
    decreases |s| - i
  {
    var f := NextPacket(s, i);
    if f.status == StreamEnd then [f] else [f] + Attempts(s, f.next)
  }

  /** The same attempt made `d` reads further into a longer stream. */
  function ShiftFetch(f: Fetch, d: nat): Fetch {
    f.(next := d + f.next)
  }

  /** Assembly looks only at the outcomes from the cursor on. */
  lemma {:induction false} AssembleShift(s: seq<Option<InputEvent>>, i: nat, k: nat, acc: seq<InputEvent>, bad: bool)
    requires i + k <= |s|
    ensures Assemble(s, i + k, acc, bad) == ShiftFetch(Assemble(s[i..], k, acc, bad), i)
    decreases |s| - (i + k)
  {
    if i + k < |s| {
      assert s[i..][k] == s[i + k];
      if s[i + k].Some? {
        var e := s[i + k].value;
        AssembleShift(s, i, k + 1, if IsSynDropped(e) then [] else if bad then acc else acc + [e],
                      bad || IsSynDropped(e));
      }
    }
  }

  lemma AttemptsCons(s: seq<Option<InputEvent>>, i: nat)
    requires i <= |s|
    ensures NextPacket(s, i).status != StreamEnd ==>
              Attempts(s, i) == [NextPacket(s, i)] + Attempts(s, NextPacket(s, i).next)
    ensures NextPacket(s, i).status == StreamEnd ==> Attempts(s, i) == [NextPacket(s, i)]
  {
  }

  /** The stream runs out only on the last attempt. */
  lemma {:induction false} AttemptsEndOnlyLast(s: seq<Option<InputEvent>>, i: nat, k: nat)
    requires i <= |s| && k < |Attempts(s, i)| - 1
    ensures Attempts(s, i)[k].status != StreamEnd
    decreases k
  {
    AttemptsCons(s, i);
    var f := NextPacket(s, i);
    if k > 0 {
      AttemptsEndOnlyLast(s, f.next, k - 1);
    }
  }
}
