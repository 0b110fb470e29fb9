/** The receive loop of the Model (`readData`). The packet framing itself
    (`Packet::addData`, `getRemainingData`, `parse`) is not part of this
    model: a packet is represented by the chunks it has been fed, and a
    `Framing` function gives the status and leftover bytes a packet reports
    after a given history of chunks. Since a packet is a deterministic
    object, whatever it answers is a function of that history. */
module Receive {
  import opened Base

  /** The statuses `Packet::addData` reports and `readData` dispatches on. */
  datatype Status = PacketNone | PacketStarted | PacketFilling | PacketEnded

  /** What a packet reports after it has been fed a chunk: the status
      `addData` returns and the bytes `getRemainingData` then returns. */
  datatype Reply = Reply(status: Status, remaining: Bytes)

  /** The packet framing, an oracle: the reply of a packet that has been fed
      the given chunks, oldest first. */
  type Framing = seq<Bytes> -> Reply

  /** The packet fields of the Model: the packet being filled, the packet
      that was finished last (none before the first), and the packets that
      have been parsed, oldest first. */
  datatype Receiver = Receiver(current: seq<Bytes>, finished: Option<seq<Bytes>>, parsed: seq<seq<Bytes>>)

  /** The local state of one `readData` call between iterations. */
  datatype Loop = Loop(rx: Receiver, data: Bytes, allDataParsed: bool)

  /** One iteration of the do-while loop of `readData`, as written. */
  function Step(framing: Framing, l: Loop): (next: Loop)
    ensures next.rx.parsed == l.rx.parsed
         || (framing(l.rx.current + [l.data]).status == PacketEnded
             && next.rx.parsed == l.rx.parsed + [l.rx.current + [l.data]])
    ensures framing(l.rx.current + [l.data]).status != PacketEnded ==> next.allDataParsed == l.allDataParsed
  {
    var fed := l.rx.current + [l.data];
    var reply := framing(fed);
    if reply.status == PacketEnded then
      Loop(Receiver([], Some(fed), l.rx.parsed + [fed]), reply.remaining, |reply.remaining| == 0)
    else
      Loop(l.rx.(current := fed), l.data, l.allDataParsed)
  }

  /** At most `fuel` iterations of the loop of `readData`, as written; the
      flag says whether the loop condition ended the loop within them. */
  function Drive(framing: Framing, l: Loop, fuel: nat): (r: (Loop, bool))
    ensures fuel > 0 ==> (r.1 <==> r.0.allDataParsed)
    decreases fuel
  {
    if fuel == 0 then (l, false)
    else
      var next := Step(framing, l);
      if next.allDataParsed then (next, true) else Drive(framing, next, fuel - 1)
  }

  /** On `PACKET_ENDED` the finished packet becomes the last finished one,
      a fresh empty packet is installed, the finished packet is parsed
      exactly once, and the next input is its leftover bytes; the loop goes
      on exactly when that leftover is non-empty. */
  lemma EndedStep(framing: Framing, l: Loop)
    requires framing(l.rx.current + [l.data]).status == PacketEnded
    ensures var next := Step(framing, l);
      && next.rx.current == []
      && next.rx.finished == Some(l.rx.current + [l.data])
      && next.rx.parsed == l.rx.parsed + [l.rx.current + [l.data]]
      && next.data == framing(l.rx.current + [l.data]).remaining
      && (next.allDataParsed <==> next.data == [])
  {
  }

  /** Any other status leaves the loop flag and input as they were and only
      feeds the chunk to the current packet. */
  lemma OtherStep(framing: Framing, l: Loop)
    requires framing(l.rx.current + [l.data]).status != PacketEnded
    ensures var next := Step(framing, l);
      && next.rx == l.rx.(current := l.rx.current + [l.data])
      && next.data == l.data
      && next.allDataParsed == l.allDataParsed
  {
  }

  /** A `readData` call whose first status is not `PACKET_ENDED` ends after
      that single iteration, because the flag starts out true. */
  lemma NotEndedFirstStops(framing: Framing, rx: Receiver, data: Bytes, fuel: nat)
    requires fuel >= 1
    requires framing(rx.current + [data]).status != PacketEnded
    ensures Drive(framing, Loop(rx, data, true), fuel)
         == (Loop(rx.(current := rx.current + [data]), data, true), true)
  {
  }

  /** A run only appends to the parsed log, and every packet it parses is
      one the framing reported as ended. */
  lemma {:induction false} DriveParsesEndedPackets(framing: Framing, l: Loop, fuel: nat)
    ensures var out := Drive(framing, l, fuel).0.rx.parsed;
      && |l.rx.parsed| <= |out|
      && out[..|l.rx.parsed|] == l.rx.parsed
      && forall k :: |l.rx.parsed| <= k < |out| ==> framing(out[k]).status == PacketEnded
    decreases fuel
  {
    if fuel > 0 {
      var next := Step(framing, l);
      if !next.allDataParsed {
        DriveParsesEndedPackets(framing, next, fuel - 1);
      }
    }
  }

  /** `n` copies of the chunk `c`. */
  function Repeat(c: Bytes, n: nat): (r: seq<Bytes>)
    ensures |r| == n
    ensures forall k :: 0 <= k < n ==> r[k] == c
  {
    if n == 0 then [] else Repeat(c, n - 1) + [c]
  }

  /** As written, once a leftover chunk has kept the loop going, a status
      other than `PACKET_ENDED` does not end it: the same leftover is fed to
      the current packet again and again, as long as the packet does not
      report an end. */
  lemma {:induction false} StuckOnLeftover(framing: Framing, c: Bytes, j: nat,
                                           finished: Option<seq<Bytes>>, parsed: seq<seq<Bytes>>, fuel: nat)
    requires forall k :: j < k <= j + fuel ==> framing(Repeat(c, k)).status != PacketEnded
    ensures Drive(framing, Loop(Receiver(Repeat(c, j), finished, parsed), c, false), fuel)
         == (Loop(Receiver(Repeat(c, j + fuel), finished, parsed), c, false), false)
    decreases fuel
  {
    if fuel > 0 {
      assert Repeat(c, j) + [c] == Repeat(c, j + 1);
      StuckOnLeftover(framing, c, j + 1, finished, parsed, fuel - 1);
    }
  }

  /** A packet behaviour that shows the defect: fed the chunk [1, 2] it
      reports an end with the byte 2 left over, and any other history is a
      packet that has started but not ended. */
  function ExampleFraming(fed: seq<Bytes>): Reply
  {
    if fed == [[1, 2]] then Reply(PacketEnded, [2]) else Reply(PacketStarted, [])
  }

  /** With that packet behaviour, a `readData` call receiving [1, 2] parses
      one packet and then never ends: after `fuel` iterations the current
      packet has been fed the leftover byte `fuel - 1` times. */
  lemma ReadDataNeverFinishes(fuel: nat)
    requires fuel >= 1
    ensures var (out, done) := Drive(ExampleFraming, Loop(Receiver([], None, []), [1, 2], true), fuel);
      && !done
      && out.rx.current == Repeat([2], fuel - 1)
      && out.rx.parsed == [[[1, 2]]]
  {
    var first := Step(ExampleFraming, Loop(Receiver([], None, []), [1, 2], true));
    assert first == Loop(Receiver([], Some([[1, 2]]), [[[1, 2]]]), [2], false);
    forall k | 0 < k <= fuel - 1 ensures ExampleFraming(Repeat([2], k)).status != PacketEnded {
      assert Repeat([2], k)[0] == [2];
    }
    StuckOnLeftover(ExampleFraming, [2], 0, Some([[1, 2]]), [[[1, 2]]], fuel - 1);
  }

  /** One iteration of the loop as evidently intended: a status other than
      `PACKET_ENDED` means the current packet has taken the whole chunk, so
      all data has been handed over. */
  function StepFixed(framing: Framing, l: Loop): (next: Loop)
    ensures next.rx.parsed == l.rx.parsed
         || (framing(l.rx.current + [l.data]).status == PacketEnded
             && next.rx.parsed == l.rx.parsed + [l.rx.current + [l.data]])
    ensures framing(l.rx.current + [l.data]).status != PacketEnded ==> next.allDataParsed
  {
    var fed := l.rx.current + [l.data];
    var reply := framing(fed);
    if reply.status == PacketEnded then
      Loop(Receiver([], Some(fed), l.rx.parsed + [fed]), reply.remaining, |reply.remaining| == 0)
    else
      Loop(l.rx.(current := fed), l.data, true)
  }

  /** At most `fuel` iterations of the corrected loop. */
  function DriveFixed(framing: Framing, l: Loop, fuel: nat): (r: (Loop, bool))
    ensures fuel > 0 ==> (r.1 <==> r.0.allDataParsed)
    decreases fuel
  {
    if fuel == 0 then (l, false)
    else
      var next := StepFixed(framing, l);
      if next.allDataParsed then (next, true) else DriveFixed(framing, next, fuel - 1)
  }

  /** A packet never reports more leftover bytes than the chunk it was just
      fed, once that chunk ended it. */
  ghost predicate LeftoverShrinks(framing: Framing)
  {
    forall fed: seq<Bytes> :: |fed| > 0 && framing(fed).status == PacketEnded ==>
      |framing(fed).remaining| < |fed[|fed| - 1]|
  }

  /** In the corrected loop every chunk is fed exactly once: a status other
      than `PACKET_ENDED` ends the call, whatever the loop flag was. */
  lemma FixedStopsOnOther(framing: Framing, l: Loop, fuel: nat)
    requires fuel >= 1
    requires framing(l.rx.current + [l.data]).status != PacketEnded
    ensures DriveFixed(framing, l, fuel)
         == (Loop(l.rx.(current := l.rx.current + [l.data]), l.data, true), true)
  {
  }

  /** The corrected loop ends within one iteration more than the chunk has
      bytes, whenever leftovers are shorter than the chunk that produced
      them. */
  lemma {:induction false} FixedTerminates(framing: Framing, l: Loop)
    requires LeftoverShrinks(framing)
    ensures DriveFixed(framing, l, |l.data| + 1).1
    decreases |l.data|
  {
    var fed := l.rx.current + [l.data];
    var next := StepFixed(framing, l);
    if !next.allDataParsed {
      assert framing(fed).status == PacketEnded;
      assert |next.data| < |l.data|;
      FixedTerminates(framing, next);
      FixedMoreFuel(framing, next, |next.data| + 1, |l.data|);
    }
  }

  /** Once the corrected loop has ended within some fuel, more fuel does not
      change its outcome. */
  lemma {:induction false} FixedMoreFuel(framing: Framing, l: Loop, fuel: nat, more: nat)
    requires DriveFixed(framing, l, fuel).1
    requires fuel <= more
    ensures DriveFixed(framing, l, more) == DriveFixed(framing, l, fuel)
    decreases fuel
  {
    var next := StepFixed(framing, l);
    if !next.allDataParsed {
      FixedMoreFuel(framing, next, fuel - 1, more - 1);
    }
  }
}
