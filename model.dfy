/** The `Model` object of the telemetry client: the measurement registry,
    the stored list of serial port names, the packet fields driven by the
    receive loop, and the signals it emits, kept as an event log. */
module Telemetry {
  import opened Base
  import opened Measurements
  import opened PortNames
  import opened Receive

  /** The signals the Model emits, in the order it emits them. */
  datatype Event =
    | MeasurementAdded(index: int)
    | MeasurementChanged(mid: u16)
    | SerialPortsChanged

  /** A list of `uint16_t` ids as integers. */
  function Widen(ids: seq<u16>): (r: seq<int>)
    ensures |r| == |ids|
    ensures forall k :: 0 <= k < |ids| ==> r[k] == ids[k] as int
  {
    if ids == [] then [] else Widen(ids[..|ids| - 1]) + [ids[|ids| - 1] as int]
  }

  lemma WidenAppend(ids: seq<u16>, x: u16)
    ensures Widen(ids + [x]) == Widen(ids) + [x as int]
  {
    assert (ids + [x])[..|ids|] == ids;
  }

  /** Listing one more entry of a registry adds its index when it is non-null. */
  lemma IdsStep(s: Entries, i: int)
    requires 0 <= i < |s|
    ensures Ids(s[..i + 1]) == Ids(s[..i]) + (if s[i].Some? then [i] else [])
  {
    assert s[..i + 1] == s[..i] + [s[i]];
    IdsAppend(s[..i], s[i]);
  }

  /** A `uint16_t` list that widens to the id listing of a registry has the
      listing's properties. */
  lemma WidenIds(ids: seq<u16>, s: Entries)
    requires Widen(ids) == Ids(s)
    ensures forall k :: 0 <= k < |ids| ==> (ids[k] as int) < |s|
    ensures forall k, j :: 0 <= k < j < |ids| ==> ids[k] < ids[j]
    ensures forall i: u16 :: i in ids <==> (i as int) < |s| && s[i].Some?
  {
    forall i: u16 ensures i in ids <==> (i as int) < |s| && s[i].Some? {
      if i in ids {
        var k :| 0 <= k < |ids| && ids[k] == i;
        assert Ids(s)[k] == i as int;
      }
      if (i as int) < |s| && s[i].Some? {
        assert i as int in Ids(s);
        var k :| 0 <= k < |Ids(s)| && Ids(s)[k] == i as int;
        assert ids[k] == i;
      }
    }
  }

  class Model {
    /** How the packets this Model creates behave; packet framing is not
        part of this model. */
    const framing: Framing
    /** `mMeasurements`: grows only, an entry's id is its position. */
    var measurements: Entries
    /** `mPortList`: the last port-name list published. */
    var portList: Option<seq<string>>
    /** `mCurrentPacket`, `mFinishedPacket` and the packets parsed so far. */
    var rx: Receiver
    /** Every signal emitted so far. */
    var events: seq<Event>

    /** The stored port list, when there is one, is sorted. */
    ghost predicate Valid()
      reads this
    {
      portList.Some? ==> Sorted(portList.value)
    }

    constructor (framing: Framing)
      ensures Valid()
      ensures this.framing == framing
      ensures measurements == [] && portList == Some([]) && events == []
      ensures rx == Receiver([], None, [])
    {
      this.framing := framing;
      measurements := [];
      portList := Some([]);
      rx := Receiver([], None, []);
      events := [];
    }

    /** `getMeasurement`: the entry with id `measID`, which may be null;
        it is non-null exactly when the id listing names it. */
    function GetMeasurement(measID: int): (m: Option<Measurement>)
      reads this
      requires 0 <= measID < |measurements|
      ensures m.Some? <==> measID in Ids(measurements)
    {
      measurements[measID]
    }

    /** `getMeasurementUnit`: the unit of the non-null entry `measID`. */
    function GetMeasurementUnit(measID: int): (unit: string)
      reads this
      requires 0 <= measID < |measurements| && measurements[measID].Some?
      ensures exists name :: GetMeasurement(measID) == Some(Measurement(name, unit))
    {
      measurements[measID].value.unit
    }

    /** `getMeasurementName`: the name of the non-null entry `measID`;
        together with its unit it is the whole entry. */
    function GetMeasurementName(measID: int): (name: string)
      reads this
      requires 0 <= measID < |measurements| && measurements[measID].Some?
      ensures GetMeasurement(measID) == Some(Measurement(name, GetMeasurementUnit(measID)))
    {
      measurements[measID].value.name
    }

    /** `getPortList`: the stored port-name list, sorted whenever present. */
    function GetPortList(): (ports: Option<seq<string>>)
      reads this
      requires Valid()
      ensures ports.Some? ==> Sorted(ports.value)
    {
      portList
    }

    /** `addMeasurement`: appends the entry and announces its index, which
        is that of the entry just added. */
    method AddMeasurement(meas: Option<Measurement>)
      requires Valid()
      modifies this`measurements, this`events
      ensures Valid()
      ensures measurements == old(measurements) + [meas]
      ensures events == old(events) + [MeasurementAdded(|measurements| - 1)]
      ensures GetMeasurement(|measurements| - 1) == meas
      ensures forall i :: 0 <= i < |old(measurements)| ==> GetMeasurement(i) == old(GetMeasurement(i))
      ensures Ids(measurements) == Ids(old(measurements)) + (if meas.Some? then [|old(measurements)|] else [])
    {
      IdsAppend(measurements, meas);
      measurements := measurements + [meas];
      events := events + [MeasurementAdded(|measurements| - 1)];
    }

    /** `measUpdated`: announces that measurement `mid` changed, and changes
        nothing else. */
    method MeasUpdated(mid: u16)
      modifies this`events
      ensures events == old(events) + [MeasurementChanged(mid)]
    {
      events := events + [MeasurementChanged(mid)];
    }

    /** `getMeasurementIDs`: the ids of the non-null entries, ascending. The
        counter is a `uint16_t`, so the list must not be longer than 65535
        entries (a longer one makes the counter wrap and the loop run
        forever). */
    method GetMeasurementIDs() returns (ids: seq<u16>)
      requires |measurements| <= 0xFFFF
      ensures forall k :: 0 <= k < |ids| ==> (ids[k] as int) < |measurements|
      ensures forall k, j :: 0 <= k < j < |ids| ==> ids[k] < ids[j]
      ensures forall i: u16 :: i in ids <==> (i as int) < |measurements| && measurements[i].Some?
      ensures Widen(ids) == Ids(measurements)
    {
      ids := [];
      var i: u16 := 0;
      while (i as int) < |measurements|
        invariant (i as int) <= |measurements|
        invariant Widen(ids) == Ids(measurements[..i])
      {
        IdsStep(measurements, i as int);
        if measurements[i].Some? {
          WidenAppend(ids, i);
          ids := ids + [i];
        }
        i := i + 1;
      }
      assert measurements[..i] == measurements;
      WidenIds(ids, measurements);
    }

    /** The port-list part of `timerSlot`: collects the available port
        names, sorts them, and replaces the stored list, announcing the
        change, exactly when there was no stored list or it differs. */
    method RefreshPorts(available: seq<string>)
      requires Valid()
      modifies this`portList, this`events
      ensures Valid()
      ensures var changed := old(portList).None? || old(portList).value != Sort(available);
        && portList == (if changed then Some(Sort(available)) else old(portList))
        && events == old(events) + (if changed then [SerialPortsChanged] else [])
      ensures portList == Some(Sort(available))
      ensures old(portList).Some? ==>
        (events != old(events) <==> multiset(old(portList).value) != multiset(available))
    {
      var names: seq<string> := [];
      for i := 0 to |available|
        invariant names == available[..i]
      {
        names := names + [available[i]];
      }
      assert names == available;
      names := Sort(names);
      if portList.None? || portList.value != names {
        portList := Some(names);
        events := events + [SerialPortsChanged];
      }
      if old(portList).Some? {
        ChangedIffDifferentPorts(old(portList).value, available);
      }
    }

    /** `readData`, for at most `fuel` iterations of its loop: feeds the
        received chunk to the current packet and, each time a packet ends,
        installs a fresh packet, parses the finished one and goes on with
        its leftover bytes. `done` says whether the loop ended by itself. */
    method ReadData(chunk: Bytes, fuel: nat) returns (done: bool)
      modifies this`rx
      ensures rx == Drive(framing, Loop(old(rx), chunk, true), fuel).0.rx
      ensures done == Drive(framing, Loop(old(rx), chunk, true), fuel).1
    {
      var data := chunk;
      var allDataParsed := true;
      var n := fuel;
      done := false;
      ghost var goal := Drive(framing, Loop(rx, chunk, true), fuel);
      while !done && n > 0
        invariant done ==> goal == (Loop(rx, data, allDataParsed), true)
        invariant !done ==> goal == Drive(framing, Loop(rx, data, allDataParsed), n)
        decreases n
      {
        rx := rx.(current := rx.current + [data]);
        var reply := framing(rx.current);
        match reply.status {
          case PacketEnded =>
            var finished := rx.current;
            rx := Receiver([], Some(finished), rx.parsed);
            data := reply.remaining;
            if |data| != 0 {
              allDataParsed := false;
            } else {
              allDataParsed := true;
            }
            rx := rx.(parsed := rx.parsed + [finished]);
          case _ =>
        }
        n := n - 1;
        done := allDataParsed;
      }
    }
  }
}
