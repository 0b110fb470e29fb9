# Telemetry client Model, in Dafny

This project models the `Model` object of a serial-port telemetry client
(`model.cpp`). The Model keeps three pieces of state and emits Qt signals:

- the **measurement registry** `mMeasurements`, a list that only grows and
  whose entries may be null; a measurement's id is its position in the list;
- the **port-name list** `mPortList`, refreshed once a second by `timerSlot`
  from the ports the system reports, sorted, and replaced (with a
  `serialPortsChanged` signal) only when it differs;
- the **receive loop** `readData`, which feeds each received chunk to the
  current packet and, whenever that packet reports its end, installs a fresh
  packet, parses the finished one and continues with the leftover bytes.

Signals are recorded in an event log (`Telemetry.Event`). The packet framing
(`Packet::addData`, `getRemainingData`, `parse`, declared in `packet.h`) is
not part of this model: a packet is represented by the chunks it has been
fed, and a `Receive.Framing` function, fixed when the Model is built, gives
the status and leftover bytes such a packet reports. A deterministic packet
object answers as a function of its input history, so this is no loss for
the loop itself. A parsed packet is recorded in a log of parsed packets.

Modules: `Base` (optional values, `u8`, `u16`), `Measurements` (the registry
as values and the reference id listing `Ids`), `PortNames` (the `QString`
order, `Sort`, and the uniqueness of sorted lists), `Receive` (the
`readData` loop as a function with fuel, and its corrected form), and
`Telemetry` (the class `Model` whose methods update the fields in place and
are proved against those functions).

A measurement's id is its position in the list: it is assigned when the
entry is appended and is never looked up before an entry is added. Signals
have no subscription list of their own in the model; the event log records
what was emitted, in order.

## Model

| member | source | states |
|---|---|---|
| Measurements.Ids | model.cpp:245-253 | the ids of the non-null entries: strictly ascending, each below the list length, and `i` is listed iff entry `i` is non-null |
| Measurements.IdsAppend | model.cpp:226-228 | appending an entry adds its index at the end of the id listing exactly when the entry is non-null, and keeps every earlier id |
| Measurements.IdsPrefix | model.cpp:226-228 | the registry only grows, so the listing before any additions is a prefix of the listing after them: no id disappears or is renumbered |
| Measurements.AddedIdIsLast | model.cpp:229 | the index announced for a newly added non-null entry is listed, and last |
| PortNames.NameLe | model.cpp:61 | the `QString` order `qSort` sorts by: lexicographic on character codes; a prefix sorts no later than the longer name, and a name sorts first only if its first character does not exceed the other's |
| PortNames.Insert | model.cpp:61 | one step of the sort: inserting a name into a sorted list keeps it sorted and adds exactly that name |
| PortNames.Sort | model.cpp:61 | the sorted port list is sorted in `QString` order and a permutation of the names collected |
| PortNames.SortedUnique | model.cpp:61 | two sorted lists with the same names equally often are equal, so the sorted list is determined by the names alone |
| PortNames.SortIgnoresOrder | model.cpp:54-61 | the refreshed list does not depend on the order in which the ports are enumerated |
| PortNames.ChangedIffDifferentPorts | model.cpp:64-68 | against a sorted stored list, the refreshed list differs iff the multiset of available port names differs |
| Receive.Step | model.cpp:108-125 | one iteration of the loop as written: the parsed log is unchanged, or the framing reported an end and exactly the finished packet is appended to it; a status other than `PACKET_ENDED` leaves `allDataParsed` as it was |
| Receive.Drive | model.cpp:106-129 | the do-while loop as written, for at most `fuel` iterations: when at least one iteration runs, the loop has ended by itself iff `allDataParsed` is true at the end |
| Receive.EndedStep | model.cpp:117-125 | on `PACKET_ENDED`: a fresh empty packet is installed, the finished packet becomes `mFinishedPacket` and is parsed exactly once, the next input is its leftover, and the loop continues iff that leftover is non-empty |
| Receive.OtherStep | model.cpp:111-116 | any other status only feeds the chunk to the current packet; the input and the loop flag are unchanged |
| Receive.NotEndedFirstStops | model.cpp:102-129 | when the first status of a call is not `PACKET_ENDED` the call ends after that single iteration, with nothing parsed |
| Receive.DriveParsesEndedPackets | model.cpp:106-129 | a run only appends to the parsed log, and every packet it parses is one the framing reported as ended |
| Receive.StuckOnLeftover | model.cpp:121-129 | after a leftover has set the flag to false, statuses other than `PACKET_ENDED` keep the loop going and feed the same leftover again on each iteration |
| Receive.ReadDataNeverFinishes | model.cpp:106-129 | for a packet that ends on its first chunk leaving a byte over and then only reports "started", a `readData` call never ends, feeding that byte again on every iteration |
| Receive.StepFixed | model.cpp:108-125 | one iteration of the corrected loop: parses at most the finished packet, and a status other than `PACKET_ENDED` sets the flag that ends the call |
| Receive.DriveFixed | model.cpp:106-129 | the corrected loop for at most `fuel` iterations: when at least one iteration runs, it has ended by itself iff the flag is true at the end |
| Receive.FixedStopsOnOther | model.cpp:111-116 | in the corrected loop a status other than `PACKET_ENDED` ends the call, whatever the loop flag was |
| Receive.FixedTerminates | model.cpp:106-129 | the corrected loop ends within one more iteration than the chunk has bytes, whenever leftovers are shorter than the chunk that produced them |
| Receive.FixedMoreFuel | model.cpp:106-129 | once the corrected loop has ended, allowing more iterations does not change its outcome |
| Telemetry.WidenIds | model.cpp:245-253 | a `uint16_t` id list equal to the reference listing is ascending, bounded by the list length, and names exactly the non-null entries |
| Telemetry.Model.constructor | model.cpp:10-17 | a new Model has no measurements, an empty (non-null) port list, an empty current packet and no events; the constructor leaves `mFinishedPacket` unset, and the model starts it as `None` |
| Telemetry.Model.GetMeasurement | model.cpp:166-169 | the entry at `measID` (possibly null), which is non-null iff the id listing names `measID` |
| Telemetry.Model.GetMeasurementUnit | model.cpp:156-159 | the unit of the non-null entry at `measID` |
| Telemetry.Model.GetMeasurementName | model.cpp:146-149 | the name of the non-null entry at `measID`; with its unit it is the whole entry |
| Telemetry.Model.GetPortList | model.cpp:136-139 | the stored port list, sorted whenever present |
| Telemetry.Model.AddMeasurement | model.cpp:226-230 | the entry is appended, earlier entries are unchanged, exactly one `measurementAdded` is emitted with the index of the entry just added, and the id listing grows accordingly |
| Telemetry.Model.MeasUpdated | model.cpp:236-239 | exactly one `measurementChanged` carrying `mid` is emitted and nothing else changes |
| Telemetry.Model.GetMeasurementIDs | model.cpp:245-253 | returns the ids of the non-null entries, strictly ascending and below the length, equal to the reference listing, without changing anything |
| Telemetry.Model.RefreshPorts | model.cpp:50-68 | the collected names are sorted; the stored list is replaced and exactly one `serialPortsChanged` emitted iff it was null or differs; the stored list stays sorted; against a stored list, the signal fires iff the available names changed as a multiset |
| Telemetry.Model.ReadData | model.cpp:99-130 | the packet fields after at most `fuel` iterations of the loop are those of the reference loop `Receive.Drive`, and the result says whether the loop ended by itself |

## Findings

| source | as written | input that shows it | evidently intended | confidence | as-written member | corrected member |
|---|---|---|---|---|---|---|
| model.cpp:111-129 | statuses other than `PACKET_ENDED` leave `allDataParsed` as it is, so after a packet ends with leftover bytes that do not end the next packet, the loop feeds the same leftover to the current packet again on every iteration and does not end | a chunk [1, 2] that ends the current packet with the byte 2 left over, where the fresh packet fed 2 reports "started" (`Receive.ExampleFraming`) | a status other than `PACKET_ENDED` means the chunk has been handed over, so the call ends | medium, not executed; it depends on how `Packet` answers a repeated chunk, and `packet.h` is not part of this model | Receive.ReadDataNeverFinishes | Receive.FixedTerminates |

`Telemetry.Model.ReadData` models the loop as written; the corrected loop is
`Receive.DriveFixed`, with `Receive.FixedStopsOnOther` and
`Receive.FixedTerminates` proved about it.

## Left out

- Telemetry.Model.ReadData: runs at most `fuel` iterations, because the loop as written need not terminate; a run that needs more is reported as not done rather than modelled.
- Telemetry.Model.ReadData: the packets are values (their histories), so the allocation of `new Packet` and the aliasing of `mFinishedPacket` with the former `mCurrentPacket` are not modelled; `parse` is recorded in a log, and what it does to the measurements is not modelled.
- Telemetry.Model.GetMeasurementIDs: requires at most 65535 entries, because with more the `uint16_t` counter wraps and the loop never ends.
- Telemetry.Model.GetMeasurementName, Telemetry.Model.GetMeasurementUnit: require the entry to exist and be non-null; the source indexes and dereferences it unchecked, which is undefined behaviour otherwise.
- Telemetry.Model.GetMeasurement: requires `0 <= measID < |measurements|`; outside that range `QList::at` is undefined.
- Telemetry.Model.AddMeasurement: the announced index is an unbounded integer; Qt's 32-bit `int` list length is not modelled.
- Packet framing (`Packet::addData`, `getRemainingData`, `parse`): `packet.h` is not part of this model; its behaviour is the `Framing` parameter, and only the four statuses `readData` names are modelled.
- Measurement contents: `measurement.h` is not part of this model; only the name and unit the Model reads are.
- Port enumeration (`QSerialPortInfo::availablePorts`): the available port names are an input of `RefreshPorts`.
- PortNames.NameLe: orders names by character code; `QString` compares UTF-16 code units, which orders characters outside the Basic Multilingual Plane differently.
- The wait on `mParsePacket` at the end of `timerSlot`, the mutex, the timer and the worker thread (`setThread`, `do_continuousConversion`, `abortThread`): concurrency and host plumbing with no effect on the modelled state.
- `openPort` and `closePort`: serial-port configuration, I/O and exceptions.
- `setClientRunning`: a bare store to a field nothing in the model reads.
- Memory management of the lists allocated with `new`.
- `mainwindow.h`: user-interface declarations with no logic.
