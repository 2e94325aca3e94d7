# Verification model of the aggregator demo

A Dafny model of an electric-bus depot aggregator: how an optimized schedule is computed, approved,
and turned into power at a controller. It covers four parts.

**Dispatch to the controller.** An operator-approved interval of a finished run is checked by an
ordered policy gate (`DispatchPolicy`, `DispatchEvidence`), passed to a gateway that checks freshness,
replay and power range (`OtGateway`, `ReplayProtection`), and sent by a retrying Modbus/TCP client
(`ModbusClient`, `ModbusStream`, `ModbusCodec`) to a programmable controller (`PlcSimulator`), whose
reaction to a request is specified in `PlcSpec`. `WireFormat` and `ControllerRules` state the frames and the
controller's reaction byte by byte and register by register. Frames are byte sequences (MODBUS Application
Protocol V1.1b3, sections 4.2, 6.3, 6.12 and 7; MODBUS Messaging on TCP/IP Implementation Guide V1.0b,
section 3.1.3). The network loses requests, loses or truncates replies, and splits the byte stream
arbitrarily; what it does to each attempt is an input, so it is stated exactly when a call succeeds. The main result is `DispatchPolicy.PowerIsAlwaysJustified`: however commits and
operations interleave, and however old the rows an operation decided on, the controller's power is
zero or belongs to an interval that is approved in that very state, provided every update of an
approved run lands safely (`DispatchPolicy.PowerFlowsOnlyByApproval` says it in the columns of the rows).
Every operation of `DispatchEvidenceRepository` is proved to be such a step.
`ValidationGate` says what that interval was validated for, given that passing results come from the
optimizer: it is a step of a feasible plan of the run's own model, the plan whose series the run stores,
and that plan serves every active trip step and keeps the reserve (`ValidationGate.DeliveredPowerIsPlanned`).

**Runs and approvals.** Every call of the run and approval repositories reads its rows at one point of
a history and commits at a later one; the commit carries the rows it read (`RunLifecycle`). The classes
in `RunRepository` and `NoticeRepository` are proved to perform exactly those commits, with other
parties' commits in between (`RowRules` states the table of statuses and the sweep in columns). Nothing re-tests a row at the commit, except that a claim tests the status
in its update: the engine sets no isolation level (aggregator_demo/database.py:287-299), PostgreSQL
(compose.yaml:38 and 80) then runs at READ COMMITTED, there is no lock or version column, and an update
by primary key writes the columns the call changed.

Some facts need no more than that and hold in every history: no run disappears, keys stay unique, what a
run was submitted with, its start time and its approval never change, the stored hash is the hash of the
stored result (for a digest that tells results apart), a recovery lies between two claims, and a row names
the worker that claimed it last unless the run was recovered. The row invariant at every point together
with all write-once facts, among them that finished rows and results never change, holds of a run if and
only if every update of that run lands safely (`RunLifecycle.RunIsSoundIff`; for all runs at once
`RunLifecycle.SoundIffSafe`), in particular when no updated row has changed since it was read. The theorems
about an approval, a notice or the power ask this of the runs they are about and of no others; the
accounting of claims asks one condition more (`ClaimAccounting.AccountedIffCounted`). `RunRaces` has the
histories in which it fails.

**Scheduling.** The constraint systems of the remaining-horizon and day-ahead models are predicates
over assignments (`FleetEnergy`, `DayAhead`, `HorizonWindows`), with conservation proved from them.
`Lexicographic` is the staged solve over an abstract solver, `ReserveLockout` an instance on a depot,
`ServiceEvents` the event extraction, `SeriesResampling` the resampling of series and multiplier
boundaries, and `ValidationGate` the validation of a result.

**GridTwin algorithms.** Bisection for the hosting limit (`HostingLimit`), greedy charging
(`GreedyCharging`), the hash-chained audit trail (`AuditChain`) and the two-bus operating point
(`TwoBus`).

Where the source changes state, a class with the same fields is proved against a pure specification,
and the theorems are lemmas about the specification. kW and kWh are `real`; rounding is to the nearest
integer with ties to even. The clock, the solver, the power flow, the digest of a result and of an
audit record, and what other parties commit, and when, are parameters.

## What the code does that its documentation does not say

The model follows the code. These points came out of the proofs.

- The controller stores registers 100-102 before it computes the signed measured power, which does not
  fit from 3276.8 kW on. The register invariant therefore holds exactly below that capacity, and the
  default capacity of 6400 kW is above it (`PlcSpec.AlwaysConsistentIffCapacityMeasurable`).
- Safe state is not latched: any dispatch carried out later leaves it (`PlcSpec.LeavesSafeStateIff`).
- A safe-state frame with nonzero power can be encoded and is refused by the decoder
  (`ModbusCodec.DispatchRoundTrip`).
- Returning a running run to the queue is not in the transition table, and the table's edges from a
  cancellation request to succeeded and failed are never taken (`RunLifecycle.StatusMoves`).
- A cancellation or a recovery sweep that read a run while it was running can overwrite it after it
  succeeded and was approved: a finished row changes, an approval sits on a run that is not succeeded,
  and a second result can replace the first (`RunRaces.CancellationOverwritesAnApprovedRun`,
  `RunRaces.RecoveryReplacesAResult`; the exact condition is in `RunLifecycle.RunIsSoundIff`).
- A report of infeasibility, a time-out or degradation is dropped, and its caller raises, exactly when the
  run is back in the queue (`RunRaces.ReportIsDroppedIff`, `RunRaces.LateInfeasibilityIsDropped`).
- Completion does not compare worker ids, so a stale worker may be the one whose result is committed
  (`RunRaces.CompletionIgnoresTheWorker`, `RunRaces.AStaleWorkerCommits`; exactly when the row names the
  committer is in `RunRaces.CommitterIsNamedIff`).
- A dispatch whose input is missing, whose time step is zero, or whose site has no capacity raises
  without leaving evidence (`DispatchEvidence.DispatchEvidenceRepository.Dispatch`).
- The site envelope check can refuse an optimizer result only when the model lets a charger move more than
  the rating the check adds up, as a derating above the rating or two differing ratings of one charger do
  (`ValidationGate.EnvelopeNeverRefuses`).
- A bus with identifier 0 covers a trip that is nevertheless flagged as unserved
  (`ServiceEvents.FlaggedIffUnmet`).
- The termination condition "infeasible" passes the usability test (`Lexicographic.InfeasibleLooksUsable`),
  and a lexicographic minimum is guaranteed exactly when tolerances and gaps are zero, which the defaults
  are not (`Lexicographic.MinimumIsGuaranteedIffNoSlack`). On a depot the tolerance can cost the reserve:
  a plan that falls short of it locks out an idle one that does not (`ReserveLockout.ToleranceCostsTheReserve`).
- In the day-ahead model energy bought in the first step is lost, and the end-of-day constraint is
  redundant (`DayAhead.FirstPurchaseIsLost`, `DayAhead.EndOfDayConstraintIsRedundant`).
- Rounding can raise the published hosting limit above the largest safe import found, exactly when margin
  and rounding raise one of the values the search can end at (`HostingLimit.SafeForEveryFeederIff`).
- The closed-form voltage can answer zero or leave by a domain error although its discriminant is not
  negative (`TwoBus.OtherAnswersOfTheClosedForm`).

## Model

| member | source | states |
|---|---|---|
| ModbusCodec.SignedRegister | aggregator_demo/modbus_tcp.py:61-70 | A signed register that exists lies within half a unit (0.05 kW) of the value it encodes. |
| ModbusCodec.SignedRegisterOfTenths | aggregator_demo/modbus_tcp.py:61-70 | The signed register of a whole number of tenths exists exactly from -32768 to 32767, and reading it back gives that number. |
| ModbusCodec.UnsignedRegisterDomain | aggregator_demo/modbus_tcp.py:54-58 | A nonnegative power has an unsigned register exactly below 6553.55 kW; the tie at 6553.55 rounds out of range. |
| ModbusCodec.EncodeDispatchDomain | aggregator_demo/modbus_tcp.py:81-91 | Encoding a command succeeds exactly for 16-bit transaction ids, unit ids 1 to 247 and setpoints strictly inside ±6553.55 kW. |
| ModbusCodec.TenthsOfSetpoint | aggregator_demo/modbus_tcp.py:85-91 | The import and export registers of a setpoint are never both nonzero, their difference is the setpoint rounded half to even, and it is within 0.05 kW. |
| ModbusCodec.PackUnpackWords | aggregator_demo/modbus_tcp.py:163-168 | Packing inverts unpacking on every even number of bytes. |
| ModbusCodec.UnpackPackWords | aggregator_demo/modbus_tcp.py:192-208 | Unpacking inverts packing on every sequence of 16-bit words. |
| ModbusCodec.FramingIsABijection | aggregator_demo/modbus_tcp.py:147-153 | A frame decodes to an ADU if and only if it is that ADU framed: header decoding accepts nothing else. |
| ModbusCodec.DecodeCommandIff | aggregator_demo/modbus_tcp.py:103-131 | A write PDU decodes to a command if and only if the command is well formed and the PDU is its encoding. |
| ModbusCodec.DecodeDispatchIffFrame | aggregator_demo/modbus_tcp.py:103-131 | A byte string is accepted as a command if and only if it is the frame of that well-formed command. |
| ModbusCodec.DispatchRoundTrip | aggregator_demo/modbus_tcp.py:73-131 | Decoding inverts encoding: exact ids and flag, setpoint within 0.05 kW; a safe-state frame whose power does not round to zero encodes but is refused by the decoder. |
| ModbusCodec.DispatchCanonical | aggregator_demo/modbus_tcp.py:73-131 | Encoding inverts decoding: every accepted frame for a device unit is the encoding of what it decodes to. |
| ModbusCodec.ReadRequestRoundTrip | aggregator_demo/modbus_tcp.py:134-153 | A read request encodes exactly for valid ranges and decodes to its address and quantity. |
| ModbusCodec.WriteResponseIffAcknowledged | aggregator_demo/modbus_tcp.py:156-189 | A write response is accepted if and only if it is the acknowledgement frame for that transaction and unit. |
| ModbusCodec.ReadResponseIffEncoded | aggregator_demo/modbus_tcp.py:163-208 | A read response decodes to a list of registers if and only if it is the encoding of that list. |
| ModbusCodec.ExceptionIsNeverAnAnswer | aggregator_demo/modbus_tcp.py:171-214 | No exception frame is ever taken for a write acknowledgement or for register values. |
| WireFormat.FrameBytes | aggregator_demo/modbus_tcp.py:92-100 | Every frame byte by byte: transaction id and length most significant byte first, protocol 0, unit, function, payload. |
| WireFormat.CommandFrame | aggregator_demo/modbus_tcp.py:73-100 | The 19 bytes of every encoded command, in plain arithmetic: id, 0 0 0 13, unit, 16, 0 100 0 3 6, the import and export tenths and the mode, each most significant byte first. |
| WireFormat.ReadRequestFrame | aggregator_demo/modbus_tcp.py:134-144 | A read request is encoded exactly for a 16-bit address and 1 to 125 registers; its 12 bytes. |
| WireFormat.AcknowledgementFrame | aggregator_demo/modbus_tcp.py:156-160 | The 12 bytes of the acknowledgement of a command: function 16, register 100, three registers. |
| WireFormat.ReadResponseFrame | aggregator_demo/modbus_tcp.py:163-168 | The bytes of a read response: function 3, twice the number of registers, then each register most significant byte first. |
| WireFormat.ExceptionFrame | aggregator_demo/modbus_tcp.py:171-175 | The nine bytes of an exception: the function with its top bit set and the code. |
| WireFormat.AcceptedHeader | aggregator_demo/modbus_tcp.py:147-153 | Which byte strings are taken apart as requests: at least 8 bytes, protocol 0 and the right length; and into what. |
| WireFormat.AcceptedCommandFrame | aggregator_demo/modbus_tcp.py:103-131 | Which 19 bytes are a command: the right block, power in one direction at most, mode 0 or 1, no power in safe state; and which command. |
| WireFormat.ReceivedFrame | aggregator_demo/modbus_tcp.py:217-224 | Which byte strings begin with a whole frame, and which frame: protocol 0, a length of 2 to 254, and that many bytes. |
| WireFormat.AnyExceptionIsReported | aggregator_demo/modbus_tcp.py:211-214 | A response whose function has its top bit set is reported as the exception of its first byte, or 0 without one. |
| ModbusStream.ByteStream.constructor | aggregator_demo/modbus_tcp.py:227-234 | A stream holds the concatenation of its pieces. |
| ModbusStream.ByteStream.Recv | aggregator_demo/modbus_tcp.py:227-234 | A receive returns a nonempty prefix of what is pending, no longer than asked, and removes exactly that; nothing only at the end. |
| ModbusStream.ReceiveExact | aggregator_demo/modbus_tcp.py:227-234 | However the bytes are split, exactly `size` bytes are returned and consumed, or an error when fewer are pending. |
| ModbusStream.ReceiveFrame | aggregator_demo/modbus_tcp.py:217-224 | The frame read off any splitting of a byte string is the one the specification reads off the whole string, and no later byte is consumed. |
| ModbusStream.FirstFrameIsDelivered | aggregator_demo/modbus_tcp.py:217-224 | From an encoded frame followed by anything, exactly that frame is delivered. |
| ModbusStream.FrameIsDelivered | aggregator_demo/modbus_tcp.py:217-224 | The same for any frame whose header decodes and whose length is legal. |
| ModbusStream.TruncationIsNeverAFrame | aggregator_demo/modbus_tcp.py:217-224 | A frame cut short anywhere is never delivered as a frame. |
| PlcSpec.WriteAcceptance | aggregator_demo/plc_simulator.py:86-187 | A request is executed exactly when it comes from an allowed peer, addresses unit 1, is accepted by the command decoder and is within capacity; every other request changes only alarms and heartbeat and is not acknowledged; an executed one whose net power does not fit the signed register is half stored and raises. |
| PlcSpec.RequestKeepsConsistent | aggregator_demo/plc_simulator.py:86-187 | Below 3276.8 kW capacity one request keeps the register invariant and never raises. |
| PlcSpec.RunKeepsConsistent | aggregator_demo/plc_simulator.py:86-187 | Below 3276.8 kW capacity every request sequence keeps it: import and export never both nonzero and within capacity, measured value their difference, and safe mode, safe controller state and the safe alarm bit equivalent and at zero power. |
| PlcSpec.OverRangeImportTears | aggregator_demo/plc_simulator.py:148-162 | At or above 3276.8 kW capacity an import of 3276.8 kW is stored in registers 100-102, raises, and breaks the invariant. |
| PlcSpec.AlwaysConsistentIffCapacityMeasurable | aggregator_demo/plc_simulator.py:72-80 | From the initial registers the invariant holds under all request sequences if and only if capacity is below 3276.8 kW. |
| PlcSpec.ReactIgnoresHeartbeat | aggregator_demo/plc_simulator.py:86-122 | What a frame does to the other registers does not depend on the heartbeat. |
| PlcSpec.RepeatedIsOnce | aggregator_demo/plc_simulator.py:86-187 | Any positive number of deliveries of one frame changes the controller as one delivery does, except for the heartbeat. |
| PlcSpec.HeartbeatCountsDeliveries | aggregator_demo/plc_simulator.py:107-109 | The heartbeat counts the deliveries that reach unit 1, wrapping at 16 bits. |
| PlcSpec.LeavesSafeStateIff | aggregator_demo/plc_simulator.py:124-171 | Safe state is not latched: a request leaves it if and only if it carries out an ordinary dispatch command, whatever its power. |
| ControllerRules.BeforeTheRegisters | aggregator_demo/plc_simulator.py:86-106 | In bytes: a broken header is not answered, a foreign peer gets exception 1 and raises its alarm, another unit gets exception 11 and changes nothing. |
| ControllerRules.EveryRequestTicks | aggregator_demo/plc_simulator.py:107-122 | Every request for unit 1 moves the heartbeat; a function other than 3 and 16 does nothing else and gets exception 1. |
| ControllerRules.WriteRules | aggregator_demo/plc_simulator.py:124-187 | Function 16 in bytes and register numbers: which exception each malformed or excessive write gets, with the alarm it raises; what every other write stores in each register, and when it is only half stored. |
| ControllerRules.ReadRules | aggregator_demo/plc_simulator.py:189-230 | Function 3 in bytes: which exception an illegal or out-of-map read gets, with the alarm it raises; what value each register shows otherwise. |
| ControllerRules.ReplyRules | aggregator_demo/plc_simulator.py:86-230 | The bytes of every reply, and exactly when there is none. |
| PlcSimulator.SimulatedSiteController.constructor | aggregator_demo/plc_simulator.py:59-80 | The initial register values. |
| PlcSimulator.OrBitSetsTheFlag | aggregator_demo/plc_simulator.py:173-176 | Or-ing an alarm bit into the alarm word sets that flag and no other. |
| PlcSimulator.SimulatedSiteController.RaiseAlarm | aggregator_demo/plc_simulator.py:92-94 | Raises one alarm flag and changes nothing else. |
| PlcSimulator.SimulatedSiteController.InvalidWrite | aggregator_demo/plc_simulator.py:173-187 | Flags an invalid write and answers with the exception frame. |
| PlcSimulator.SimulatedSiteController.StoreCommand | aggregator_demo/plc_simulator.py:146-171 | Carries a command out completely, or stores registers 100-102 and raises when the net power is not measurable. |
| PlcSimulator.SimulatedSiteController.HandleWrite | aggregator_demo/plc_simulator.py:124-171 | Register state and reply frame are those of the specified reaction to a write, checked register by register where the specification goes through the decoder. |
| PlcSimulator.SimulatedSiteController.CollectValues | aggregator_demo/plc_simulator.py:227-230 | Reads the requested registers, zero for addresses the snapshot range leaves undefined. |
| PlcSimulator.SimulatedSiteController.HandleRead | aggregator_demo/plc_simulator.py:189-230 | Register state and reply frame are those of the specified reaction to a read. |
| PlcSimulator.SimulatedSiteController.HandleRequest | aggregator_demo/plc_simulator.py:86-122 | For every byte string and peer, register state, reply and exceptions are those of the specified reaction. |
| ModbusClient.AcknowledgedMeansExecuted | aggregator_demo/modbus_tcp.py:273-283 | A reply that passes the write-response check comes only from an executed write. |
| ModbusClient.AcknowledgedWriteHolds | aggregator_demo/modbus_tcp.py:273-283 | An acknowledged command frame leaves the controller holding the encoded setpoint, mode and state. |
| ModbusClient.HeldRegisters | aggregator_demo/plc_simulator.py:146-171 | A held command in register numbers: tenths each way, mode 0 or 1, net power as a signed word, state 2 or 3, no alarm but that of the safe state. |
| ModbusClient.CommandAnswer | aggregator_demo/plc_simulator.py:124-187 | The controller acknowledges an encoded command, with 12 bytes, exactly when its tenths are within the site capacity, their difference fits the signed register and a safe state asks for none; otherwise it refuses with 9 bytes or raises without a reply. |
| ModbusClient.CommandReplyIsRecognised | aggregator_demo/modbus_tcp.py:178-214 | Its acknowledgement passes the write-response check, its refusal is reported with the exception code. |
| ModbusClient.ArrivalsAreCounted | aggregator_demo/modbus_tcp.py:255-271 | The number of deliveries is the number of the attempts made that arrive. |
| ModbusClient.ModbusTcpClient.Attempt | aggregator_demo/modbus_tcp.py:255-262 | One attempt, as the conduit has it: lost, or handled once with the given number of bytes of the reply coming back, in any splitting. |
| ModbusClient.ModbusTcpClient.Exchange | aggregator_demo/modbus_tcp.py:255-271 | It returns exactly if one of the first retries + 1 attempts brings back a whole reply, with that reply and the number of the first such attempt; the controller has handled the frame exactly as often as an attempt arrived up to then, or in all. |
| ModbusClient.CommandOutcome | aggregator_demo/modbus_tcp.py:255-283 | For a command an attempt succeeds exactly when it lets the 12 bytes of the acknowledgement, or the 9 of the refusal, through; never if the controller raises. |
| ModbusClient.ModbusTcpClient.WriteSetpoint | aggregator_demo/modbus_tcp.py:273-283 | It returns exactly if the controller acknowledges the command and one of the attempts lets the acknowledgement through; the controller then holds the command. The error says which of the two failed. Once any attempt arrives the command has taken effect as one delivery, else nothing has changed. |
| ModbusClient.ModbusTcpClient.TakeSnapshot | aggregator_demo/modbus_tcp.py:299-316 | It returns exactly if one of the attempts lets 71 bytes through, reports the controller registers, and changes none of them but the heartbeat, which moves once for every attempt that arrives. |
| ModbusClient.SnapshotFields | aggregator_demo/modbus_tcp.py:299-316 | The fields of a snapshot in register numbers: tenths of a kW, the measured value signed, three alarm bits. |
| ModbusClient.SnapshotReadsOnly | aggregator_demo/modbus_tcp.py:299-316 | The snapshot request is answered with the 31 registers and stores nothing. |
| ReplayProtection.AppendToMemory | aggregator_demo/ot_gateway.py:333-338 | Appending to the remembered ids and trimming is remembering the last N ids of the longer history. |
| ReplayProtection.ReachableExtends | aggregator_demo/ot_gateway.py:304-338 | Admitting an admissible command keeps the history one the gateway can have. |
| ReplayProtection.NearbyIdsDiffer | aggregator_demo/ot_gateway.py:324-338 | Any N + 1 consecutive admissions have pairwise different ids, so the memory never holds an id twice. |
| ReplayProtection.ReadmissionNeedsEviction | aggregator_demo/ot_gateway.py:304-338 | An id comes back only after N others, and an identical command only within max age plus max skew of its first admission. |
| ReplayProtection.NeverAdmittedTwice | aggregator_demo/ot_gateway.py:304-338 | If at most N commands are admitted in that time after a command, the identical command is never admitted again, in any history. |
| ReplayProtection.ReplayAfterEviction | aggregator_demo/ot_gateway.py:324-338 | The bound is tight: after N others the identical command is admitted a second time. |
| OtGateway.AdmissionCodes | aggregator_demo/ot_gateway.py:304-338 | In times and positions only: exactly when a command is refused as having an invalid window, as from the future, as stale, or as replayed (its identifier is among the last N of the history). |
| OtGateway.EnvelopeCodes | aggregator_demo/ot_gateway.py:162-170 | Exactly when a power request is refused as not finite, or as beyond the site capacity or 6553.5 kW by more than 1e-7. |
| OtGateway.ExchangedFrames | aggregator_demo/ot_gateway.py:171-177 | The frames in a response byte by byte: the low 16 bits of the command identifier, the tenths and the mode, and the acknowledgement. |
| OtGateway.CorePower | aggregator_demo/ot_gateway.py:171-192 | A command frame leaves the commanded power as it was or sets it to the encoded setpoint. |
| OtGateway.CoreHolds | aggregator_demo/ot_gateway.py:171-192 | A command the controller takes is held once an attempt has arrived. |
| OtGateway.DispatchGateway.constructor | aggregator_demo/ot_gateway.py:137-156 | A new gateway remembers nothing. |
| OtGateway.DispatchGateway.ValidateWindow | aggregator_demo/ot_gateway.py:304-322 | In times only: exactly when each of the three window codes is the answer, and when none is. |
| OtGateway.DispatchGateway.RejectReplay | aggregator_demo/ot_gateway.py:324-338 | Refuses exactly the ids among the last N admitted ones; otherwise admits, and the cache is again the last N admitted ids. |
| OtGateway.DispatchGateway.BestEffortSafeState | aggregator_demo/ot_gateway.py:340-349 | It reports success exactly if the controller takes zero power and the acknowledgement comes back; once an attempt arrives the controller is at zero power in safe state, and if none does nothing has changed. |
| OtGateway.DispatchGateway.WriteAndReadBack | aggregator_demo/ot_gateway.py:172-180 | The exchange common to both: it succeeds exactly if the controller takes the command and acknowledgement and readback come back. |
| OtGateway.DispatchGateway.Dispatch | aggregator_demo/ot_gateway.py:158-217 | Exactly when each refusal is the answer, in times, identifiers and kW; a refused command does not reach the controller, and whatever reaches it was inside its window, not replayed and inside the envelope. Any other command is answered exactly if the controller takes it and acknowledgement and readback come back. Otherwise the fallback is tried: it is reported as applied exactly if acknowledged, and without it the controller is as the command left it. |
| OtGateway.DispatchGateway.SafeState | aggregator_demo/ot_gateway.py:219-261 | The same for the emergency command, with no envelope check and no fallback: exactly when each refusal is the answer, exactly when it succeeds, and zero power in safe state once an attempt arrives. |
| OtGateway.DispatchGateway.ControllerStatus | aggregator_demo/ot_gateway.py:263-302 | By the heartbeat that is read: the registers are answered unless they cannot be read or the same heartbeat has been seen for too long; exactly in the second case zero power is asked for, and success reported exactly if acknowledged. |
| DispatchPolicy.AuthorisedIsStable | aggregator_demo/dispatch_repository.py:113-239 | If every update of the approved run lands safely, whatever happens to other runs, an interval authorised on a run and an approval read at any two earlier points is authorised, with the same setpoint, in the state as it is now. |
| DispatchPolicy.MoveKeepsJustified | aggregator_demo/dispatch_repository.py:227-319 | A move of the controller decided on earlier rows leaves a power the present rows justify, if nothing write-once of the runs approved by then has changed since. |
| DispatchPolicy.PowerIsAlwaysJustified | aggregator_demo/dispatch_repository.py:95-422 | In every reachable state of every interleaving of commits and supervised operations, however old the rows an operation decided on, the controller power is zero or that of an interval authorised in that very state, provided every update of an approved run lands safely; other runs may lose updates. |
| DispatchPolicy.PowerFlowsOnlyByApproval | aggregator_demo/dispatch_repository.py:143-239 | The same in the columns of the rows: nonzero power means a succeeded, validated run with a row that says approved and carries the very result hash of the run, an interval inside both series, its power within 0.05 kW and inside the summed charger ratings. |
| DispatchPolicy.TotalIsTheSum | aggregator_demo/dispatch_repository.py:223-225 | The site capacity is the sum of the charger ratings. |
| DispatchPolicy.SafeTailsLandSafely | aggregator_demo/dispatch_repository.py:95-422 | In such a history what is committed after any point lands safely on every run approved by the end, which is what the conditional promises of the dispatch operations ask for. |
| DispatchPolicy.RaceLeavesPowerUnjustified | aggregator_demo/run_repository.py:335-377 | With an approved run that loses an update it fails: after the cancellation race the approval is still there and no nonzero power is justified. |
| DispatchPolicy.JustifiedPowerInKw | aggregator_demo/dispatch_repository.py:226-239 | Justified power is zero or within 0.05 kW of (bought - sold) * 60 / minutes for an in-horizon interval of a succeeded, validated run whose approval carries its result hash. |
| DispatchEvidence.AnswerByRows | aggregator_demo/dispatch_repository.py:113-222 | Condition by condition in the columns of the run and approval rows and the request: code, status and recorded checks of the answer, for each of the six conditions that need only stored rows. |
| DispatchEvidence.IntervalByRows | aggregator_demo/dispatch_repository.py:223-319 | The same from the input on: missing input, envelope, gateway, site without capacity, refusal, failed exchange, acceptance. |
| DispatchEvidence.EventColumns | aggregator_demo/dispatch_repository.py:528-597 | Which event accompanies an attempt, and how severe it is. |
| DispatchEvidence.DispatchEvidenceRepository.Persist | aggregator_demo/dispatch_repository.py:528-597 | Adds exactly one attempt and one event for it. |
| DispatchEvidence.DispatchEvidenceRepository.Reject | aggregator_demo/dispatch_repository.py:485-526 | Records the refusal with exactly one attempt and one matching event, and reports it. |
| DispatchEvidence.DispatchEvidenceRepository.Require | aggregator_demo/dispatch_repository.py:444-464 | Adds the condition to the recorded checks; a failing one is the first failing condition and ends the call with its code and status. |
| DispatchEvidence.DispatchEvidenceRepository.PolicyGate | aggregator_demo/dispatch_repository.py:117-222 | The six conditions on stored rows are checked in order; the first that fails decides code, status and recorded checks (which condition that is, in columns, is in `DispatchEvidence.AnswerByRows`). |
| DispatchEvidence.DispatchEvidenceRepository.Dispatch | aggregator_demo/dispatch_repository.py:95-319 | With others committing between the reads of run and approval and before the gateway call, and any network: the first failing condition on the rows read, or else gateway and network, fixes the answer and the one attempt and one event left behind. In columns: acceptance means a succeeded run, an approval row that says approved with the hash of the result, passing validation and an interval in the series; each of these failing first gives its own code and sends nothing. Accepted, the controller holds the derived setpoint; after a failed exchange it is at zero in safe state once the fallback arrives. If what others commit is safe for the approved runs, the power is justified by the store as it is afterwards. |
| DispatchEvidence.DispatchEvidenceRepository.Decide | aggregator_demo/dispatch_repository.py:117-319 | The same for the part after the rows have been read. |
| DispatchEvidence.DispatchEvidenceRepository.DispatchInterval | aggregator_demo/dispatch_repository.py:223-319 | The part from the input on: a missing input, a zero time step or a site without capacity raises without evidence; otherwise answer, attempt and event are fixed by envelope and gateway. |
| DispatchEvidence.DispatchEvidenceRepository.Send | aggregator_demo/dispatch_repository.py:257-319 | The gateway call and what is recorded of it, exactly by the reason to refuse and by whether the exchange succeeds. |
| DispatchEvidence.DispatchEvidenceRepository.SafeState | aggregator_demo/dispatch_repository.py:321-422 | Code, status and check in every case, by credential, gateway, refusal and network, with one attempt and one event; acceptance means zero power in safe state, an admitted request is carried out once an attempt arrives, and without credential or gateway nothing is sent. |
| DispatchEvidence.DispatchEvidenceRepository.WatchController | aggregator_demo/ot_gateway.py:263-302 | The heartbeat watch answers as the gateway does, reaches the controller only when a heartbeat is stale, and keeps the power justified. |
| DispatchEvidence.DispatchEvidenceRepository.OtherCommit | aggregator_demo/run_repository.py:94-377 | A commit by anybody else that is safe for the approved runs keeps the running power justified. |
| RunLifecycle.UpdateIsSoundIff | aggregator_demo/run_repository.py:219-377 | An update computed from a row as it was read keeps the row invariant, terminal rows, results, hashes and start times if and only if it is safe on the row as it is now: it intends nothing, or a finished row already holds what it writes, or an unfinished one is not queued when marked for cancellation and its recovery count does not fall. |
| RunLifecycle.FinishedKeepsItsStatus | aggregator_demo/run_repository.py:219-377 | On a finished row only an update that intends nothing, or the very status the row has, can be safe. |
| RunLifecycle.CommitIsSoundForIff | aggregator_demo/run_repository.py:94-377 | The same for one run, its approval and every commit: exactly the commits whose update of the run is safe, and whose approval finds the result it was decided on, keep it in order. |
| RunLifecycle.CommitIsSoundIff | aggregator_demo/run_repository.py:94-377 | The same for the whole store, idempotency keys included. |
| RunLifecycle.RunIsSoundIff | aggregator_demo/database.py:287-299 | Reads and commits are separate steps. Along every history one run is in order at every point, and nothing write-once of it changes, if and only if every update of that run lands safely, whatever happens to the other runs. |
| RunLifecycle.RunStaysInOrder | aggregator_demo/run_repository.py:94-377 | Between any two points of such a history its terminal row, result, hash, start time and approval are unchanged, and it is in order at the later one. |
| RunLifecycle.SoundIffSafe | aggregator_demo/database.py:287-299 | All runs together: the store is in order at every point and changes nothing write-once if and only if every update lands safely. |
| RunLifecycle.UnchangedHistoriesAreSound | aggregator_demo/database.py:287-299 | In particular every history in which no updated row has changed since the commit read it. |
| RunLifecycle.EveryStateOk | aggregator_demo/run_repository.py:94-377 | After every such history: terminal if and only if completed, the stored hash is the hash of the stored result, only succeeded or degraded runs have one, approvals bind succeeded and validated runs. |
| RunLifecycle.HistoryEvolves | aggregator_demo/run_repository.py:94-377 | Between any two points of a history whose updates all land safely, terminal rows, results, hashes and completion times are unchanged, and recovery counts do not fall. |
| RunLifecycle.ApprovalIsForever | aggregator_demo/approval_repository.py:67-110 | If every update of the approved run lands safely, an approval row implies, forever after, the unchanged succeeded run with passing validation whose result hashes to the approved hash. |
| RunLifecycle.RunsStay | aggregator_demo/run_repository.py:94-377 | In every history, safe or not, no run disappears, what it was submitted with never changes, a start time never moves once it is set, and a run with a result keeps having one. |
| RunLifecycle.ApprovalsStay | aggregator_demo/approval_repository.py:67-110 | In every history an approval row, once inserted, stays as it is. |
| RunLifecycle.HashesMatch | aggregator_demo/run_repository.py:251-252 | In every history, with a digest that tells results apart, the stored hash is there exactly when a result is and is the hash of that result. |
| RunLifecycle.KeysStayUnique | aggregator_demo/run_repository.py:102-134 | In every history idempotency keys stay unique. |
| RunLifecycle.SafeHistoriesHaveSafeTails | aggregator_demo/run_repository.py:94-377 | What follows any point of a history that is safe for a run lands safely on it and finds it in order. |
| RunLifecycle.StatusMoves | aggregator_demo/run_repository.py:24-49 | Every status change a call intends is in the table, except the recovery of a running run; a cancellation request only ever ends cancelled. |
| RowRules.StatusTable | aggregator_demo/run_repository.py:24-49 | The table of status changes, pair by pair; a status is terminal exactly when it has no way out, and a worker failure exactly when terminal and neither succeeded nor cancelled. |
| RowRules.OnlyChangedColumns | aggregator_demo/database.py:287-299 | An update writes exactly the columns it changed since the read. |
| RowRules.SweepTakesTheSilent | aggregator_demo/run_repository.py:306-330 | In columns: a sweep changes exactly the running and cancel-requested rows whose heartbeat, or update time without one, is below the cutoff, and how. |
| RowRules.ClaimOutlivesTheSweep | aggregator_demo/run_repository.py:164-333 | After any history, a run claimed at a time is left to its worker by every sweep whose cutoff is at most that time. |
| ClaimAccounting.UpdateIsCountedIff | aggregator_demo/run_repository.py:219-377 | A safe update keeps a run's claim and result counts right if and only if it stores no result for a run back in the queue and a recovery counts exactly the claim it ends. |
| ClaimAccounting.AccountedIffCounted | aggregator_demo/run_repository.py:164-333 | If the updates of a run are safe, then at every point its claims equal its recovery count while queued and one more while running, and at most one result is ever stored, if and only if every update of the run is such. |
| ClaimAccounting.UnchangedIsCounted | aggregator_demo/run_repository.py:164-333 | Updates of rows unchanged since their read are such. |
| ClaimAccounting.CountMovesByRecovery | aggregator_demo/run_repository.py:315-330 | In every history the recovery count moves only by a commit that recovers the run. |
| ClaimAccounting.ClaimsAreSeparatedByRecovery | aggregator_demo/run_repository.py:164-194 | In every history, whatever updates are lost, a recovery of the run lies between two successful claims of it. |
| ClaimAccounting.RowNamesIff | aggregator_demo/run_repository.py:164-330 | In every history the row names a worker if and only if that worker claimed the run and no recovery of it was committed since. |
| RunRaces.CancellationOverwritesAnApprovedRun | aggregator_demo/run_repository.py:335-377 | A cancellation that read the run while it was running overwrites it after it succeeded and was approved: a real history that breaks the invariant. |
| RunRaces.RecoveryReplacesAResult | aggregator_demo/run_repository.py:296-333 | A recovery sweep that read the run while it was running re-queues it after it succeeded, and a second result replaces the first. |
| RunRaces.CompletionIgnoresTheWorker | aggregator_demo/run_repository.py:219-261 | Completion has the same outcome whichever worker the row names. |
| RunRaces.AStaleWorkerCommits | aggregator_demo/run_repository.py:219-333 | A history, with no race, in which the worker whose claim was recovered commits the result of a run that a second worker has claimed and whose row names the second. |
| RunRaces.CommitterIsNamedIff | aggregator_demo/run_repository.py:219-261 | In every history, after a completion the row names the worker that called it if and only if that worker claimed the run and no recovery of it was committed since. |
| RunRaces.ReportIsDroppedIff | aggregator_demo/run_repository.py:263-294 | A failure report leaves a run unfinished if and only if the run is back in the queue and the report is not a plain failure, so of infeasibility, a time-out or degradation. |
| RunRaces.LateInfeasibilityIsDropped | aggregator_demo/worker.py:137-150 | That happens: claimed, recovered as stale, then reported infeasible, the run is still queued. |
| RunRepository.Store.constructor | aggregator_demo/run_repository.py:90-92 | An empty store with an empty history. |
| RunRepository.Store.FindByKey | aggregator_demo/run_repository.py:385-389 | Finds a run with the key if and only if there is one. |
| RunRepository.Store.Create | aggregator_demo/run_repository.py:94-135 | One run per key, also when another submission takes the key between lookup and insert; a reused key answers with the run it made or a conflict when the request differs. |
| RunRepository.Store.SelectOldestQueued | aggregator_demo/run_repository.py:166-174 | Selects the oldest queued run, ties by identifier, or none when nothing is queued. |
| RunRepository.Store.ClaimIfQueued | aggregator_demo/run_repository.py:176-192 | The conditional update succeeds exactly when the run is still queued, sets exactly status, worker, heartbeat, update time and a missing start time, and touches no other row. |
| RunRepository.Store.ClaimNext | aggregator_demo/run_repository.py:164-194 | A claimed run was queued at the moment of the update and is running for this worker; without interference it is the oldest queued run. It comes back without a run only if nothing is queued or ten updates found their run taken. |
| RunRepository.Store.CommitRow | aggregator_demo/run_repository.py:245-260 | After others have committed, the changed columns of one row are written and the commit carries the row that was read. |
| RunRepository.Store.CompleteWithResult | aggregator_demo/run_repository.py:219-261 | The answer follows from the row as it was read: the result is stored with its hash from running only, a cancellation requested by then wins, every other status is refused unchanged; the commit carries that row past whatever others commit first. |
| RunRepository.Store.Transition | aggregator_demo/run_repository.py:347-377 | A table-checked status change of the row that was read, or nothing. |
| RunRepository.Store.Fail | aggregator_demo/run_repository.py:263-294 | The outcome by the status that was read: cancelled on request, the failure where the table allows it, otherwise a conflict that changes nothing. |
| RunRepository.Store.RecoverOne | aggregator_demo/run_repository.py:315-330 | One abandoned claim goes back to the queue, or one stale cancellation is finished. |
| RunRepository.Store.SweepUpdates | aggregator_demo/run_repository.py:306-330 | Computes for exactly the selected rows, in columns: back to the queue without worker and heartbeat and one more recovery, or cancelled. |
| RunRepository.Store.FlushAll | aggregator_demo/run_repository.py:331-332 | Writes the changed columns of exactly those rows. |
| RunRepository.Store.RecoverStale | aggregator_demo/run_repository.py:296-333 | One commit that recovers exactly the rows that were stale when selected, from what they were then. In columns, with nobody in between: a row that is neither running nor cancel-requested, or whose heartbeat (or update time without one) is at or after the cutoff, is unchanged; any other is re-queued or cancelled. |
| RunRepository.Store.CommitSweep | aggregator_demo/run_repository.py:314-332 | The selected rows are updated as they were read and committed at once. |
| RunRepository.Store.RequestCancellation | aggregator_demo/run_repository.py:335-345 | By the status that was read: queued runs are cancelled, running ones marked, finished ones other than cancelled refused unchanged. |
| RunRepository.Store.Decide | aggregator_demo/approval_repository.py:67-110 | One immutable decision per run, only on a result succeeded and validated when read, and bound to its hash; repeating it answers with the row, changing it conflicts. |
| RunRepository.Store.Finish | aggregator_demo/worker.py:111-171 | Exactly which commit the worker makes for a candidate or a failure; with nobody between a read and its commit the run stays unfinished if and only if it was back in the queue and the solver reported infeasibility or a time-out. |
| RunRepository.Store.ExecuteOne | aggregator_demo/worker.py:32-171 | One worker round under arbitrary interference: the claimed run ends finished or an exception is raised, with the same exact condition on the row as it is when the solver is done. With nobody else at work: the table is swept, the oldest queued run is claimed if there is one, and it ends with the status and result the solver calls for. |
| NoticeRepository.BaselineStaysApproved | aggregator_demo/notice_repository.py:163-187 | An approved baseline stays approved and unchanged as long as nothing write-once of its run changes. |
| NoticeRepository.Notices.constructor | aggregator_demo/notice_repository.py:159-161 | An empty notice table. |
| NoticeRepository.Notices.CreateSimulated | aggregator_demo/notice_repository.py:163-250 | Only an approved run becomes a baseline; the notice returned is the one on record for its candidate, which carries the submitted key; repeating a submission with the same key, baseline and scenario answers with the recorded notice and changes nothing; no notice is ever changed; a notice stays bound to an approved baseline while what is committed is safe for that baseline. |
| NoticeRepository.Notices.Others | aggregator_demo/notice_repository.py:199-246 | Other parties' commits never invalidate a notice, if they are safe for its baseline. |
| FleetEnergy.BusTelescopes | aggregator_demo/optimization/real_time.py:829-842 | A bus ends with its initial energy plus 0.9 of what it charged, less discharge over 0.9 and trip draw. |
| FleetEnergy.FleetConservation | aggregator_demo/optimization/real_time.py:792-849 | Every feasible plan conserves fleet energy: final = initial + 0.9 bought - sold / 0.9 - trip energy served, by exchange of sums over bus, charger and step. |
| FleetEnergy.ExportIsBounded | aggregator_demo/optimization/real_time.py:792-849 | Total export is at most 0.9 (initial + 0.9 bought - trip energy - 20% reserves). |
| FleetEnergy.UnavailableBusKeepsItsEnergy | aggregator_demo/optimization/real_time.py:801-809 | An unavailable bus serves, charges and discharges nothing and keeps the energy it starts with. |
| FleetEnergy.WithoutExport | aggregator_demo/optimization/real_time.py:828-829 | Without export nothing is sold, and final energy is initial energy plus 0.9 bought less what was driven. |
| FleetEnergy.IdleIsFeasible | aggregator_demo/optimization/real_time.py:792-849 | These constraints never conflict: when every bus starts between reserve and capacity, the plan that moves nothing and declares every active step unserved meets all of them. |
| FleetEnergy.OneThingAtATime | aggregator_demo/optimization/real_time.py:801-813 | In one step no bus both serves a trip and uses a charger, or charges and discharges. |
| FleetEnergy.OneTripOnePlug | aggregator_demo/optimization/real_time.py:811-813 | Nor serves two trips, or uses two chargers. |
| FleetEnergy.OneBusEach | aggregator_demo/optimization/real_time.py:792-817 | A charger takes one bus and a trip is covered by at most one bus in each step. |
| Sums.SumExchange | aggregator_demo/optimization/real_time.py:819-827 | Summing a table by rows or by columns gives the same total, as the site exchange and the bus balance do. |
| HorizonWindows.WindowShift | aggregator_demo/optimization/real_time.py:565-598 | A step lies in the relative window exactly when its absolute time lies in the absolute window. |
| HorizonWindows.DelayMovesTheWindow | aggregator_demo/optimization/real_time.py:565-568 | A delay moves both ends of the absolute window later by the same number of steps, the nearest to the delay with halves to the even number, except where the day ends or the window would be empty. |
| HorizonWindows.LongerDelaysAreLater | aggregator_demo/optimization/real_time.py:565-568 | A longer delay never moves either end earlier. |
| HorizonWindows.ActiveSteps | aggregator_demo/optimization/real_time.py:731-736 | The list of active steps is exactly the steps in the window, in order, and has the stated length. |
| HorizonWindows.ActiveCountIsRemaining | aggregator_demo/optimization/real_time.py:565-598 | The number of active steps is the remaining activity derived when the context is built. |
| HorizonWindows.CoverageFixesTheTotals | aggregator_demo/optimization/real_time.py:792-799 | Coverage alone fixes, over the active steps, the step count and the energy served or declared unserved: the step-count constraint is redundant. |
| HorizonWindows.ServedEnergyConstraintIsPlanFree | aggregator_demo/optimization/real_time.py:909-914 | Under coverage the served-energy constraint holds for every plan or for none, exactly when the need is at most the energy of the active steps. |
| HorizonWindows.ServedEnergyIsTight | aggregator_demo/optimization/real_time.py:909-914 | For a trip without a state row it holds with equality for every covering plan. |
| HorizonWindows.NeedOfATrip | aggregator_demo/optimization/real_time.py:591-592 | A positive figure in the state row is the need; otherwise the need is the energy of the remaining steps, never negative. |
| HorizonWindows.CoveredIffNotUnserved | aggregator_demo/optimization/real_time.py:792-799 | In an active step some bus serves the trip exactly when the unserved variable is zero. |
| HorizonWindows.UnmetDurationIsUnserved | aggregator_demo/optimizer_service.py:225-229 | The unmet duration of a trip is the sum of the unserved variables of the model. |
| ServiceEvents.DropsMinusRises | aggregator_demo/optimization/real_time.py:1300-1315 | Interruptions minus restorations is first covered minus last covered. |
| ServiceEvents.EventsAlternate | aggregator_demo/optimization/real_time.py:1300-1315 | Interruptions and restorations strictly alternate, beginning with an interruption exactly when the trip starts covered. |
| ServiceEvents.ExtractTrip | aggregator_demo/optimization/real_time.py:1280-1323 | The extraction loop reports exactly the losses and returns of coverage inside the window, with the bus that left and the bus that took over, the uncovered steps, and the unserved flag. |
| ServiceEvents.FlaggedIffUnmet | aggregator_demo/optimization/real_time.py:1291-1295 | A trip is flagged unserved exactly when it has unmet steps or is served by a bus with identifier 0; with nonzero identifiers the two accounts agree. |
| ServiceEvents.UnmetCountIsZeroIffDurationIs | aggregator_demo/optimizer_service.py:225-286 | Over all trips, with nonzero bus identifiers, the published unmet count is zero exactly when the unmet duration is. |
| SeriesResampling.ExpandSeries | aggregator_demo/optimization/real_time.py:179-197 | All four branches take value floor(idx * n / target) at position idx; only an empty series is refused. |
| SeriesResampling.EachSampleUsedEvenly | aggregator_demo/optimization/real_time.py:179-197 | Each source sample is used on one block of floor(target / n) or ceil(target / n) positions, and the blocks cover the horizon. |
| SeriesResampling.ScaleBoundaries | aggregator_demo/optimization/real_time.py:200-223 | Scaled boundaries never decrease, increase strictly until they reach the horizon, end there, and are otherwise the proportional boundary moved up past its predecessor. |
| SeriesResampling.NearestBoundary | aggregator_demo/optimization/real_time.py:203 | A boundary is the nearest whole step, at least 1. |
| SeriesResampling.ShareIsKept | aggregator_demo/optimization/real_time.py:209-212 | Scaled to another horizon a boundary keeps its share of it to within half a step, inside the horizon and never before step 1. |
| SeriesResampling.Monotonize | aggregator_demo/optimization/real_time.py:213-223 | The same for the loop that makes boundaries monotone. |
| SeriesResampling.BuildMultiplierSchedule | aggregator_demo/optimization/real_time.py:226-252 | The schedule has exactly the length of the horizon, is piecewise constant whenever multipliers and scaled boundaries match in number, and is resampled when they do not. |
| SeriesResampling.LayOut | aggregator_demo/optimization/real_time.py:241-249 | The segments always reach the horizon, so the padding branch is never taken, and each step has the multiplier of its segment. |
| Lexicographic.SolveStages | aggregator_demo/optimization/real_time.py:1086-1191 | The stage loop of one solver, step for step: exceptions, usability test, stale incumbents, recorded values and locks. |
| Lexicographic.StageRules | aggregator_demo/optimization/real_time.py:1086-1191 | One stage in terms of its report: the gap it is solved with, when it fails, when it leaves by an exception, and the point, record and lock it leaves otherwise. |
| Lexicographic.RunInOrder | aggregator_demo/optimization/real_time.py:1086-1191 | The stages run in order from a model without a point and stop at the first that does not continue. |
| Lexicographic.StagesAre | aggregator_demo/optimization/real_time.py:1009-1019 | With priorities the service and operational scores are locked in that order and cost is last; without, one weighted score. |
| Lexicographic.LockBound | aggregator_demo/optimization/real_time.py:1172-1183 | A lock is set at the value plus the larger of the absolute tolerance and the relative one times its magnitude. |
| Lexicographic.ContainsBetween | aggregator_demo/optimization/real_time.py:1140 | The usability test finds a word anywhere in the termination condition. |
| Lexicographic.LocksSayWithin | aggregator_demo/optimization/real_time.py:1171-1183 | The accumulated lock constraints admit a point exactly when it is within the tolerance of every locked value. |
| Lexicographic.LockKeepsItsOwnPoint | aggregator_demo/optimization/real_time.py:1172-1183 | A lock keeps the point it was computed from exactly when a tolerance is not negative or the value is zero. |
| Lexicographic.EveryPointKeptIsWithinTheLocks | aggregator_demo/optimization/real_time.py:1086-1191 | Whatever a solver reports, even when a later stage times out and old values stay loaded, the point kept is feasible and within every lock. |
| Lexicographic.OnlyAnExceptionStopsLater | aggregator_demo/optimization/real_time.py:1130-1169 | Once a stage has produced a point, only an exception from the solver stops the run. |
| Lexicographic.InfeasibleLooksUsable | aggregator_demo/optimization/real_time.py:1130-1148 | A first stage that terminates "infeasible" passes the usability test, because that word contains "feasible", and leaves the loop by an exception. |
| Lexicographic.NoLaterStageIsInfeasible | aggregator_demo/optimization/real_time.py:1086-1191 | With an exact solver no stage of a feasible model fails, and every recorded value is the minimum of its score within the earlier locks. |
| Lexicographic.TheResultIsOptimalWithinTheLocks | aggregator_demo/optimization/real_time.py:1009-1019 | The result is feasible and within every lock, and every stage value is such a minimum. |
| Lexicographic.TheFinalScoreIsMinimal | aggregator_demo/optimization/real_time.py:1009-1019 | No solution within the locks has a better final score beyond the final gap. |
| Lexicographic.ZeroTolerancesGiveTheLexicographicMinimum | aggregator_demo/optimization/real_time.py:999-1019 | With no slack in the settings that apply, the result is a lexicographic minimum of the model, over any set of solutions. |
| Lexicographic.MinimumIsGuaranteedIffNoSlack | aggregator_demo/optimization/real_time.py:993-1019 | For nonnegative settings: the source's stages return a lexicographic minimum for all scores and all exact solvers if and only if the final gap is zero and, with priorities on, both tolerances and the lexicographic gap are zero. |
| Lexicographic.PreferTrueIsExact | aggregator_demo/optimization/real_time.py:1086-1098 | The solver that makes every such slack cost the minimum meets the definition of an exact solver. |
| Lexicographic.SlackCanLockOutTheBetterPlan | aggregator_demo/optimization/real_time.py:1171-1183 | For every positive absolute tolerance, relative tolerance, lexicographic gap below 1 and final gap there is a model in which every exact solver returns a plan worse on the first score and, by any amount, on the last. |
| ReserveLockout.ScoresInFigures | aggregator_demo/optimization/real_time.py:948-970 | The four scores on two steps in figures: 5000 for an uncovered step and 100 000 for every step from it to the end, 8000 per kWh short of the reserve, 25 per switch, purchases at their price. |
| ReserveLockout.ToleranceCostsTheReserve | aggregator_demo/optimization/real_time.py:948-970 | On a depot: for every positive absolute tolerance there are a site and prices for which every exact solver makes the run return a plan that falls short of the reserve and costs at least any given price, although an idle plan falls short of nothing and costs nothing. |
| ReserveLockout.ExportMeansShortfall | aggregator_demo/optimization/real_time.py:831-849 | On that depot every feasible plan that exports in the first step falls short of the reserve and buys in the second. |
| Lexicographic.ExactSolverExistsIff | aggregator_demo/optimization/real_time.py:1086-1098 | There is an exact solver for a model if and only if every stage score has a minimiser under all locks on stage scores that leave a solution. |
| ReserveLockout.DepotHasAnExactSolver | aggregator_demo/optimization/real_time.py:831-849 | The depot of the example has exact solvers, so what is said of all of them is said of some. |
| ReserveLockout.TrimmingLowersScores | aggregator_demo/optimization/real_time.py:845-883 | On that depot the moves of a plan fix its exchange and energy; the same moves with the least shortfall, slack and switches are allowed too and no worse on any score. |
| Lexicographic.SolveWithFallback | aggregator_demo/optimization/real_time.py:1078-1252 | The first solver that completes every stage wins; a failure is reported only when some solver failed at a stage without leaving by an exception. |
| ValidationGate.PassesIff | aggregator_demo/optimizer_service.py:230-286 | A remaining-horizon result passes validation if and only if every active step of every trip is served, by no bus with identifier 0, every shortfall is within 1e-6, and the solver was not stopped by its time limit. |
| ValidationGate.PassedPlan | aggregator_demo/optimizer_service.py:278-286 | A feasible plan that passes serves every active step of every trip and keeps every bus within 1e-6 kWh of its reserve. |
| ValidationGate.GoodInFull | aggregator_demo/optimizer_service.py:278-286 | What a validated plan is, written out for both models: feasible, every active step served, every bus at a fifth of its capacity or more, on a remaining horizon to 1e-6 kWh. |
| ValidationGate.ResultsComeFromCompletions | aggregator_demo/run_repository.py:219-261 | In every history, whatever races it has, a stored result was handed in by a completion of that run. |
| ValidationGate.AuthorisedIsPlanned | aggregator_demo/dispatch_repository.py:190-226 | If the passing results of a run are results of its own model, then an authorised interval of it is a step of a feasible plan of that very model whose series the run stores, which serves every active trip step and keeps the reserve, and the setpoint is what that plan buys less what it sells in that step, as power. |
| ValidationGate.DeliveredPowerIsPlanned | aggregator_demo/optimizer_service.py:282-286 | End to end, if the passing results of approved runs are results of their models: the controller power is always zero or what such a plan exchanges in one step, for a run that stores its series and is approved for that step in that very state. |
| ValidationGate.EnvelopeNeverRefuses | aggregator_demo/dispatch_repository.py:221-238 | The site envelope check refuses no interval of an optimizer result, of either model, as long as the model lets no charger move more than the rating the check adds up. |
| ValidationGate.ExchangeIsRated | aggregator_demo/optimization/real_time.py:816-829 | In every step a feasible plan of either model buys and sells no more than the ratings allow, one bus per charger included. |
| DayAhead.OwnBusServesTheWholeTrip | aggregator_demo/optimization/day_ahead.py:841-880 | In a feasible day-ahead plan every trip is served by the bus of its own number in each step of its window, which is then off the chargers. |
| DayAhead.ContinuityIsRedundant | aggregator_demo/optimization/day_ahead.py:861-866 | So the constraint that a bus keeps a trip it has begun changes no feasible plan. |
| DayAhead.BusTelescopes | aggregator_demo/optimization/day_ahead.py:882-890 | A bus ends with its initial energy plus what it charged, less what it discharged and drove, from the second step on. |
| DayAhead.FirstPurchaseIsLost | aggregator_demo/optimization/day_ahead.py:882-904 | Fleet energy is conserved except that what is bought in the first step never reaches a battery. |
| DayAhead.NothingSoldFirst | aggregator_demo/optimization/day_ahead.py:901-904 | Nothing is sold in the first step. |
| DayAhead.EndOfDayConstraintIsRedundant | aggregator_demo/optimization/day_ahead.py:919-930 | The energy floors alone imply the end-of-day constraint when charging powers are not negative: dropping it changes no feasible plan (the floor on the last step is the end-of-day target). |
| DayAhead.EveryStepMeetsTheTarget | aggregator_demo/optimization/day_ahead.py:914-930 | In every step every bus holds between a fifth of its capacity and its capacity, the end-of-day target included. |
| HostingLimit.FindHostingLimit | aggregator_demo/gridtwin/feeder.py:136-153 | The bisection loop computes the specified limit in the specified number of oracle calls, and ends. |
| HostingLimit.Dyadic | aggregator_demo/gridtwin/feeder.py:143-152 | After k halvings the width is bound / 2^k and the lower end a whole number of widths below 2^k. |
| HostingLimit.CallsIsLeast | aggregator_demo/gridtwin/feeder.py:145-152 | The number of calls is the least k for which bound / 2^k is within the tolerance. |
| HostingLimit.ThirteenCallsAtTheDefaults | aggregator_demo/gridtwin/feeder.py:136-142 | Thirteen calls at 2500 kW and 0.5 kW. |
| HostingLimit.LowerIsWithinToleranceOfTheThreshold | aggregator_demo/gridtwin/feeder.py:136-153 | For a monotone oracle safe at zero, the lower end is safe and within the tolerance of every safe import up to the bound. |
| HostingLimit.EndsAtALowerEnd | aggregator_demo/gridtwin/feeder.py:144-152 | The search always ends at one of finitely many lower ends, a whole number of final widths. |
| HostingLimit.SearchFindsTheThreshold | aggregator_demo/gridtwin/feeder.py:144-152 | Each of them is found: the oracle that allows exactly the imports up to it makes the search end there. |
| HostingLimit.SafeForEveryFeederIff | aggregator_demo/gridtwin/feeder.py:153 | After margin and rounding the published limit is safe for every monotone oracle safe at zero if and only if margin and rounding raise none of those lower ends. |
| HostingLimit.ThePublishedLimitIsSafe | aggregator_demo/gridtwin/feeder.py:153 | In particular whenever the margin leaves half a watt of room at half the tolerance, as it does at the defaults. |
| HostingLimit.RoundingCanCrossTheThreshold | aggregator_demo/gridtwin/feeder.py:153 | The condition can fail: with margin 1, a bound of 1.2 W and a tolerance of 0.6 W. |
| GreedyCharging.UncontrolledSchedule | aggregator_demo/gridtwin/dispatch.py:28-50 | The in-place loop yields the specified schedule or the specified exception, for all inputs. |
| GreedyCharging.AsMuchAsItCan | aggregator_demo/gridtwin/dispatch.py:38-45 | Interval by interval: the energy of the first is the requirement or what the site allows, whichever is less, and of every later one the same of what is left, nothing once that is at most 1e-7. |
| GreedyCharging.RefusedIffOverTheHorizon | aggregator_demo/gridtwin/dispatch.py:46-49 | It is refused exactly when the requirement exceeds horizon * capacity * hours by more than 1e-6. |
| GreedyCharging.RequirementIsDelivered | aggregator_demo/gridtwin/dispatch.py:36-50 | Otherwise every power is within capacity and the energy is the requirement up to 1e-6. |
| GreedyCharging.NothingChargesEarlier | aggregator_demo/gridtwin/dispatch.py:36-45 | Every prefix delivers, up to 1e-7, at least what any schedule within capacity with no more total energy delivers. |
| AuditChain.AuditTrail.constructor | aggregator_demo/gridtwin/security.py:35-39 | An empty trail. |
| AuditChain.AuditTrail.Append | aggregator_demo/gridtwin/security.py:41-54 | Appends one numbered record chained to the last hash and changes no earlier one. |
| AuditChain.AuditTrail.Verify | aggregator_demo/gridtwin/security.py:56-66 | Answers true if and only if every record names its predecessor's hash and carries the digest of its content. |
| AuditChain.VerifiedByNeighbours | aggregator_demo/gridtwin/security.py:56-66 | Verification in fields: each record carries the digest of its content and the hash of the record before it, the first one the genesis value. |
| AuditChain.GenesisIsZeros | aggregator_demo/gridtwin/security.py:42 | The genesis value is 64 zeros. |
| AuditChain.AppendKeepsVerified | aggregator_demo/gridtwin/security.py:41-54 | Appending keeps a trail verified. |
| AuditChain.BuiltTrailsVerify | aggregator_demo/gridtwin/security.py:41-66 | Every trail built by appending verifies and numbers its records from one. |
| AuditChain.PrefixesVerify | aggregator_demo/gridtwin/security.py:56-66 | Every prefix of a verified trail verifies. |
| AuditChain.LastHashFixesTheTrail | aggregator_demo/gridtwin/security.py:56-66 | Two verified trails with the same last hash are equal record by record. |
| AuditChain.OnlyTheBuiltTrailPasses | aggregator_demo/gridtwin/security.py:257-258 | Against a last hash kept elsewhere, a trail verifies with it if and only if it is the trail that was built. |
| TwoBus.SolveOperatingPoint | aggregator_demo/gridtwin/dynamics.py:146-188 | The loop returns the first update that moves the voltage by less than the threshold if one of 500 does, and otherwise fails to converge; it raises a division error exactly for a zero source, since a zero voltage later on only turns the voltage into no number. |
| TwoBus.CandidateEquations | aggregator_demo/gridtwin/dynamics.py:166-169 | With the shunt: the voltage implied by the currents at a voltage, as two equations that determine it. |
| TwoBus.UpdatesMix | aggregator_demo/gridtwin/dynamics.py:163-174 | The iteration starts at the source voltage and mixes 0.55 of the last voltage with 0.45 of the implied one. |
| TwoBus.FixedPointEquationsWithShunt | aggregator_demo/gridtwin/dynamics.py:156-169 | With the shunt admittance on the default path, being a fixed point is a pair of equations free of division. |
| TwoBus.DampingKeepsFixedPoints | aggregator_demo/gridtwin/dynamics.py:169-174 | Damping changes no fixed point, and a small update means a residual 1/0.45 times as large. |
| TwoBus.FixedPointEquations | aggregator_demo/gridtwin/dynamics.py:166-169 | Without the shunt, being a fixed point is a pair of equations free of division. |
| TwoBus.FixedPointsAreThePositiveRoots | aggregator_demo/gridtwin/dynamics.py:197-210 | A voltage is a fixed point if and only if its squared magnitude is a positive root of the quadratic and it is the voltage of that root. |
| TwoBus.EveryPositiveRootIsAnOperatingPoint | aggregator_demo/gridtwin/dynamics.py:197-210 | Every positive root is the squared magnitude of a fixed point. |
| TwoBus.ClosedFormIsTheHighestOperatingPoint | aggregator_demo/gridtwin/dynamics.py:197-210 | What the closed form returns is the largest squared voltage of any fixed point. |
| TwoBus.OperatingPointExistsIff | aggregator_demo/gridtwin/dynamics.py:204-210 | A fixed point exists if and only if the discriminant is not negative and the coefficient is; exactly then the closed form returns one. |
| TwoBus.OtherAnswersOfTheClosedForm | aggregator_demo/gridtwin/dynamics.py:207-210 | With a nonnegative discriminant the closed form leaves by a domain error exactly when coefficient and constant are positive, and answers zero exactly when the constant is zero and the coefficient is not negative. |
| Rounding.RoundUnique | aggregator_demo/modbus_tcp.py:55 | Rounding half to even is the only integer within half a unit that is even at ties. |

## Left out

- ModbusClient.ModbusTcpClient.Attempt: does not model late delivery; a timed-out attempt's frame either arrived during the attempt or never does, which is the channel the retry argument is about.
- ModbusClient.ModbusTcpClient.Exchange: what the network does to each attempt is an input; connection establishment and time limits are part of an attempt being lost, and the delay between attempts is left out.
- OtGateway.DispatchGateway.Dispatch: one gateway call at a time, because the source holds its lock only inside the replay check.
- PlcSimulator.SimulatedSiteController.HandleRequest: matching a peer address against the allowed networks is a flag; the handler's lock is not modelled, so requests are handled one at a time.
- DispatchEvidence.DispatchEvidenceRepository.Dispatch: messages, correlation ids, requesters and timestamps of attempts and events are left out. The interval number is at least 1, as the request schema demands.
- DispatchEvidence.DispatchEvidenceRepository.Decide: does not model the HTTP conduit to the gateway (aggregator_demo/ot_gateway.py:352-413), whose call can time out with "gateway_unavailable" while the gateway still acts, then or later; a later action is a move decided on earlier rows, as `DispatchPolicy.PowerIsAlwaysJustified` allows, but the evidence recorded for such a call is not modelled.
- DispatchEvidence.DispatchEvidenceRepository.DispatchInterval: a non-finite derived setpoint cannot arise over `real`; the gateway's own check for it is modelled.
- RunRepository.Store.Create: an empty idempotency key counts as a key here, while the source treats it as absent; the lost race on a key that ends in an integrity error is the same answer as the earlier lookup.
- RunRepository.Store.RecoverStale: the cutoff is a parameter, so the refusal of a negative age is not modelled.
- RunRepository.Store.Finish: which exception the optimizer raises is a parameter, reduced to infeasible, timed out or other.
- RunLifecycle.SoundIffSafe: the rows of one call are read in one step, and one commit is one step for all its rows; failure messages and solver names are left out.
- NoticeRepository.Notices.CreateSimulated: the scenario payload, and two submissions racing for the notice of one candidate; the baseline and its approval are read in one step.
- FleetEnergy.FleetConservation: switch variables, operational requirement rows and the interruption ban do not enter energy and are left out of the constraint system.
- ServiceEvents.ExtractTrip: one trip at a time; the bus reassignment mapping and the per-step result tables are left out.
- SeriesResampling.ExpandSeries: the index is computed in integers, where the source divides floating-point numbers.
- Lexicographic.MinimumIsGuaranteedIffNoSlack: negative settings; what a negative tolerance does to a lock is in `Lexicographic.LockKeepsItsOwnPoint`.
- ReserveLockout.ToleranceCostsTheReserve: one operational requirement, on exported energy in the first step; switch variables enter as their number.
- ValidationGate.DeliveredPowerIsPlanned: a run's model is a parameter of the run, and that a passing result of an approved run has the series of a feasible assignment of that model is a hypothesis, since the solver is a parameter; how the model is built from input and notice is not part of it. The checks for finite and nonnegative numbers are left out, because over `real` they cannot fail for a feasible assignment.
- Lexicographic.SolveStages: solver options, telemetry and status texts are left out; minimisation is a parameter, exact or up to a gap.
- DayAhead.FirstPurchaseIsLost: the day-ahead objective, its solver call and the disturbance handling are left out.
- HostingLimit.FindHostingLimit: the tolerance is positive; otherwise the source's loop need not end.
- AuditChain.LastHashFixesTheTrail: the digest is an injective function that never gives the genesis value. A record returned by append is a value here, where the source returns the dictionary it keeps.
- TwoBus.SolveOperatingPoint: convergence of the iteration is not claimed. A voltage that is no number is one value here, and the currents and residual computed after the loop are left out.
- TwoBus.ClosedFormIsTheHighestOperatingPoint: the source voltage is not zero, since the iteration starts from it; square roots are given by their defining property.
- Floating-point rounding, everywhere.
- HTTP routes, authentication, the dashboard, settings, migrations, metrics and report scripts.
- The time-domain simulation and battery dispatch of GridTwin, forecasting, input registries and the control repository.
- Parsing of times and durations and the context fields that only copy input data.
