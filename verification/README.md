# WattPost appliance: a verified model of its hard core

WattPost is a solar monitor that runs unattended on a small computer: it talks to charge controllers and inverters over
noisy serial lines, takes commands from a cloud service, raises alerts, forecasts when the battery runs out, and must
survive power cuts at any moment. This project models the parts of it where a small mistake would be silent, and proves
what they promise, for every input and every run.

`dafny verify dfyconfig.toml` checks the whole project (Dafny 4.11).

| part | modules |
|---|---|
| Serial framing, check sums, register writes | `Crc`, `CrcDetection`, `Modbus`, `FakeSlave`, `SettingsWrite`, `Voltronic` |
| Cloud command intake | `Newest`, `CommandLedger`, `CommandIntake`, `JsonText`, `Utf8`, `CommandRepr` |
| Alerts | `AlertEngine`, `AlertProperties` |
| Battery forecast, energy split, weather interpolation | `Forecast`, `Energy`, `WeatherHistory` |
| Pending logins | `OidcPending` |
| Backup redaction and restore | `Redaction`, `ConfigRestore` |
| Signed audit log | `SignedAudit` |

How it is built: an object that the program updates in place is a class, and a loop is a loop. Each method's
contract ties its result, or the whole new state, to a function of the inputs and the old state; the theorems are then
about those functions and about runs made of them. Randomness, clocks, the local hour, the network and what a crash
interrupts are parameters or steps of a run.

The main results, in words:

- **Check sums.** A Modbus frame is accepted exactly when its residue is zero; therefore no change confined to sixteen
  consecutive bits, and no odd number of flipped bits, turns an accepted frame into another one, at any length.
  Sixteen is the best possible. Both byte-at-a-time loops equal the bit-serial registers.
- **Register writes.** Against a device that may clamp or refuse, over a link that loses, damages or delays replies, a
  confirmed value is the register's contents unless a late reading was believed, exactly then; `ok` has an exact meaning,
  and losing only the acknowledgement never changes the report.
- **Command replay.** The bounded ledger refuses exactly the ids that were recorded or have at least `cap` recorded ids above
  them. A record followed by one more is refused for ever, through crashes between any two steps of a write, failing
  writes and lost files; a lost main file costs nothing but the latest record exactly when memory and disk agreed before
  that record.
  A new acceptable command whose way is open is spawned; over any interleaving of tasks, re-sends, deaths and restarts an
  id is spawned at most once unless 200 larger ones were tried.
- **Signed form.** The printed command is the JSON object of its nine fields, in the shortest spelling; a decoder inverts it, so two commands share a signed form exactly when they agree up
  to the offset of their time stamp, and the signed bytes determine the command behind the UTC gate.
- **Alerts.** Exactly the rules that are due fire. Every fire is handed over exactly once, is still held back, or is in the suffix that a cancelled flush had not
  begun with; a rule fires within its cooldown exactly when a reload dropped it since, whatever the clock does; the cloud
  feed misses nothing that is still retained.
- **Forecast.** The hourly walk finds the first zero of the piecewise-linear stored energy, monotone in load, PV and
  stored energy, and never earlier than the naive estimate.
- **Energy and weather.** The split conserves every bucket's load; the moving pointer equals the search it replaces.
- **Logins, backups, audit.** Single use across restarts; redaction blanks exactly the strings under
  secret-looking keys, is idempotent, and its breadcrumbs are exactly its changes.
  The audit log is linked exactly when no insert fell between another write's reading of the tail and its insert; the
  last signed row then pins the whole log. Uploaded rows are always a prefix of it.

Where the code and its own words differ, the model follows the code:

- `scripts/verify_fc06_serial.py:46-49` announces exception replies for other functions; the code drops one byte and
  tries again (lines 75-78). A read of more than 127 registers makes its thread fail (line 98).
- `solar_monitor/settings_write.py:40-43` explains `ok` by read-back alone; with read-back switched off `ok` means that
  a valid acknowledgement arrived (lines 84-92).
- `solar_monitor/alerts/engine.py:159` says newest first; the list returned is in chronological order (line 170). A limit
  below one behaves like one (lines 167-169).
- `solar_monitor/settings_write.py:101` checks the read-back without the length it asked for, so a late reading of other
  registers is believed (`SettingsWrite.ReportIsHonest` and the three lemmas after it).
- `solar_monitor/cloud/command_verify.py:279-281` speaks of recovering instead of forgetting. With its main file lost and
  no restart the daemon keeps a stale copy, and after a failed write a repeated record returns early
  (`CommandLedger.OnlyTheLatestIsLostExactly`, `RunningOnCostsTwo`, `FailedWriteIsNotRepeated`).
- `solar_monitor/signed_audit.py:99-101` calls a write safe from anywhere. It suspends between reading the tail and
  inserting (lines 106 and 120) and takes no lock, so overlapping writes fork the chain
  (`SignedAudit.RunLinksExactly`, `SignedAudit.OverlappingWritesFork`).
- `solar_monitor/alerts/engine.py:262` empties the buffer before handing it over; when the evaluation is cancelled in the
  flush, the rest is lost (`AlertProperties.StepConserves`).
- `solar_monitor/api/weather_history.py:206-208` and `212-214` cannot be reached after the pointer loop on sorted
  samples; the model leaves them out.
- `solar_monitor/viewmodels.py:105`: a bank exactly at its reserve is reported empty now only if the first interval loses
  energy (`Forecast.AtTheReserve`); from any positive energy the walk is exact.
- `solar_monitor/alerts/engine.py:178-179`: a rule dropped by one reload and restored by another forgets its cooldown and
  can repeat a time stamp (`AlertProperties.EarlyAfterRunExactly`, `DroppedRuleCanRepeat`).
- `solar_monitor/api/energy.py:115`: the energy attributed can exceed the reported load; `Energy.ServedAgainstLoad` says
  exactly when the two agree.

## Model

| member | source | states |
|---|---|---|
| Crc.Crc16 | solar_monitor/modbus.py:10-17 | The nested byte loop returns the two bytes, low one first, of a register fed the message one bit at a time |
| Crc.ByteTogether | solar_monitor/modbus.py:13-16 | Entering a byte by one exclusive-or and shifting eight times equals feeding its eight bits one by one, lowest first |
| Crc.ShiftXor | solar_monitor/modbus.py:16 | The shift is linear: the difference of two registers evolves by itself |
| Crc.RunInjective | solar_monitor/modbus.py:15-16 | The same bits never merge two different registers |
| Crc.BitsInjective | solar_monitor/modbus.py:13 | A frame is determined by its bits |
| Crc.OwnBytesClear | solar_monitor/modbus.py:17 | Feeding a register its own two bytes, low one first, clears it |
| Crc.ClearedOnlyByOwnBytes | solar_monitor/modbus.py:17 | No other two bytes clear it |
| Crc.OwnTrailerAccepted | solar_monitor/modbus.py:97 | Every message followed by its own check sum is accepted |
| Crc.AcceptsIffResidueZero | solar_monitor/modbus.py:97 | A frame is accepted exactly when the register over all of it, trailer included, ends at zero |
| CrcDetection.TopBitDropsByOne | solar_monitor/modbus.py:16 | The highest differing bit of two registers sinks at most one place per bit, whatever bits are fed |
| CrcDetection.BurstChangesRegister | solar_monitor/modbus.py:10-17 | Two messages that differ, but only inside a window of sixteen bits, end in different registers |
| CrcDetection.BurstsAreDetected | solar_monitor/modbus.py:97 | No error burst of at most sixteen bits turns an accepted frame of any length into an accepted one |
| CrcDetection.SeventeenBitsCanPass | solar_monitor/modbus.py:97 | Sixteen is tight: two different accepted frames that differ inside seventeen bits |
| CrcDetection.ShiftKeepsParity | solar_monitor/modbus.py:16 | The polynomial has odd weight, so a shift keeps the parity of the register |
| CrcDetection.RunParity | solar_monitor/modbus.py:10-17 | The register's parity is its initial parity changed once per one bit of the message |
| CrcDetection.AcceptedFramesAreEven | solar_monitor/modbus.py:97 | Every accepted frame has an even number of ones |
| CrcDetection.OddFlipsAreDetected | solar_monitor/modbus.py:97 | No odd number of flipped bits turns an accepted frame into an accepted one |
| Modbus.RequestFields | solar_monitor/modbus.py:20-60 | Both sixteen-bit fields of a request can be read back from the frame, cut to sixteen bits, and the frame is accepted |
| Modbus.Word16RoundTrip | solar_monitor/modbus.py:22-26 | Splitting an integer into two bytes and joining them again gives it modulo 65536 |
| Modbus.VerifiedReply | solar_monitor/modbus.py:86-103 | With an expected length, a reply passes exactly when it is the well-formed reply of the function asked for, carrying its own data bytes; functions from 128 on and lengths outside 5 to 260 never pass |
| Modbus.VerifiedReadReply | solar_monitor/modbus.py:63-65 | A reply to a read passes with the length computed for it exactly when it carries that many registers, and such a reply exists only up to 127 of them |
| Modbus.VerifiedWithoutLength | solar_monitor/modbus.py:86-98 | Without an expected length, any intact frame of the slave and function passes |
| Modbus.FailuresTold | solar_monitor/modbus.py:86-103 | Which failure is reported, in the order a reply is looked at |
| Modbus.RefusalIsReported | solar_monitor/modbus.py:90-92 | A refusal by the device, function code plus 128, is told from every other failure and its code reported |
| Modbus.FirstKnownRequest | tests/test_modbus_and_rover_golden.py:15-16 | One register from 0 of slave 1: 01 03 00 00 00 01, check sum 84 0A |
| Modbus.SecondKnownRequest | tests/test_modbus_and_rover_golden.py:17-18 | Three registers from 0x6B of slave 0x11: check sum 76 87 |
| Modbus.WriteIsFunctionSix | solar_monitor/modbus.py:45-60 | A write is function 6, and its own echo passes as the acknowledgement |
| Modbus.DamageIsNoticed | solar_monitor/modbus.py:72-103 | A good frame damaged by a short burst or an odd number of flips fails verification, whatever it is checked for |
| FakeSlave.Device.Receive | scripts/verify_fc06_serial.py:57-99 | One read from the port drains the buffer like the step function: short buffer, resynchronisation, bad check sum, write, read |
| FakeSlave.Device.Answer | scripts/verify_fc06_serial.py:83-99 | One complete frame changes registers and replies as specified, or is ignored for a bad check sum |
| FakeSlave.Device.ReadOut | scripts/verify_fc06_serial.py:93-97 | The loop collects the contents of consecutive registers, high bytes first, zero where nothing was written |
| FakeSlave.StepIgnoresTheRest | scripts/verify_fc06_serial.py:67-99 | With eight bytes buffered, a parsing step does not depend on what follows them |
| FakeSlave.DrainThenMore | scripts/verify_fc06_serial.py:67-99 | Draining early and then reading more equals reading everything first |
| FakeSlave.ChunkingDoesNotMatter | scripts/verify_fc06_serial.py:57-99 | Any cut of a byte stream into reads gives the same replies, registers and left-over buffer |
| FakeSlave.RequestsAreAnsweredInOrder | scripts/verify_fc06_serial.py:57-99 | A stream of good requests, however cut, is answered request by request and leaves nothing buffered |
| FakeSlave.JunkIsSkipped | scripts/verify_fc06_serial.py:75-78 | Junk in front of good requests, none of it followed by a 3 or a 6, is dropped and every request answered |
| FakeSlave.BadFrameIsIgnored | scripts/verify_fc06_serial.py:83-84 | A frame whose check sum does not fit is swallowed without an answer |
| FakeSlave.WriteIsAnswered | scripts/verify_fc06_serial.py:85-89 | A write is kept and echoed and changes nothing else |
| FakeSlave.ReadIsAnswered | scripts/verify_fc06_serial.py:90-99 | A read of up to 127 registers is answered with exactly their contents, zero where nothing was written, in an intact frame |
| FakeSlave.PayloadAt | scripts/verify_fc06_serial.py:93-97 | The word at each place of a reply is that register |
| FakeSlave.LongReadStops | scripts/verify_fc06_serial.py:98 | A read of 128 registers or more ends the device |
| SettingsWrite.Bus.Exchange | solar_monitor/settings_write.py:57-59 | What one request does to the device and what comes back, for every fate: served, lost either way, damaged, answered by a late frame, or a broken link; the device may keep another value or refuse |
| SettingsWrite.Bus.SendWrite | solar_monitor/settings_write.py:54-82 | Pass 1: an acknowledgement counts exactly when the device accepted and its echo arrived undamaged, or a late frame that could be an echo came instead |
| SettingsWrite.Bus.ReadBack | solar_monitor/settings_write.py:94-113 | Pass 2: a value is confirmed exactly when the undamaged reading arrived, or a late frame that could be a reading came instead; nothing is changed |
| SettingsWrite.Bus.WriteSettingRegister | solar_monitor/settings_write.py:33-128 | Registers and report for every value, device and pair of fates, with the argument errors raised before anything is sent |
| SettingsWrite.AckVerifies | solar_monitor/settings_write.py:60-67 | Byte by byte: the check passes for the undamaged echo, for no damaged one, for no exception reply, and for a late frame exactly when it is an intact function-6 frame of the slave |
| SettingsWrite.ReadBackVerifies | solar_monitor/settings_write.py:101-102 | The same for the read-back, and what bytes 3 and 4 then hold |
| SettingsWrite.LoopbackServesWrites | scripts/verify_fc06_serial.py:83-89 | The byte-level loopback device serves a write like the abstract device that keeps whatever it is sent |
| SettingsWrite.LoopbackServesReads | scripts/verify_fc06_serial.py:90-99 | It serves a read of one register like the abstract device where everything can be read |
| SettingsWrite.ReportIsHonest | solar_monitor/settings_write.py:84-128 | A confirmed value differs from the register exactly when a late reading of another value was believed; `ok` holds exactly when the requested value was confirmed, or an acknowledgement was believed and read-back was off or timed out |
| SettingsWrite.DetailSays | solar_monitor/settings_write.py:80-128 | Each detail, exactly: confirmed, differing, acknowledged only, not sent, unknown |
| SettingsWrite.LateReadingIsBelieved | solar_monitor/settings_write.py:98-102 | A late reading of one or more registers, whichever they are, confirms its first word: the read-back is checked without an expected length |
| SettingsWrite.EmptyReadingIsBelieved | solar_monitor/settings_write.py:101-102 | A late reading of no register is believed too, and confirms its own check sum |
| SettingsWrite.LateAckIsNoReading | solar_monitor/settings_write.py:101-102 | A late acknowledgement never confirms a value, but counts as an acknowledgement whatever it acknowledged |
| SettingsWrite.LostAckIsHarmless | solar_monitor/settings_write.py:68-78 | With read-back on, losing, damaging or mistaking only the acknowledgement leaves the report unchanged |
| SettingsWrite.WriteIsReported | solar_monitor/settings_write.py:101-113 | A write that reached the device is reported with the value kept, and as done exactly when that is the value asked for; a refused one, exactly when the register held the value already |
| Voltronic.Crc16Xmodem | solar_monitor/voltronic_crc.py:17-27 | The nested byte loop equals the bit-serial register fed highest bit first |
| Voltronic.ByteTogetherUp | solar_monitor/voltronic_crc.py:20-26 | Entering a byte at the top and shifting eight times equals feeding its eight bits one by one |
| Voltronic.VoltronicCrc | solar_monitor/voltronic_crc.py:30-41 | No emitted check-sum byte is an opening parenthesis, a CR or a LF |
| Voltronic.TrailerClearsExactly | solar_monitor/voltronic_crc.py:35-41 | A payload with its trailer, high byte first, leaves no residue exactly when neither check-sum byte had to be replaced |
| Voltronic.OneConfusablePairClears | solar_monitor/voltronic_crc.py:30-41 | For every payload exactly one pair of bytes confusable with the trailer, byte by byte, leaves no residue |
| Voltronic.StatusRequest | solar_monitor/voltronic_crc.py:44-48 | The request `QPIGS` goes out with check sum B7 A9 and a CR |
| Voltronic.StripFailures | solar_monitor/voltronic_crc.py:55-69 | Which failure is reported for a frame that is not accepted |
| Voltronic.StripsExactlyFrames | solar_monitor/voltronic_crc.py:51-70 | A payload comes back exactly from its frame, with or without the CR, and only a non-empty one |
| Voltronic.FirstCrEndsTheFrame | solar_monitor/voltronic_crc.py:44-48 | The only CR in the frame of a CR-free payload is its last byte |
| Voltronic.FirstFrameIsUnique | solar_monitor/voltronic_crc.py:44-48 | A framed CR-free payload can be cut off a stream in one way only |
| Voltronic.StreamIsUnique | solar_monitor/voltronic_crc.py:44-48 | A stream of such frames determines the list of payloads |
| Voltronic.SameTrailer | solar_monitor/voltronic_crc.py:30-41 | Two payloads share a trailer exactly when each raw check-sum byte is equal or a framing byte and its successor |
| Newest.Sorted | solar_monitor/cloud/command_verify.py:272 | `sorted` lists exactly the members, as many as there are |
| Newest.SortedIncreases | solar_monitor/cloud/command_verify.py:272 | and strictly in increasing order, which makes the list unique |
| Newest.KeepNewestIsTop | solar_monitor/cloud/commands.py:44 | Sorting and slicing keeps exactly the members exceeded by fewer than `cap` others |
| Newest.TopSize | solar_monitor/cloud/command_verify.py:295 | What is kept is increasing and as large as the cap allows |
| Newest.TopAfterAdding | solar_monitor/cloud/commands.py:42-44 | Adding to what was kept and cutting again equals cutting the set of everything ever added |
| Newest.KeepNewestAfterAdding | solar_monitor/cloud/command_verify.py:295 | The same for the list itself, so evictions never add up to an error |
| Newest.CoveredStays | solar_monitor/cloud/command_verify.py:287-290 | Recording more never makes an id acceptable again |
| CommandLedger.Ledger.constructor | solar_monitor/cloud/command_verify.py:259-285 | A starting ledger holds what the main file, else the copy, else nothing holds, cut to the cap |
| CommandLedger.Ledger.HasSeen | solar_monitor/cloud/command_verify.py:287-290 | For every set of ids the list may stand for, an id is seen exactly when recorded or exceeded by at least `cap` of them |
| CommandLedger.Ledger.Record | solar_monitor/cloud/command_verify.py:292-318 | Memory and all three files after a record, however far its write gets; memory then stands for one id more |
| CommandLedger.SeenExactly | solar_monitor/cloud/command_verify.py:287-290 | The exact meaning of the bounded ledger, both directions |
| CommandLedger.WhateverWasRecorded | solar_monitor/cloud/command_verify.py:292-295 | A record can be carried out on the bounded list alone |
| CommandLedger.StepIsFaithful | solar_monitor/cloud/command_verify.py:264-318 | Every record, failing write, crash after any step of a write, restart, and loss of the main file, noticed or not, keeps the account of what is known, saved and settled |
| CommandLedger.RunIsFaithful | solar_monitor/cloud/command_verify.py:264-318 | The same over any run |
| CommandLedger.SettledRecordsStaySeen | solar_monitor/cloud/command_verify.py:278-308 | A new record written to the end, followed by another new one that gets as far as keeping the copy, even if it crashes there, is refused for ever after, through evictions, failing writes, crashes at any step and any number of losses of the main file |
| CommandLedger.CopySettles | solar_monitor/cloud/command_verify.py:302-305 | A write that keeps the copy, finished or not, settles all that was saved before it |
| CommandLedger.CompletedRecordsStaySeen | solar_monitor/cloud/command_verify.py:254-256 | A single record written to the end is refused for ever after while the main file stays readable |
| CommandLedger.RunKeeps | solar_monitor/cloud/command_verify.py:264-318 | Over any run the settled ids only grow; the saved ones only shrink by a loss of the main file |
| CommandLedger.OnlyLatestAtRisk | solar_monitor/cloud/command_verify.py:278-308 | Over any run without surviving write failures or unnoticed losses, memory and disk agree and the only id at risk is the one last recorded |
| CommandLedger.LosingTheMainFileCostsTheLatest | solar_monitor/cloud/command_verify.py:278-308 | From a fresh start, over any such run, losing the main file un-sees nothing the ledger held but the latest record |
| CommandLedger.LossCostsExactly | solar_monitor/cloud/command_verify.py:276-308 | After any run at all, an id the ledger holds is un-seen by losing the main file exactly when it is not settled |
| CommandLedger.OnlyTheLatestIsLostExactly | solar_monitor/cloud/command_verify.py:276-308 | After a new record, losing the main file gives back what was on disk before; it costs nothing but that record exactly when memory and disk agreed before it |
| CommandLedger.RunningOnCostsTwo | solar_monitor/cloud/command_verify.py:302-308 | A run where they do not: a daemon that runs on without its main file keeps a stale copy, and the next loss costs two records |
| CommandLedger.FailedWriteIsNotRepeated | solar_monitor/cloud/command_verify.py:293-294 | Recording an id again after its write failed returns early, and a restart forgets it |
| CommandLedger.FreshStartIsFaithful | solar_monitor/cloud/command_verify.py:276-285 | An empty disk is a faithful start |
| CommandIntake.Daemon.Admit | solar_monitor/cloud/service.py:304-334 | The heartbeat: a command the ledger does not refuse becomes a task |
| CommandIntake.Daemon.PassGuards | solar_monitor/cloud/commands.py:95-157 | A waiting task runs up to its first suspension |
| CommandIntake.Daemon.CheckAndStart | solar_monitor/cloud/commands.py:112-157 | Per-process set, version gate and tried file, with every early return; a tried command whose target runs waits before it is recorded |
| CommandIntake.Daemon.FinishSettling | solar_monitor/cloud/commands.py:147-149 | and is recorded with its next step |
| CommandIntake.Daemon.CarryOut | solar_monitor/cloud/commands.py:204-441 | Behind the guards, kind by kind: the no-op at target, the refusals of a docker update or pin without its side-car, of a pin without a version, of a rollback on docker or without its helper, then the spawn and the terminal report |
| CommandIntake.Daemon.RecordTerminal | solar_monitor/cloud/commands.py:856-858 | A terminal status enters the ledger |
| CommandIntake.Daemon.Restart | solar_monitor/cloud/commands.py:110-111 | A restart forgets every task and the per-process set and keeps the disk |
| CommandIntake.DispatchIsRemembered | solar_monitor/cloud/commands.py:112-131 | Halving the per-process set keeps it true that an id out of it was exceeded by 250 dispatched ones |
| CommandIntake.TryIsSound | solar_monitor/cloud/commands.py:143-157 | Marking an untried id entitles to one more spawn |
| CommandIntake.GuardIsSound | solar_monitor/cloud/commands.py:112-157 | Every way through the guards keeps all three accounts |
| CommandIntake.CarryIsSound | solar_monitor/cloud/commands.py:204-325 | So does going on to the spawn, at any later time, with other tasks in between |
| CommandIntake.RestartIsSound | solar_monitor/cloud/commands.py:133-157 | So does dying anywhere, also between the mark in the tried file and the spawn |
| CommandIntake.RunIsSound | solar_monitor/cloud/commands.py:84-157 | Any run of presentations, interleaved tasks, late reports and restarts keeps them |
| CommandIntake.AtMostOnce | solar_monitor/cloud/commands.py:101-157 | A second spawn of an id takes 200 larger tried ids; a second dispatch in one process takes 250 larger ids dispatched by it |
| CommandIntake.NewCommandIsSpawned | solar_monitor/cloud/commands.py:84-325 | A new, acceptable, untried command whose way is open is spawned, once: an update unless at its target or without its side-car under docker, a rollback with its helper outside docker, a named pin by the side-car |
| CommandIntake.SpawnsExactly | solar_monitor/cloud/commands.py:204-441 | No other step of the daemon spawns anything |
| CommandIntake.GuardStartsExactly | solar_monitor/cloud/commands.py:112-157 | The guards start a command exactly when it was not dispatched here and, for a spawning kind, is acceptable and untried; it is then marked as tried |
| CommandIntake.RecordsExactly | solar_monitor/cloud/commands.py:112-325 | Exactly the steps that end a command record it |
| CommandIntake.ForgetsAt500 | solar_monitor/cloud/commands.py:129-131 | Nothing is forgotten below 500 dispatched ids; then the newest 250 are kept |
| CommandIntake.RetryIsSettled | solar_monitor/cloud/commands.py:143-156 | A tried command that this process has not dispatched is not spawned; it ends in the ledger, at once or, when its target runs, with its next step |
| CommandIntake.SettlingSettles | solar_monitor/cloud/commands.py:147-149 | That step ends in the ledger and spawns nothing |
| CommandIntake.ResendIsSettled | solar_monitor/cloud/commands.py:143-156 | So a tried command sent again after a restart is never spawned and, unless the daemon dies again in between, settled, whatever became of it before |
| CommandIntake.SettledIsFinal | solar_monitor/cloud/command_verify.py:23-24 | An id that the ledger refuses and no task is about is never dispatched or spawned again in any run, and stays refused |
| JsonText.ReadsString | solar_monitor/cloud/command_verify.py:82-96 | Every string printed as JSON is read back, whatever follows it |
| JsonText.ReadsEscaped | solar_monitor/cloud/command_verify.py:82-96 | Every character's escape is read back and never starts with a quote |
| JsonText.EscapesAreShortest | solar_monitor/cloud/command_verify.py:82-96 | Of all spellings of a character the shortest is printed, and there is only one shortest |
| JsonText.IntsAreShortest | solar_monitor/cloud/command_verify.py:82-96 | The same for integers: no leading zeros |
| JsonText.ReadsInt | solar_monitor/cloud/command_verify.py:82-96 | Every integer printed in decimal is read back |
| JsonText.ReadsOptString | solar_monitor/cloud/command_verify.py:74-78 | An optional string is read back, null being no string |
| JsonText.ReadsOptInt | solar_monitor/cloud/command_verify.py:75 | An optional integer is read back |
| Utf8.FirstCharIsUnique | solar_monitor/cloud/command_verify.py:66 | The UTF-8 bytes of two characters, whatever follows, tell them apart |
| Utf8.EncodeIsInjective | solar_monitor/cloud/command_verify.py:66 | A text is determined by its UTF-8 bytes |
| Utf8.FewestBytes | solar_monitor/cloud/command_verify.py:66 | Every character takes the fewest bytes |
| CommandRepr.ParsesIso | solar_monitor/cloud/command_verify.py:91 | The printed UTC time stamp is read back, with and without microseconds |
| CommandRepr.IsoIsUnique | solar_monitor/cloud/command_verify.py:91 | and is the only text that reads as it, separators and offset included |
| CommandRepr.DecodeInverts | solar_monitor/cloud/command_verify.py:69-96 | A decoder recovers every field of every command from its canonical form, the time stamp as UTC |
| CommandRepr.CanonicalReprIsObject | solar_monitor/cloud/command_verify.py:82-96 | The canonical form is the JSON object of nine named members, each with the text of the field it names, without spaces |
| CommandRepr.NamesAscend | solar_monitor/cloud/command_verify.py:94 | The names stand in alphabetical order |
| CommandRepr.DomainSpelled | solar_monitor/cloud/command_verify.py:42 | The domain prefix, letter by letter |
| CommandRepr.SameReprExactly | solar_monitor/cloud/command_verify.py:69-96 | Two commands share a canonical form exactly when they agree up to the offset of the time stamp |
| CommandRepr.OffsetIsNotSigned | solar_monitor/cloud/command_verify.py:157-161 | The offset itself leaves no trace in the canonical form |
| CommandRepr.SigningInputIsInjective | solar_monitor/cloud/command_verify.py:63-66 | Behind the UTC gate the signed bytes determine the command |
| CommandRepr.WithoutTheGate | solar_monitor/cloud/command_verify.py:156-163 | Why the gate is there: any offset gives the same signed bytes |
| CommandRepr.DomainSeparates | solar_monitor/cloud/command_verify.py:40-42 | No signed command equals the signing input of a token |
| AlertEngine.Engine.constructor | solar_monitor/alerts/engine.py:93-127 | A fresh engine; a window with equal ends is no window |
| AlertEngine.Engine.Evaluate | solar_monitor/alerts/engine.py:194-253 | The whole new state of one evaluation, with reloads coming in while events are handed over, and possibly cancelled: flush on the falling edge, then every rule of the list the loop started with; what it returns is what fired |
| AlertEngine.Engine.Consider | solar_monitor/alerts/engine.py:215-252 | One rule: disabled, unknown operator, no reading, threshold, cooldown, then the fire and the reloads during its hand-over |
| AlertEngine.Engine.Fire | solar_monitor/alerts/engine.py:230-250 | A fire enters cooldown table and capped history, and is held back or handed over |
| AlertEngine.Engine.FlushPending | solar_monitor/alerts/engine.py:255-264 | The buffer is emptied first; then everything in it is handed over in firing order, or, when cancelled, a prefix |
| AlertEngine.Engine.ReloadRules | solar_monitor/alerts/engine.py:172-180 | The rules are replaced and only the memory of rules that are gone is dropped |
| AlertEngine.Engine.RecentEventsSince | solar_monitor/alerts/engine.py:157-170 | The backward scan returns the last `limit` events of the longest tail later than `ts` |
| AlertProperties.StepConserves | solar_monitor/alerts/engine.py:194-264 | An evaluation or reload repeats no alert, never holds back an alarm, keeps the history the last 200 fires, and loses exactly what a cancelled flush had not begun to hand over; outside quiet hours nothing is left held back |
| AlertProperties.RunConserves | solar_monitor/alerts/engine.py:172-264 | The same over any run |
| AlertProperties.FlushSplits | solar_monitor/alerts/engine.py:262-264 | A flush hands over a prefix of the buffer and loses the rest |
| AlertProperties.RunLosesNothing | solar_monitor/alerts/engine.py:255-264 | Without a cancelled flush no run loses anything |
| AlertProperties.EveryAlertOnce | solar_monitor/alerts/engine.py:194-264 | From a fresh start, every fire was handed over exactly once, is still held back, or was lost by a cancelled flush, and only one of these; without a cancelled flush none is lost |
| AlertProperties.FiresExactly | solar_monitor/alerts/engine.py:216-229 | A rule fires exactly when it is enabled, its reading is there and meets the threshold as its operator says, and its last fire is its cooldown ago |
| AlertProperties.EvaluationFiresExactly | solar_monitor/alerts/engine.py:215-252 | With distinct ids, exactly the due rules fire in an evaluation, each once, whatever reloads come in: with its name, severity, reading, threshold and time, to its transports, held back exactly when not an alarm in quiet hours |
| AlertProperties.UndisturbedEvaluationFiresExactly | solar_monitor/alerts/engine.py:215-252 | The same without reloads, in terms of the last fires at the start |
| AlertProperties.WindowByHours | solar_monitor/alerts/engine.py:182-192 | An hour is quiet exactly when it is fewer hours from the start of the window than the end is |
| AlertProperties.RunIsSpaced | solar_monitor/alerts/engine.py:172-180 | Over any run whose reloads keep a rule, its fires from there on are at least its cooldown apart and the last one is remembered |
| AlertProperties.CooldownHolds | solar_monitor/alerts/engine.py:227-230 | Whatever the clock does and whatever happened before: while reloads keep a rule, no two of its events are closer than its cooldown or share a time stamp, so only a reload between two fires can bring them closer |
| AlertProperties.EarlyFireExactly | solar_monitor/alerts/engine.py:178-230 | A rule looked at again within its cooldown fires exactly when one of the reloads since its fire dropped it |
| AlertProperties.RunRemembersExactly | solar_monitor/alerts/engine.py:172-230 | Over any run in which a rule stays silent, its last fire is remembered exactly until a reload that comes in drops it |
| AlertProperties.EarlyAfterRunExactly | solar_monitor/alerts/engine.py:172-230 | So after any such run a rule fires within its cooldown exactly when a reload that came in dropped it |
| AlertProperties.DroppedRuleCanRepeat | solar_monitor/alerts/engine.py:178-179 | For every rule with a positive cooldown, dropping and restoring it lets it repeat an event exactly |
| AlertProperties.SuffixIsComplete | solar_monitor/alerts/engine.py:164-166 | In a chronological history the early stop misses nothing |
| AlertProperties.FeedIsComplete | solar_monitor/alerts/engine.py:116-122 | With a clock that never steps back, the feed is the newest `limit` of all later events among the last 200 fires |
| Forecast.WalkForecast | solar_monitor/viewmodels.py:96-116 | The walk returns the first zero of the piecewise-linear stored energy, or none; "reserves indefinite" holds exactly when the energy stays positive up to the horizon |
| Forecast.WalkFindsFirstZero | solar_monitor/viewmodels.py:101-116 | The walk's specification meets that definition for every forecast |
| Forecast.FirstZeroIsUnique | solar_monitor/viewmodels.py:105-113 | There is only one such moment |
| Forecast.DepletionIsMonotone | solar_monitor/viewmodels.py:96-116 | More load, less PV or less usable energy never makes the depletion later |
| Forecast.NeverBeforeNaive | solar_monitor/viewmodels.py:71-72 | With a load and no negative PV the depletion is never earlier than usable energy divided by load |
| Forecast.AtTheReserve | solar_monitor/viewmodels.py:62-64 | With nothing usable, the bank is reported empty now exactly when the first interval loses energy |
| Energy.Attribute | solar_monitor/api/energy.py:123-138 | The loop's three energies add up to the energy of the bucket loads and none is negative |
| Energy.BucketConserves | solar_monitor/api/energy.py:130-138 | In every bucket the shares add up to its load |
| Energy.InputsSpelled | solar_monitor/api/energy.py:125-129 | What the readings of a bucket mean: missing and negative inputs count as none, the bank charges or discharges |
| Energy.SharesAreProportional | solar_monitor/api/energy.py:136-138 | In every bucket each source is credited in proportion to what it puts in |
| Energy.SplitConserves | solar_monitor/api/energy.py:123-138 | The same over all buckets |
| Energy.PercentagesTotal | solar_monitor/api/energy.py:139-140 | The percentages total 100 whenever anything was served, else 0 |
| Energy.PercentagesAreShares | solar_monitor/api/energy.py:140 | Each percentage is that of its own source |
| Energy.LoadIsNetSum | solar_monitor/api/energy.py:109-115 | The reported load, from four separate sums, is the net sum over the buckets, never negative |
| Energy.ServedAgainstLoad | solar_monitor/api/energy.py:115-138 | The energy attributed is at least the reported load, with equality exactly when no bucket charges beyond its inputs or nothing is served at all |
| WeatherHistory.GridIsEveryBoundary | solar_monitor/api/weather_history.py:126-128 | A time is in the grid exactly when it is a bucket boundary from the one at or before `since` up to `until`; the grid is in order without repetition |
| WeatherHistory.Interp | solar_monitor/api/weather_history.py:177-217 | At every grid point the pointer walk gives the value of the definition by search; the pointer advances at most once per sample over the whole grid |
| WeatherHistory.Pick | solar_monitor/api/weather_history.py:193-216 | One grid point from the pointer alone |
| WeatherHistory.PointerIsLast | solar_monitor/api/weather_history.py:191-192 | The pointer is the greatest sample at or before the grid point |
| WeatherHistory.ValueExactly | solar_monitor/api/weather_history.py:201-211 | The real reading on a sample, and between samples a value exactly when both neighbours have one |
| WeatherHistory.NothingOutside | solar_monitor/api/weather_history.py:193-195 | None before the first and after the last sample |
| WeatherHistory.ValueIsOnLine | solar_monitor/api/weather_history.py:215-216 | Between two real neighbours the value lies on the line through them |
| WeatherHistory.ValueIsBetween | solar_monitor/api/weather_history.py:215-216 | An interpolated value lies between its neighbours |
| OidcPending.PendingStore.constructor | solar_monitor/auth/oidc_rp.py:327-360 | A starting process takes over the unexpired entries of the file |
| OidcPending.PendingStore.StashPending | solar_monitor/auth/oidc_rp.py:363-378 | Expire, evict the oldest down to the cap, add, mirror to disk |
| OidcPending.PendingStore.ConsumePending | solar_monitor/auth/oidc_rp.py:381-392 | Expire, remove, mirror to disk; nothing is returned after its time to live |
| OidcPending.PutAdds | solar_monitor/auth/oidc_rp.py:371-376 | A new token adds one entry at the end, a known one is replaced in place |
| OidcPending.StepIsSound | solar_monitor/auth/oidc_rp.py:305-401 | Every stash, redemption and restart keeps the cap, the tokens distinct and the disk equal to memory plus expired entries |
| OidcPending.RunIsSound | solar_monitor/auth/oidc_rp.py:305-401 | The same over any run |
| OidcPending.StoreIsBounded | solar_monitor/auth/oidc_rp.py:367-369 | Never more than 20 entries, in memory or on disk |
| OidcPending.ExpiredAreDropped | solar_monitor/auth/oidc_rp.py:395-401 | No step leaves an entry older than 300 seconds in memory |
| OidcPending.RedeemedAtMostOnce | solar_monitor/auth/oidc_rp.py:381-392 | Over any run with restarts, a token is redeemed at most as often as it was handed out |
| OidcPending.RunIsTidy | solar_monitor/auth/oidc_rp.py:363-401 | Under a clock that never steps back the entries stay in order of creation, in memory and on disk, and the disk covers memory |
| OidcPending.RedeemableInTime | solar_monitor/auth/oidc_rp.py:363-392 | Over any run from an empty store under a clock that never steps back, a login handed out can be redeemed within its time to live, across restarts, if fewer than 20 were handed out after it |
| Redaction.RedactCredentials | solar_monitor/api/backup.py:290-317 | The recursion, with its growing breadcrumb list, equals the pure transformation and the list of paths it blanks |
| Redaction.RedactMapping | solar_monitor/api/backup.py:293-311 | The same for the entries of a mapping |
| Redaction.RedactList | solar_monitor/api/backup.py:312-316 | The same for the items of a list |
| Redaction.RedactTwice | solar_monitor/api/backup.py:290-317 | Redacting again changes nothing and reports nothing |
| Redaction.RedactKeepsShape | solar_monitor/api/backup.py:290-317 | Keys, order, lists and non-strings are kept |
| Redaction.RedactedAt | solar_monitor/api/backup.py:290-317 | The effect at every path: redacted in turn before any secret-looking key, blanked at the first, untouched beyond it |
| Redaction.LooksSecretExactly | solar_monitor/api/backup.py:267-299 | A key looks secret exactly when its name in lower case has one of the nine parts somewhere in it |
| Redaction.LowersLetters | solar_monitor/api/backup.py:298 | Both cases of a letter count as the small one |
| Redaction.SecretsAreBlanked | solar_monitor/api/backup.py:300-308 | Every string at its path's first secret-looking key is empty afterwards; all other strings, numbers and flags are what they were |
| Redaction.FoundExactly | solar_monitor/api/backup.py:300-305 | A breadcrumb is left exactly for a non-empty string at its path's first secret-looking key |
| Redaction.BreadcrumbsAreTheChanges | solar_monitor/api/backup.py:290-317 | The breadcrumbs are exactly the strings that differ afterwards |
| Redaction.BreadcrumbsAreListedOnce | solar_monitor/api/backup.py:290-317 | and none is listed twice |
| ConfigRestore.SanitizeRestoredConfig | solar_monitor/api/backup.py:273-287 | The loop returns the allowed entries redacted, the keys dropped and the breadcrumbs |
| ConfigRestore.AllowedIsNotSecret | solar_monitor/api/backup.py:248-270 | No allowed top-level key looks secret, so the export never blanks a block that a restore would keep |
| ConfigRestore.GetExported | solar_monitor/api/backup.py:104-114 | What an export holds under each key, the cloud block verbatim |
| ConfigRestore.GetSanitized | solar_monitor/api/backup.py:282-287 | What a sanitized configuration holds under each key |
| ConfigRestore.KeptExactly | solar_monitor/api/backup.py:248-285 | A restore keeps exactly the 25 listed blocks |
| ConfigRestore.DroppedExactly | solar_monitor/api/backup.py:283-285 | and reports exactly the other keys as dropped |
| ConfigRestore.CrumbsExactly | solar_monitor/api/backup.py:286-287 | The breadcrumbs are exactly the non-empty strings at their path's first secret-looking key, under kept keys |
| ConfigRestore.RestoreOfExport | solar_monitor/api/backup.py:414-425 | Restoring an export changes nothing further outside `cloud` but dropping keys that are not allowed; a live `cloud` block is kept verbatim |
| ConfigRestore.RestoreReportsOnlyCloud | solar_monitor/api/backup.py:436-443 | Restoring an export reports redactions only inside `cloud` |
| SignedAudit.AuditLog.BeginWrite | solar_monitor/signed_audit.py:106-118 | The first half of a write, up to its suspension: the header links to the tail read now; the log is unchanged |
| SignedAudit.AuditLog.FinishWrite | solar_monitor/signed_audit.py:120-136 | The second half: a row with that header, its canonical form and signature and the next number, whatever came in between |
| SignedAudit.AuditLog.FetchPending | solar_monitor/signed_audit.py:139-174 | The oldest rows not yet uploaded, at most `limit` of them |
| SignedAudit.AuditLog.MarkUploaded | solar_monitor/signed_audit.py:177-190 | Exactly the given rows that had no upload time get one |
| SignedAudit.InsertLinksExactly | solar_monitor/signed_audit.py:106-136 | With an injective hash, a row inserted on the strength of some tail keeps the log linked exactly when that is still the tail |
| SignedAudit.TailTellsLength | solar_monitor/signed_audit.py:82-87 | In a linked log no earlier tail equals the present one |
| SignedAudit.StepLinksExactly | solar_monitor/signed_audit.py:106-136 | One step keeps a linked log linked exactly when it inserts no row overtaken by another |
| SignedAudit.RunLinksExactly | solar_monitor/signed_audit.py:90-136 | Over any run of overlapping writes, uploads and acknowledgements, the log is linked exactly when no insert fell between another write reading the tail and its own insert |
| SignedAudit.OverlappingWritesFork | solar_monitor/signed_audit.py:106-120 | Two writes that both read before either inserts leave a log that is not linked, from every linked log |
| SignedAudit.OneAtATimeIsNotOvertaken | solar_monitor/signed_audit.py:106-136 | Writes that begin only when none waits, as a lock would have it, are never overtaken |
| SignedAudit.TailPinsTheLog | solar_monitor/signed_audit.py:53-79 | With an injective hash and canonical form, two linked logs that end in the same signed form have the same length and the same signed rows |
| SignedAudit.StepIsSound | solar_monitor/signed_audit.py:90-190 | Halves of writes, fetches and acknowledgements of a batch or a prefix keep the rows numbered and the uploaded rows a prefix, linked or not |
| SignedAudit.RunIsSound | solar_monitor/signed_audit.py:90-190 | The same over any run, with writes overlapping and acknowledgements late or repeated; the prefix only grows |
| SignedAudit.AcknowledgeKeepsPrefix | solar_monitor/signed_audit.py:177-190 | Acknowledging consecutive rows that start no later than the first one not uploaded leaves no gap |
| SignedAudit.BatchesAreContiguous | solar_monitor/signed_audit.py:147-156 | After any run a batch starts at the first row not uploaded and lists its successors without a gap |
| SignedAudit.FirstAcknowledgementStands | solar_monitor/signed_audit.py:186-188 | Once a row has its upload time, no run changes the row again |
| SignedAudit.RunIsSigned | solar_monitor/signed_audit.py:109-118 | Over any run, linked or not, every row carries the canonical form of its fields and a signature of that form |
| SignedAudit.WrittenAsGiven | solar_monitor/signed_audit.py:90-136 | A write begun and finished adds one row with the fields it was given |
| SignedAudit.StampsExactly | solar_monitor/signed_audit.py:184-190 | An acknowledgement stamps exactly the rows it names that had no upload time, and changes nothing else |

## Left out

- SettingsWrite.Bus.Exchange: a link failure is taken to happen before the device is reached, and requests are not damaged on the way; the timeouts and the pause between the passes are not modelled.
- SettingsWrite.ReportIsHonest: the device serves one request at a time and nobody else writes the register between the two passes.
- FakeSlave.Device.Receive: the device clears its buffer when it stops, as its variables are gone by then; reads of at most 256 bytes are just reads.
- CommandLedger.Ledger.Record: a cap of at least one is required (a slice from `-0` keeps everything); a write stops after one of its steps, and what a step did before a crash stays done.
- CommandLedger.Ledger.HasSeen: a cap of at least one is required, as above.
- CommandIntake.Daemon.Admit: verifying the signature comes first and is not modelled; a missing id is not modelled.
- CommandIntake.Daemon.CheckAndStart: runs without interruption, as the guards hold no suspension point before the mark; writes of the tried file succeed; the ledger is the list that survives a restart, its files being the subject of `CommandLedger`.
- CommandIntake.Daemon.CarryOut: a spawn that fails counts as a spawn; of the other kinds only the terminal status they report is modelled; snapshots before an update are not modelled.
- CommandRepr.DecodeInverts: the wall clock must consist of fields that fit the printed widths; a text with a lone surrogate, which cannot be encoded as UTF-8, has no counterpart.
- AlertEngine.Engine.Evaluate: metrics are looked up in a map of readings instead of the snapshot of all devices, the hour is a parameter, and sending by the transports is a hand-over. A reload during the flush is a reload before the evaluation: the flush touches neither rules nor cooldowns, and the loop takes the rules after it. A hand-over during which the evaluation is cancelled counts as begun.
- Forecast.WalkForecast: takes the future points sorted and filtered, and its result before truncation to whole seconds and rounding; usable energy is not negative.
- Energy.Attribute: aligning the series to the grid, and rounding, are not modelled.
- WeatherHistory.Interp: a grid and samples in ascending order are an assumption; the samples come from a service and are not sorted.
- OidcPending.PendingStore.constructor: malformed entries of the file are not modelled, and writes succeed.
- OidcPending.RedeemableInTime: assumes tokens that are new to the disk, as random ones are.
- Redaction.RedactCredentials: breadcrumbs are paths rather than their printed form; of `str.lower` only what can complete a secret part is modelled.
- ConfigRestore.RestoreOfExport: the fall-back after a failed parse, the archive and the swap of files are not modelled.
- SignedAudit.TailPinsTheLog: hash and canonical form are parameters, injective by assumption; the same holds for canonical forms never being empty where links are concerned.
- SignedAudit.AuditLog.FinishWrite: an insert is taken to last; a crash before the commit of the caller, which takes rows back, is not modelled.
- Radio, serial, HTTP, SQLite, YAML and archive access: libraries that are not part of this model.
- Cryptography and key fetching: not part of this model.
- Rounding of floating-point numbers: arithmetic is over the reals.
- Settings endpoints, session store, demo data, vendor drivers, allow-lists: not part of this model.
