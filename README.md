# Shed controller adapter — Dafny model

This project models the core of the ioBroker "shed" adapter.

The adapter polls a shed controller over UDP. It sends 2-byte request frames and decodes three fixed little-endian reply layouts:
- `E`: state and sensors;
- `C`/`c`: network counters;
- `P`/`p`: persisted exception data.

The adapter publishes every decoded reading as acknowledged ioBroker states under `state.`, `counter.` or `persist.`. It also turns user writes to `state.relay`, `counter.reset` and `persist.reset` into device commands.

Modules:
- `Bytes`: bytes as integers 0..255, plus little-endian assembly (`FromLE`/`ToLE`) with its round trips. `U16At` and `U32At` read a word at a fixed offset.
- `Codec`: the wire format of `shed.js`.
  - `Frame` is the request `send` builds. `RequestCommand` reads a frame back.
  - `Decode` classifies a datagram the way `recv` does: `Malformed`, `TooShort`, `Unknown` or `Parsed`.
  - `TaskName` is the persisted task-name window.
  - `Encode` is a reference encoder. It is the partner of `Decode` in the round trip `Decode(Encode(r)) == Parsed(r)`.
- `Float32`: the nine measurements are kept as raw IEEE-754 single words.
  - `LightOn` is `light > 1.0` decided on the word.
  - It is proved equal to `ExceedsOne`, a reference definition on the real number the word denotes.
- `Poller`: the `Shed` class.
  - Its state is an optional socket, the four callback slots, and ghost traces of the frames sent and the sockets closed.
  - `Recv` returns, in order, the callbacks it invokes with their arguments.
- `Adapter`: the `ShedInterface` class.
  - Its state is the `Shed` it owns (`shed`), the poll cursor, the remembered relay value, the timer flag, a ghost trace of every `setState` call, and a ghost count `unloadCalls` of the invocations of `onUnload`'s callback.
  - Its invariant `Valid` has three parts: the cursor stays in 0..3, the three reading callbacks stay wired, and `RelayPublished` holds. `RelayPublished` says the last value the adapter itself wrote to `state.relay` is the remembered relay value. A user's write to `state.relay` is not in the trace.
  - A JavaScript object is its list of entries in insertion order, which is the order `Object.entries` yields.

Behaviours of the code a reader may not expect:
- A reply that is too short for its kind is dropped, and `TooShort` keeps the kind character that was received, lower or upper case.
- `lightOn` is not part of the decoded reading. `gotinfo` adds it to the object before publishing.
- A reply of an unknown kind still reaches `ondata`, with an undefined object.
- A poll or a command while the socket is closed throws before anything is transmitted. By then `poll` has already advanced its cursor.
- Node's `ascii` decoding clears the high bit of each byte. A byte `0x80` in the task window therefore becomes NUL and cuts the name there.

## Model

| member | source | states |
|---|---|---|
| Bytes.FromLE | shed.js:132 | the little-endian value of n bytes, as readUInt16LE and readUInt32LE assemble it, is below 256^n; FromToLE and ToFromLE pin it as the inverse of ToLE |
| Bytes.FromToLE | shed.js:132 | reading back n little-endian bytes written from v < 256^n gives v |
| Bytes.ToFromLE | shed.js:162-169 | writing back the value of any byte string gives the same bytes |
| Bytes.LowBitInFirstByte | shed.js:136 | bit 0 of a little-endian number is bit 0 of its first byte |
| Bytes.U16At | shed.js:132 | a u16 read at an in-bounds offset is below 65536 |
| Bytes.U32At | shed.js:162-169 | a u32 read at an in-bounds offset is below 2^32 |
| Bytes.WordAt | shed.js:160-170 | the u32 read at offset head+4i of a packed word list is the i-th word |
| Bytes.LE32sOfRead | shed.js:162-169 | u32s read one after another from an offset, written back as a run of little-endian words, reproduce exactly the bytes they were read from |
| Bytes.LE32sInjective | shed.js:162-169 | two runs of u32 words with the same little-endian bytes are the same words |
| Codec.Frame | shed.js:93-97 | a request frame is exactly 2 bytes |
| Codec.RequestCommand | shed.js:95-97 | a byte string is a request exactly when it is 2 bytes starting with tag 2, and it carries byte 1 as its command |
| Codec.FrameRoundTrip | shed.js:93-97 | the frame for cmd is [2, code of cmd], carries cmd, and is the only frame that carries cmd |
| Codec.AsciiChar | shed.js:184 | 'ascii' decoding gives a 7-bit character, NUL exactly for bytes 0 and 0x80 |
| Codec.IndexOf | shed.js:185 | the result is the first position of the character, or -1 exactly when it is absent |
| Codec.TaskName | shed.js:184-187 | the task name has at most 8 characters and no NUL, is a prefix of the decoded window, and is cut exactly at the first NUL |
| Codec.TaskNameOfField | shed.js:184-187 | a NUL-padded 8-byte field holding a name of non-NUL 7-bit characters decodes to that name, the full 8 when there is no padding |
| Codec.IndexOfPadding | shed.js:185-187 | the first NUL of a NUL-free name followed by padding is at the end of the name, or absent without padding |
| Codec.DecodeInfo | shed.js:132-146 | an E reply of 40 bytes or more decodes to a well-formed info reading: kind E, flags a u16, relay equal to flags bit 0, nine u32 words |
| Codec.DecodeCounters | shed.js:160-170 | a C/c reply of 34 bytes or more decodes to a well-formed counters reading that keeps the received kind |
| Codec.DecodePersisted | shed.js:184-196 | a P/p reply of 24 bytes or more decodes to a well-formed persisted reading: kind kept, three u32s, a byte exc_type, and a task name of at most 8 non-NUL 7-bit characters; ReEncodePersisted pins every field to its offset for every such reply |
| Codec.Decode | shed.js:113-211 | under 2 bytes is Malformed, an unknown kind is Unknown, a known kind under its minimum (40, 34 or 24) is TooShort with that kind and minimum, and otherwise the reply parses to a well-formed reading of the received kind, each case exactly when its condition holds |
| Codec.Encode | shed.js:128-196 | the reference encoding of a reading has the kind's minimum length and the kind at byte 1 |
| Codec.DecodeEncodeInfo | shed.js:132-146 | decoding the encoding of a well-formed info reading gives it back |
| Codec.DecodeEncodeCounters | shed.js:160-170 | decoding the encoding of a well-formed counters reading gives it back |
| Codec.DecodeEncodePersisted | shed.js:184-196 | decoding the encoding of a well-formed persisted reading gives it back |
| Codec.DecodeEncode | shed.js:113-211 | decode inverts encode for every well-formed reading |
| Codec.U32AtAgree | shed.js:160-170 | a u32 field depends only on its own four bytes |
| Codec.DependsOnlyOnLayout | shed.js:122-196 | two replies of the same known kind that agree on bytes 1 up to the kind's minimum length decode identically |
| Codec.ReEncodeInfo | shed.js:132-146 | every E reply of 40 bytes or more has the same bytes 1 to 39 as the encoding of its decoded reading: flags at 2, the nine words at 4, 8, ..., 36 |
| Codec.ReEncodeCounters | shed.js:160-170 | every C/c reply of 34 bytes or more has the same bytes 1 to 33 as the encoding of its decoded reading: the eight counters at 2, 6, ..., 30 |
| Codec.ReEncodePersisted | shed.js:184-196 | every P/p reply of 24 bytes or more has the same bytes 1 to 14 as the encoding of its decoded reading (restarts at 2, exceptions at 6, exc_addr at 10, exc_type at 14), whatever byte 23 and the bytes after the name's end hold; each byte of the task name is encoded as the received byte with its high bit cleared |
| Codec.ReEncode | shed.js:128-196 | every parsed reply has the same bytes as the encoding of its reading from byte 1 up to the end of its numeric fields: the minimum length for E and C/c, byte 14 for P/p |
| Codec.LengthTagIgnored | shed.js:122 | the length byte 0 never affects the decoding |
| Codec.TrailingBytesIgnored | shed.js:128-205 | bytes appended to a parsed or unknown reply do not change its decoding |
| Codec.RelayIsBitZeroOfByteTwo | shed.js:132-136 | the relay of a parsed info reply is set exactly when bit 0 of byte 2 is set |
| Float32.Frac | shed.js:137-145 | the fraction field denotes a real in [0, 1), positive exactly when the field is |
| Float32.MagnitudeExceedsOne | main.js:93 | a finite single's magnitude exceeds 1 exactly when its exponent is above the bias, or at it with a nonzero fraction |
| Float32.LightOnFields | main.js:93 | the word comparison holds exactly for positive non-NaN words above 1.0 |
| Float32.LightOn | main.js:93 | `light > 1.0` on the word; its meaning is stated by LightOnExceedsOne |
| Float32.NumberTruthy | shed.js:90 | truthiness of a number word: false for +0, -0 and NaN; its meaning is stated by NumberTruthyNonzero |
| Float32.ZeroFields | shed.js:137-145 | the only words whose exponent and fraction fields are both zero are +0 and -0 |
| Float32.NumberTruthyNonzero | shed.js:90 | a non-NaN number is truthy exactly when it is infinite or its real value is not zero |
| Float32.LightOnExceedsOne | main.js:93 | comparing the word with 1.0's word and +Infinity's agrees with `light > 1.0` on the real value, with NaN and negatives false |
| Poller.Shed.constructor | shed.js:12-19 | a new shed has no client and no callbacks set |
| Poller.Shed.Start | shed.js:21-27 | a socket is opened only when there is no client; a second start keeps the first handle |
| Poller.Shed.Stop | shed.js:29-35 | the client is closed and cleared if present; a second stop closes nothing |
| Poller.Shed.Send | shed.js:93-102 | with a client exactly one frame [2, cmd] is transmitted; without one nothing is |
| Poller.Shed.FetchState | shed.js:41-45 | sends the frame for E |
| Poller.Shed.FetchCounters | shed.js:51-54 | sends the frame for c |
| Poller.Shed.ResetCounters | shed.js:60-63 | sends the frame for C |
| Poller.Shed.FetchPersisted | shed.js:69-72 | sends the frame for p |
| Poller.Shed.ResetPersisted | shed.js:78-81 | sends the frame for P |
| Poller.Shed.SetRelay | shed.js:88-91 | sends R for on and r for off |
| Poller.Shed.Specific | shed.js:148-149 | the kind-specific callback of a reading when its slot is set (also shed.js:172-173 and 198-199); Recv's ensures state the callbacks in terms of it |
| Poller.Shed.Recv | shed.js:113-211 | a malformed or too-short datagram fires nothing. A parsed one fires its kind's callback if set, then ondata with the same reading. An unknown kind fires only ondata, with nothing. Every kind-specific callback carries the decoding of the datagram, with the datagram's kind |
| Adapter.Mask3 | main.js:73 | `x & 3` on a byte-sized x is x mod 4 |
| Adapter.Next | main.js:72-73 | the cursor after one poll is the old cursor plus one, mod 4 |
| Adapter.Schedule | main.js:71-76 | n polls from cursor i send n ASCII command characters; ScheduleAt gives each one and RunTimer ties it to Poll |
| Adapter.AdvanceMod | main.js:72-73 | the cursor after m polls from i is (i + m) mod 4 |
| Adapter.AdvanceStep | main.js:72-73 | one more poll moves the cursor one more step |
| Adapter.ScheduleAt | main.js:30-31 | poll k of a run from cursor i sends POLL_SEQ at (i + k) mod 4 |
| Adapter.ScheduleStep | main.js:71-75 | one more poll sends the character under the cursor the earlier polls left |
| Adapter.ScheduleSplit | main.js:71-76 | m + n polls send what the first m send, then what n more send from where the cursor was left |
| Adapter.PollStep | main.js:71-76 | one more poll moves the cursor one step and adds exactly the frame for the character under it to the frames sent |
| Adapter.SchedulePeriodic | main.js:30-31 | the poll sequence repeats with period four from any cursor |
| Adapter.ScheduleFromStart | main.js:30-31 | from cursor 0 five polls send E, c, E, p, E |
| Adapter.Delete | main.js:88 | `delete o[key]`; DeleteMembers and DeleteDistinct state its meaning |
| Adapter.DeleteMembers | main.js:88 | after `delete o[key]` exactly the entries under other keys remain |
| Adapter.DeleteDistinct | main.js:88 | deleting a key keeps the object's keys distinct |
| Adapter.AckWrites | main.js:79-83 | the setState calls of setValues, one per entry; AckWritesAt states each one |
| Adapter.AckWritesAt | main.js:79-83 | setValues writes one acknowledged state per entry, in order, with id prefix + key and the entry's value |
| Adapter.LastWrittenNone | main.js:81 | a state has no written value exactly when no write touched its id |
| Adapter.LastWrittenSome | main.js:81 | a state's value is the one its latest write gave it |
| Adapter.LastWrittenAppend | main.js:81 | later writes to an id hide earlier ones; writes to other ids do not |
| Adapter.AckWritesPublish | main.js:79-83 | publishing an object with distinct keys leaves each of its keys' states at the entry's value |
| Adapter.AckWritesMiss | main.js:79-83 | publishing an object without the key leaves that state untouched |
| Adapter.OtherDeviceMiss | main.js:99-107 | publishing counters or persisted data never touches state.relay |
| Adapter.Entries | shed.js:133-146 | the object recv builds, with the source's keys in literal order (also shed.js:160-170 and 189-196); EntriesInfoObject and OnDatagram state what is published from it |
| Adapter.EntriesInfoObject | shed.js:133-146 | recv's info object has distinct keys, no lightOn key, and exactly one relay entry holding the reading's relay |
| Adapter.Dedup | main.js:87-93 | gotinfo's edit of the object; DedupShape, DedupRelay and DedupKeeps state its meaning |
| Adapter.InfoState | main.js:87-93 | the object gotinfo publishes for an info reading; OnDatagram's ensures and the Dedup lemmas state it |
| Adapter.DedupShape | main.js:87-93 | gotinfo's object keeps distinct keys and ends with lightOn |
| Adapter.DedupRelay | main.js:87-91 | gotinfo's object holds relay exactly when it differs from the remembered value, and then with the reading's value |
| Adapter.DedupKeeps | main.js:87-93 | gotinfo drops no entry other than relay |
| Adapter.DedupMissesRelay | main.js:87-88 | with an unchanged relay, nothing gotinfo publishes touches the relay state |
| Adapter.DedupWritesRelay | main.js:89-90 | with a changed relay, gotinfo publishes the new relay value |
| Adapter.DedupKeepsRelayPublished | main.js:85-96 | after gotinfo the last value the adapter itself wrote to state.relay equals the reading's relay, whether it was written again or suppressed |
| Adapter.EndsWith | main.js:253-258 | String.prototype.endsWith; EndsWithConcat states its meaning |
| Adapter.EndsWithConcat | main.js:253-258 | a string ends with a suffix exactly when it is some string followed by that suffix |
| Adapter.Truthy | shed.js:90 | JavaScript truthiness of a state value, which picks R or r; Route's SetRelay clause and NumberTruthyNonzero state it |
| Adapter.Command | shed.js:88-91 | every command character fits in one byte |
| Adapter.Route | main.js:248-263 | deleted and acknowledged states route nowhere. An unacknowledged id ending in relay routes to setRelay with the value's truthiness. Otherwise counter.reset and persist.reset route to their resets, and any other id routes nowhere |
| Adapter.ShedInterface.constructor | main.js:49-53 | the cursor starts at 0, nothing is remembered, and the shed is started with its three reading callbacks set and ondata unset |
| Adapter.ShedInterface.Poll | main.js:71-76 | sends the frame for the character under the pre-increment cursor and leaves the cursor at (i + 1) & 3, in 0..3 |
| Adapter.ShedInterface.RunTimer | main.js:55-58 | n firings of the poll timer, while it is set, leave the cursor at Advance(i, n) and, while the socket stays open, send exactly the frames of Schedule(i, n) |
| Adapter.ShedInterface.SetValues | main.js:79-83 | appends exactly the acknowledged writes of the object's entries, in order |
| Adapter.ShedInterface.GotInfo | main.js:85-96 | remembers the reading's relay. It publishes the object with relay deleted when the relay is unchanged, and lightOn appended. The last value the adapter itself wrote to state.relay stays equal to the remembered value |
| Adapter.ShedInterface.GotCounters | main.js:99-101 | publishes the counters object under counter. and keeps the relay invariant |
| Adapter.ShedInterface.GotPersisted | main.js:105-107 | publishes the persisted object under persist. and keeps the relay invariant |
| Adapter.ShedInterface.OnDatagram | shed.js:148-199 | a closed socket or a datagram that does not parse changes nothing. A parsed reading is published by its own handler: info with relay de-duplication, counters and persisted verbatim |
| Adapter.ShedInterface.OnStateChange | main.js:248-269 | a write that routes nowhere sends nothing and writes nothing. A routed write sends its command's frame, and a reset is then acknowledged with false; with a closed socket neither happens |
| Adapter.ShedInterface.SetState | main.js:257-260 | appends one acknowledged write of a reset flag, keeping the relay invariant |
| Adapter.ShedInterface.OnUnload | main.js:209-223 | clears the timer and stops the shed. The callback is called once, or twice when it throws from the try block and the catch block calls it again |

## Left out

- UDP I/O (`udp.createSocket`, `client.send`, `client.on("message")`) is not modelled. The socket is an abstract handle, and transmitted frames and closed sockets are ghost traces.
- The asynchronous send-completion callback that rethrows a transmit error is left out. It runs later on the event loop and has no sequential meaning here.
- The nine float measurements are kept as their raw 32-bit words, not converted to numbers. Only `light > 1.0` is decided, and it is decided exactly.
- ioBroker provisioning (`init`, `makeState`, `makeDevice`), the timer's clock and interval, `subscribeStates`, `onObjectChange`, and all console and log output are left out. The timer is a flag that `OnUnload` clears, and `RunTimer` stands for a number of its firings.
- The constructor and `onReady` are merged into one constructor. The configured poll interval is not modelled.
- The fixed IP address and port are configuration constants, not behaviour.
- Adapter.ShedInterface.OnStateChange: the user's own unacknowledged write to `state.relay`, which triggers this handler, is not recorded in `writes`; only the adapter's setState calls are. If a relay command is lost, the next E reply carries the old relay, `gotinfo` suppresses it as unchanged, and `state.relay` keeps the user's value while the device is in the other state. `RelayPublished` holds only of the adapter's own writes and says nothing about this case.
- Adapter.ShedInterface.OnStateChange: the warning branch for an unrecognised id refers to an undefined variable and throws a ReferenceError. It is modelled as having no effect.
- Adapter.ShedInterface.OnUnload: a throw from `shed.stop()` itself is not modelled. Only a throw from the log call or the callback is.
- Poller.Shed.Send: a character code above 255 would make `writeUInt8` throw. Callers only pass ASCII commands, so the model requires a one-byte code.
- Poller.Shed.Recv: a datagram under 2 bytes makes `readUInt8` throw out of the socket's message listener, which Node treats as an uncaught exception. The model returns `Malformed`, fires nothing, and `OnDatagram` changes nothing.
- Poller.Shed.Recv: `ondata` receives the same object `oninfo` received, after any change the handler made to it (gotinfo deletes relay and adds lightOn). `OnData(Some(reading))` carries the unchanged reading. The adapter never sets `ondata`.
- Poller.Shed.Recv: the callbacks are not run by `Recv` itself. It returns them in order, and `Adapter.ShedInterface.OnDatagram` runs the ones the adapter registers.
- Adapter.ShedInterface.GotInfo: it receives the relay and light values of recv's object as arguments, where the source reads them as `o.relay` and `o.light`.
