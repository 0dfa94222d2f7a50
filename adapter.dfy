/**
 * The ShedInterface adapter of main.js: it polls the shed on a fixed
 * four-command cycle, publishes every decoded reading as acknowledged states
 * under "state.", "counter." or "persist.", suppresses an unchanged relay
 * value, and turns user writes into commands.
 *
 * A JavaScript object is modelled by its own enumerable entries in insertion
 * order, which is the order Object.entries lists them. The setState calls the
 * adapter makes are recorded in a ghost trace.
 */
module Adapter {
  import opened Wrappers
  import opened Bytes
  import opened Codec
  import opened Float32
  import opened Poller

  /** A state value as the adapter stores it; a float is kept as its 32-bit word. */
  datatype Value = Null | Bool(b: bool) | Number(n: int) | Float(bits: nat) | Str(s: string)

  /** A state change delivered to onStateChange. */
  datatype HostState = HostState(val: Value, ack: bool)

  /** One setState call. */
  datatype StateWrite = StateWrite(id: string, val: Value, ack: bool)

  /** A JavaScript object, as the list of its entries. */
  type Object = seq<(string, Value)>

  /** An ASCII command character, which fits the one byte send writes it into. */
  type CommandChar = c: char | c as int < 128

  /** The fixed poll cycle: state, counters, state, persisted. */
  const PollSeq: seq<CommandChar> := "EcEp"

  // ------------------------------------------------------------------ poll cursor

  /** `x & 3` on a small non-negative number. */
  function Mask3(x: nat): (r: nat)
    requires x < 256
    ensures r == x % 4
  {
    ((x as bv8) & 3) as nat
  }

  /** The cursor after one poll: incremented, then masked with 3. */
  function Next(i: nat): (j: nat)
    requires i < 4
    ensures j == (i + 1) % 4
  {
    Mask3(i + 1)
  }

  /** The commands n successive polls send when the cursor starts at i. */
  function Schedule(i: nat, n: nat): (s: seq<CommandChar>)
    requires i < 4
    ensures |s| == n
    decreases n
  {
    if n == 0 then [] else [PollSeq[i]] + Schedule(Next(i), n - 1)
  }

  /** The cursor after m polls from i. */
  function Advance(i: nat, m: nat): (j: nat)
    requires i < 4
    ensures j < 4
    decreases m
  {
    if m == 0 then i else Advance(Next(i), m - 1)
  }

  /** The cursor after m polls is i + m taken mod 4. */
  lemma {:induction false} AdvanceMod(i: nat, m: nat)
    requires i < 4
    ensures Advance(i, m) == (i + m) % 4
    decreases m
  {
    if m > 0 {
      AdvanceMod(Next(i), m - 1);
    }
  }

  /** m + n polls send what the first m send, then what n send from where those left the cursor. */
  lemma {:induction false} ScheduleSplit(i: nat, m: nat, n: nat)
    requires i < 4
    ensures Schedule(i, m + n) == Schedule(i, m) + Schedule(Advance(i, m), n)
    decreases m
  {
    if m > 0 {
      ScheduleSplit(Next(i), m - 1, n);
      assert Schedule(i, m + n) == [PollSeq[i]] + Schedule(Next(i), (m - 1) + n);
    }
  }

  /** Poll k of a run from cursor i sends the character at position (i + k) mod 4. */
  lemma {:induction false} ScheduleAt(i: nat, n: nat, k: nat)
    requires i < 4 && k < n
    ensures Schedule(i, n)[k] == PollSeq[(i + k) % 4]
    decreases k
  {
    if k == 0 {
      assert Schedule(i, n) == [PollSeq[i]] + Schedule(Next(i), n - 1);
    } else {
      ScheduleAt(Next(i), n - 1, k - 1);
    }
  }

  /** One more poll moves the cursor one more step. */
  lemma {:induction false} AdvanceStep(i: nat, m: nat)
    requires i < 4
    ensures Advance(i, m + 1) == Next(Advance(i, m))
    decreases m
  {
    if m > 0 {
      AdvanceStep(Next(i), m - 1);
    }
  }

  /** One more poll sends the character under the cursor the earlier polls left. */
  lemma ScheduleStep(i: nat, m: nat)
    requires i < 4
    ensures Schedule(i, m + 1) == Schedule(i, m) + [PollSeq[Advance(i, m)]]
  {
    ScheduleSplit(i, m, 1);
  }

  /** The request frames for a string of command characters, in order. */
  function Frames(s: seq<CommandChar>): seq<seq<Byte>>
  {
    seq(|s|, k requires 0 <= k < |s| => Frame(s[k]))
  }

  lemma FramesAppend(s: seq<CommandChar>, c: CommandChar)
    ensures Frames(s + [c]) == Frames(s) + [Frame(c)]
  {
  }

  /** One more poll: the cursor moves one step and one more frame is sent, for the character under it. */
  lemma PollStep(i: nat, m: nat)
    requires i < 4
    ensures Advance(i, m + 1) == Next(Advance(i, m))
    ensures Frames(Schedule(i, m + 1)) == Frames(Schedule(i, m)) + [Frame(PollSeq[Advance(i, m)])]
  {
    AdvanceStep(i, m);
    ScheduleStep(i, m);
    FramesAppend(Schedule(i, m), PollSeq[Advance(i, m)]);
  }

  /** The poll cycle has period four. */
  lemma SchedulePeriodic(i: nat, n: nat)
    requires i < 4
    ensures Schedule(i, 4 + n) == Schedule(i, 4) + Schedule(i, n)
  {
    assert Advance(i, 4) == i;
    ScheduleSplit(i, 4, n);
  }

  /** From a fresh cursor the polls send E, c, E, p and then E again. */
  lemma ScheduleFromStart()
    ensures Schedule(0, 5) == "EcEpE"
  {
  }

  // ------------------------------------------------------------------ objects and states

  predicate DistinctKeys(o: Object) {
    forall i, j :: 0 <= i < j < |o| ==> o[i].0 != o[j].0
  }

  /** The object recv builds for a reading, entries in the order of its literal. */
  function Entries(r: Reading): Object {
    var kind := ("kind", Str([r.kind]));
    match r
    case InfoReading(_, flags, relay, insideTemp, pressure, humidity, outsideTemp, light,
                     laserInletTemp, laserOutletTemp, laserTubeTemp, laserCaseTemp) =>
      [kind, ("flags", Number(flags)), ("relay", Bool(relay)),
       ("insideTemp", Float(insideTemp)), ("pressure", Float(pressure)),
       ("humidity", Float(humidity)), ("outsideTemp", Float(outsideTemp)), ("light", Float(light)),
       ("laserInletTemp", Float(laserInletTemp)), ("laserOutletTemp", Float(laserOutletTemp)),
       ("laserTubeTemp", Float(laserTubeTemp)), ("laserCaseTemp", Float(laserCaseTemp))]
    case CountersReading(_, goodpackets, junk, csumerrs, linklost, overflows, ethPackets,
                         relayOperations, restarts) =>
      [kind, ("goodpackets", Number(goodpackets)), ("junk", Number(junk)),
       ("csumerrs", Number(csumerrs)), ("linklost", Number(linklost)),
       ("overflows", Number(overflows)), ("eth_packets", Number(ethPackets)),
       ("relay_operations", Number(relayOperations)), ("restarts", Number(restarts))]
    case PersistedReading(_, restarts, exceptions, excAddr, excType, excTask) =>
      [kind, ("restarts", Number(restarts)), ("exceptions", Number(exceptions)),
       ("exc_addr", Number(excAddr)), ("exc_type", Number(excType)), ("exc_task", Str(excTask))]
  }

  /** `delete o[key]`: the entry under `key` goes, the others stay in order. */
  function Delete(o: Object, key: string): Object {
    if o == [] then []
    else if o[0].0 == key then Delete(o[1..], key)
    else [o[0]] + Delete(o[1..], key)
  }

  /** After the delete exactly the entries under other keys remain. */
  lemma {:induction false} DeleteMembers(o: Object, key: string)
    ensures forall e :: e in Delete(o, key) <==> e in o && e.0 != key
  {
    if o != [] {
      DeleteMembers(o[1..], key);
      assert forall e :: e in o <==> e == o[0] || e in o[1..];
    }
  }

  /** Deleting keeps the keys distinct. */
  lemma {:induction false} DeleteDistinct(o: Object, key: string)
    requires DistinctKeys(o)
    ensures DistinctKeys(Delete(o, key))
  {
    if o != [] {
      DeleteDistinct(o[1..], key);
      if o[0].0 != key {
        var rest := Delete(o[1..], key);
        DeleteMembers(o[1..], key);
        forall e | e in rest
          ensures e.0 != o[0].0
        {
          var j :| 0 <= j < |o[1..]| && o[1..][j] == e;
          assert o[j + 1] == e;
        }
        AppendFreshKeyFront(o[0], rest);
      }
    }
  }

  /** Prepending an entry under a new key keeps the keys distinct. */
  lemma AppendFreshKeyFront(e: (string, Value), o: Object)
    requires DistinctKeys(o) && forall x :: x in o ==> x.0 != e.0
    ensures DistinctKeys([e] + o)
  {
  }

  /** The setState calls setValues makes: one acknowledged write per entry, in order. */
  function AckWrites(prefix: string, o: Object): (ws: seq<StateWrite>)
    ensures |ws| == |o|
  {
    if o == [] then []
    else AckWrites(prefix, o[..|o| - 1]) + [StateWrite(prefix + o[|o| - 1].0, o[|o| - 1].1, true)]
  }

  /** The value the latest write to `id` left, if any write touched it. */
  function LastWritten(ws: seq<StateWrite>, id: string): Option<Value> {
    if ws == [] then None
    else if ws[|ws| - 1].id == id then Some(ws[|ws| - 1].val)
    else LastWritten(ws[..|ws| - 1], id)
  }

  /** `id` has no value exactly when no write touched it. */
  lemma {:induction false} LastWrittenNone(ws: seq<StateWrite>, id: string)
    ensures LastWritten(ws, id).None? <==> forall i :: 0 <= i < |ws| ==> ws[i].id != id
  {
    if ws != [] && ws[|ws| - 1].id != id {
      LastWrittenNone(ws[..|ws| - 1], id);
      assert forall i :: 0 <= i < |ws| - 1 ==> ws[..|ws| - 1][i] == ws[i];
    }
  }

  /** A value of `id` is the one its latest write gave it. */
  lemma {:induction false} LastWrittenSome(ws: seq<StateWrite>, id: string, i: nat)
    requires i < |ws| && ws[i].id == id && forall j :: i < j < |ws| ==> ws[j].id != id
    ensures LastWritten(ws, id) == Some(ws[i].val)
  {
    if i < |ws| - 1 {
      LastWrittenSome(ws[..|ws| - 1], id, i);
    }
  }

  /** The i-th write publishes the i-th entry under `prefix`. */
  lemma {:induction false} AckWritesAt(prefix: string, o: Object)
    ensures forall i :: 0 <= i < |o| ==> AckWrites(prefix, o)[i] == StateWrite(prefix + o[i].0, o[i].1, true)
  {
    if o != [] {
      AckWritesAt(prefix, o[..|o| - 1]);
    }
  }

  /** Later writes to an id hide earlier ones; writes to other ids do not. */
  lemma {:induction false} LastWrittenAppend(a: seq<StateWrite>, b: seq<StateWrite>, id: string)
    ensures LastWritten(a + b, id) == if LastWritten(b, id).Some? then LastWritten(b, id) else LastWritten(a, id)
  {
    if b != [] {
      assert (a + b)[..|a + b| - 1] == a + b[..|b| - 1];
      LastWrittenAppend(a, b[..|b| - 1], id);
    } else {
      assert a + b == a;
    }
  }

  lemma PrefixCancel(prefix: string, k1: string, k2: string)
    requires prefix + k1 == prefix + k2
    ensures k1 == k2
  {
    assert k1 == (prefix + k1)[|prefix|..];
  }

  /** Publishing an object with distinct keys leaves each key's state at the entry's value. */
  lemma AckWritesPublish(prefix: string, o: Object, k: string, v: Value)
    requires DistinctKeys(o) && (k, v) in o
    ensures LastWritten(AckWrites(prefix, o), prefix + k) == Some(v)
  {
    var ws := AckWrites(prefix, o);
    AckWritesAt(prefix, o);
    var j :| 0 <= j < |o| && o[j] == (k, v);
    forall i | j < i < |ws|
      ensures ws[i].id != prefix + k
    {
      if ws[i].id == prefix + k {
        PrefixCancel(prefix, o[i].0, k);
      }
    }
    LastWrittenSome(ws, prefix + k, j);
  }

  /** Publishing an object that lacks the key under `id` leaves `id` untouched. */
  lemma AckWritesMiss(prefix: string, o: Object, id: string)
    requires forall e :: e in o ==> prefix + e.0 != id
    ensures LastWritten(AckWrites(prefix, o), id) == None
  {
  }

  /** Publishing under another device's prefix never touches state.relay. */
  lemma OtherDeviceMiss(prefix: string, o: Object)
    requires prefix == CounterPrefix || prefix == PersistPrefix
    ensures LastWritten(AckWrites(prefix, o), RelayId) == None
  {
    forall e | e in o
      ensures prefix + e.0 != RelayId
    {
      assert (prefix + e.0)[0] != RelayId[0];
    }
    AckWritesMiss(prefix, o, RelayId);
  }

  /** The adapter's device folders, and the id of the relay state. */
  const StatePrefix: string := "state."
  const CounterPrefix: string := "counter."
  const PersistPrefix: string := "persist."
  const RelayId: string := StatePrefix + "relay"

  /**
   * gotinfo's edit of a reading's object `o`: its relay entry deleted when
   * `relay` equals the remembered value, and lightOn appended.
   */
  function Dedup(o: Object, relay: bool, last: Option<bool>, lightOn: bool): Object {
    (if last == Some(relay) then Delete(o, "relay") else o) + [("lightOn", Bool(lightOn))]
  }

  /** The object gotinfo publishes for an info reading. */
  function InfoState(r: Reading, last: Option<bool>): Object
    requires r.InfoReading?
  {
    Dedup(Entries(r), r.relay, last, LightOn(r.light))
  }

  /** What gotinfo may assume of the object recv builds for an info reading. */
  predicate InfoObject(o: Object, relay: bool) {
    DistinctKeys(o) && (forall e :: e in o ==> e.0 != "lightOn") &&
    ("relay", Bool(relay)) in o && (forall e :: e in o && e.0 == "relay" ==> e.1 == Bool(relay))
  }

  lemma EntriesInfoObject(r: Reading)
    requires r.InfoReading?
    ensures InfoObject(Entries(r), r.relay)
  {
  }

  /** Appending an entry under a new key keeps the keys distinct. */
  lemma AppendFreshKey(o: Object, e: (string, Value))
    requires DistinctKeys(o) && forall x :: x in o ==> x.0 != e.0
    ensures DistinctKeys(o + [e])
  {
  }

  /** The edited object keeps distinct keys and ends with lightOn. */
  lemma DedupShape(o: Object, relay: bool, last: Option<bool>, lightOn: bool)
    requires InfoObject(o, relay)
    ensures DistinctKeys(Dedup(o, relay, last, lightOn))
    ensures Dedup(o, relay, last, lightOn)[|Dedup(o, relay, last, lightOn)| - 1] == ("lightOn", Bool(lightOn))
  {
    var kept := if last == Some(relay) then Delete(o, "relay") else o;
    DeleteMembers(o, "relay");
    DeleteDistinct(o, "relay");
    AppendFreshKey(kept, ("lightOn", Bool(lightOn)));
  }

  /** The edited object holds relay exactly when it differs from the remembered value. */
  lemma DedupRelay(o: Object, relay: bool, last: Option<bool>, lightOn: bool)
    requires InfoObject(o, relay)
    ensures ("relay", Bool(relay)) in Dedup(o, relay, last, lightOn) <==> last != Some(relay)
    ensures forall e :: e in Dedup(o, relay, last, lightOn) && e.0 == "relay" ==> e.1 == Bool(relay)
  {
    DeleteMembers(o, "relay");
  }

  /** The edited object keeps every other entry. */
  lemma DedupKeeps(o: Object, relay: bool, last: Option<bool>, lightOn: bool)
    ensures forall e :: e in o && e.0 != "relay" ==> e in Dedup(o, relay, last, lightOn)
  {
    DeleteMembers(o, "relay");
  }

  /** The last value the adapter itself wrote to state.relay is the value it remembers (user writes are not in the trace). */
  ghost predicate RelayPublished(writes: seq<StateWrite>, last: Option<bool>) {
    last.Some? ==> LastWritten(writes, RelayId) == Some(Bool(last.value))
  }

  /** With relay deleted, nothing gotinfo publishes under `prefix` touches its relay state. */
  lemma DedupMissesRelay(prefix: string, o: Object, relay: bool, lightOn: bool)
    requires InfoObject(o, relay)
    ensures LastWritten(AckWrites(prefix, Dedup(o, relay, Some(relay), lightOn)), prefix + "relay") == None
  {
    var d := Dedup(o, relay, Some(relay), lightOn);
    DedupRelay(o, relay, Some(relay), lightOn);
    forall e | e in d
      ensures prefix + e.0 != prefix + "relay"
    {
      if prefix + e.0 == prefix + "relay" {
        PrefixCancel(prefix, e.0, "relay");
      }
    }
    AckWritesMiss(prefix, d, prefix + "relay");
  }

  /** With relay kept, gotinfo publishes the new relay value under `prefix`. */
  lemma DedupWritesRelay(prefix: string, o: Object, relay: bool, last: Option<bool>, lightOn: bool)
    requires InfoObject(o, relay) && last != Some(relay)
    ensures LastWritten(AckWrites(prefix, Dedup(o, relay, last, lightOn)), prefix + "relay") == Some(Bool(relay))
  {
    DedupShape(o, relay, last, lightOn);
    DedupRelay(o, relay, last, lightOn);
    AckWritesPublish(prefix, Dedup(o, relay, last, lightOn), "relay", Bool(relay));
  }

  /** After gotinfo the published relay state is the reading's, whether or not it was written again. */
  lemma DedupKeepsRelayPublished(before: seq<StateWrite>, o: Object, relay: bool, last: Option<bool>, lightOn: bool)
    requires InfoObject(o, relay) && RelayPublished(before, last)
    ensures RelayPublished(before + AckWrites(StatePrefix, Dedup(o, relay, last, lightOn)), Some(relay))
  {
    LastWrittenAppend(before, AckWrites(StatePrefix, Dedup(o, relay, last, lightOn)), RelayId);
    if last == Some(relay) {
      DedupMissesRelay(StatePrefix, o, relay, lightOn);
    } else {
      DedupWritesRelay(StatePrefix, o, relay, last, lightOn);
    }
  }

  // ------------------------------------------------------------------ user writes

  /** String.prototype.endsWith. */
  predicate EndsWith(s: string, suffix: string) {
    |suffix| <= |s| && s[|s| - |suffix|..] == suffix
  }

  /** A string ends with `suffix` exactly when it is some string followed by `suffix`. */
  lemma EndsWithConcat(s: string, suffix: string)
    ensures EndsWith(s, suffix) <==> exists p :: s == p + suffix
  {
    if EndsWith(s, suffix) {
      assert s == s[..|s| - |suffix|] + suffix;
    }
    forall p | s == p + suffix
      ensures EndsWith(s, suffix)
    {
      assert s[|s| - |suffix|..] == suffix;
    }
  }

  /** JavaScript truthiness of a state value. */
  predicate Truthy(v: Value) {
    match v
    case Null => false
    case Bool(b) => b
    case Number(n) => n != 0
    case Float(bits) => bits < U32Limit && NumberTruthy(bits)
    case Str(s) => s != ""
  }

  /** What a user write asks of the device. */
  datatype Action = SetRelay(on: bool) | ResetCounters | ResetPersisted

  function Suffix(a: Action): string {
    match a
    case SetRelay(_) => "relay"
    case ResetCounters => "counter.reset"
    case ResetPersisted => "persist.reset"
  }

  /** The command character an action sends. */
  function Command(a: Action): (c: char)
    ensures c as int < 256
  {
    match a
    case SetRelay(on) => if on then 'R' else 'r'
    case ResetCounters => 'C'
    case ResetPersisted => 'P'
  }

  /** The acknowledgement onStateChange writes back after a reset. */
  function Acknowledgement(a: Action): seq<StateWrite> {
    match a
    case SetRelay(_) => []
    case ResetCounters => [StateWrite("counter.reset", Bool(false), true)]
    case ResetPersisted => [StateWrite("persist.reset", Bool(false), true)]
  }

  /**
   * onStateChange's routing. Deleted and acknowledged states do nothing; a
   * user write goes by the end of its id, relay first.
   */
  function Route(id: string, state: Option<HostState>): (a: Option<Action>)
    ensures a.Some? ==> state.Some? && !state.value.ack && EndsWith(id, Suffix(a.value))
    ensures a.Some? && a.value.SetRelay? ==> a.value.on == Truthy(state.value.val)
    ensures state.Some? && !state.value.ack && EndsWith(id, "relay") ==> a.Some? && a.value.SetRelay?
    ensures a.None? && state.Some? && !state.value.ack ==>
              !EndsWith(id, "relay") && !EndsWith(id, "counter.reset") && !EndsWith(id, "persist.reset")
  {
    if state.None? || state.value.ack then None
    else if EndsWith(id, "relay") then Some(SetRelay(Truthy(state.value.val)))
    else if EndsWith(id, "counter.reset") then Some(ResetCounters)
    else if EndsWith(id, "persist.reset") then Some(ResetPersisted)
    else None
  }

  // ------------------------------------------------------------------ the adapter

  class ShedInterface {
    var shed: Shed
    var pollIndex: nat
    var lastRelayState: Option<bool>   // None while undefined
    var polling: bool                  // the poll interval timer is set
    ghost var writes: seq<StateWrite>  // setState calls, oldest first
    ghost var unloadCalls: nat         // invocations of onUnload's callback

    ghost predicate Valid()
      reads this, shed
    {
      pollIndex < 4 && shed.Slots() == (true, true, true, false) &&
      RelayPublished(writes, lastRelayState)
    }

    /**
     * The constructor together with onReady's wiring: a shed whose three
     * reading callbacks lead to this adapter, started on `socket`.
     */
    constructor (socket: Socket)
      ensures Valid() && fresh(shed)
      ensures pollIndex == 0 && lastRelayState == None && polling
      ensures writes == [] && unloadCalls == 0
      ensures shed.client == Some(socket) && shed.sent == [] && shed.closed == []
    {
      var s := new Shed();
      s.oninfo, s.oncounters, s.onpersisted := true, true, true;
      s.Start(socket);
      shed := s;
      pollIndex := 0;
      lastRelayState := None;
      polling := true;
      writes := [];
      unloadCalls := 0;
    }

    /**
     * Sends the command under the cursor and advances the cursor. The cursor
     * moves before the send, so it advances even when the send fails.
     */
    method Poll() returns (ok: bool)
      requires Valid()
      modifies this`pollIndex, shed`sent
      ensures Valid()
      ensures pollIndex == Next(old(pollIndex))
      ensures ok == shed.client.Some?
      ensures shed.sent == old(shed.sent) + if ok then [Frame(PollSeq[old(pollIndex)])] else []
    {
      var ch := PollSeq[pollIndex];
      pollIndex := Mask3(pollIndex + 1);
      ok := shed.Send(ch);
    }

    /**
     * `ticks` firings of the poll interval timer while it is set: each calls poll. The frames
     * sent are those of Schedule, while the socket stays open.
     */
    method RunTimer(ticks: nat)
      requires Valid() && polling
      modifies this`pollIndex, shed`sent
      ensures Valid()
      ensures pollIndex == Advance(old(pollIndex), ticks)
      ensures shed.sent == old(shed.sent) + if shed.client.Some? then Frames(Schedule(old(pollIndex), ticks)) else []
    {
      ghost var start, before, open := pollIndex, shed.sent, shed.client.Some?;
      var k := 0;
      while k < ticks
        invariant 0 <= k <= ticks && Valid() && shed.client.Some? == open
        invariant pollIndex == Advance(start, k)
        invariant open ==> shed.sent == before + Frames(Schedule(start, k))
        invariant !open ==> shed.sent == before
      {
        PollStep(start, k);
        var ok := Poll();
        k := k + 1;
      }
    }

    /** Writes every entry of `o` as an acknowledged state `prefix + key`. */
    method SetValues(prefix: string, o: Object)
      modifies this`writes
      ensures writes == old(writes) + AckWrites(prefix, o)
    {
      var i := 0;
      while i < |o|
        invariant 0 <= i <= |o|
        invariant writes == old(writes) + AckWrites(prefix, o[..i])
      {
        assert o[..i + 1][..i] == o[..i];
        writes := writes + [StateWrite(prefix + o[i].0, o[i].1, true)];
        i := i + 1;
      }
      assert o[..|o|] == o;
    }

    /**
     * gotinfo on the object recv built: `relay` and `light` are the values
     * of its relay and light entries.
     */
    method GotInfo(o: Object, relay: bool, light: nat)
      requires Valid() && InfoObject(o, relay)
      modifies this`lastRelayState, this`writes
      ensures Valid()
      ensures lastRelayState == Some(relay)
      ensures writes == old(writes) + AckWrites(StatePrefix, Dedup(o, relay, old(lastRelayState), LightOn(light)))
    {
      ghost var last := lastRelayState;
      var rx := o;
      if lastRelayState == Some(relay) {
        rx := Delete(rx, "relay");
      } else {
        lastRelayState := Some(relay);
      }
      rx := rx + [("lightOn", Bool(LightOn(light)))];
      ghost var before := writes;
      SetValues(StatePrefix, rx);
      DedupKeepsRelayPublished(before, o, relay, last, LightOn(light));
    }

    method GotCounters(r: Reading)
      requires Valid()
      modifies this`writes
      ensures Valid()
      ensures writes == old(writes) + AckWrites(CounterPrefix, Entries(r))
    {
      ghost var before := writes;
      SetValues(CounterPrefix, Entries(r));
      LastWrittenAppend(before, AckWrites(CounterPrefix, Entries(r)), RelayId);
      OtherDeviceMiss(CounterPrefix, Entries(r));
    }

    method GotPersisted(r: Reading)
      requires Valid()
      modifies this`writes
      ensures Valid()
      ensures writes == old(writes) + AckWrites(PersistPrefix, Entries(r))
    {
      ghost var before := writes;
      SetValues(PersistPrefix, Entries(r));
      LastWrittenAppend(before, AckWrites(PersistPrefix, Entries(r)), RelayId);
      OtherDeviceMiss(PersistPrefix, Entries(r));
    }

    /**
     * A datagram arriving on the shed's socket: recv decodes it and the
     * callback it fires publishes the reading. A closed socket delivers nothing.
     */
    method OnDatagram(msg: seq<Byte>)
      requires Valid()
      modifies this`lastRelayState, this`writes
      ensures Valid()
      ensures shed.client.None? || !Decode(msg).Parsed? ==>
                writes == old(writes) && lastRelayState == old(lastRelayState)
      ensures shed.client.Some? && Decode(msg).Parsed? && Decode(msg).reading.InfoReading? ==>
                var r := Decode(msg).reading;
                lastRelayState == Some(r.relay) &&
                writes == old(writes) + AckWrites(StatePrefix, InfoState(r, old(lastRelayState)))
      ensures shed.client.Some? && Decode(msg).Parsed? && Decode(msg).reading.CountersReading? ==>
                lastRelayState == old(lastRelayState) &&
                writes == old(writes) + AckWrites(CounterPrefix, Entries(Decode(msg).reading))
      ensures shed.client.Some? && Decode(msg).Parsed? && Decode(msg).reading.PersistedReading? ==>
                lastRelayState == old(lastRelayState) &&
                writes == old(writes) + AckWrites(PersistPrefix, Entries(Decode(msg).reading))
    {
      if shed.client.None? {
        return;
      }
      var fired := shed.Recv(msg);
      if fired != [] {
        var first := fired[0];
        assert first in fired;
        match first
        case OnInfo(r) =>
          assert Decode(msg) == Parsed(r);
          EntriesInfoObject(r);
          GotInfo(Entries(r), r.relay, r.light);
        case OnCounters(r) =>
          assert Decode(msg) == Parsed(r);
          GotCounters(r);
        case OnPersisted(r) =>
          assert Decode(msg) == Parsed(r);
          GotPersisted(r);
        case OnData(_) => assert false;
      } else {
        assert !Decode(msg).Parsed?;
      }
    }

    /** onStateChange: a user write becomes a command, and a reset is acknowledged. */
    method OnStateChange(id: string, state: Option<HostState>)
      requires Valid()
      modifies this`writes, shed`sent
      ensures Valid()
      ensures Route(id, state).None? ==> shed.sent == old(shed.sent) && writes == old(writes)
      ensures Route(id, state).Some? ==>
                var a := Route(id, state).value;
                shed.sent == old(shed.sent) + (if shed.client.Some? then [Frame(Command(a))] else []) &&
                writes == old(writes) + (if shed.client.Some? then Acknowledgement(a) else [])
    {
      ghost var route := Route(id, state);
      if state.Some? && !state.value.ack {
        if EndsWith(id, "relay") {
          assert route == Some(SetRelay(Truthy(state.value.val)));
          var ok := shed.SetRelay(Truthy(state.value.val));
        } else if EndsWith(id, "counter.reset") {
          assert route == Some(ResetCounters);
          var ok := shed.ResetCounters();
          if ok {
            SetState("counter.reset", Bool(false));
          }
        } else if EndsWith(id, "persist.reset") {
          assert route == Some(ResetPersisted);
          var ok := shed.ResetPersisted();
          if ok {
            SetState("persist.reset", Bool(false));
          }
        } else {
          assert route == None;
        }
      } else {
        assert route == None;
      }
    }

    /** An acknowledged setState of a reset flag; it never touches state.relay. */
    method SetState(id: string, v: Value)
      requires Valid() && (id == "counter.reset" || id == "persist.reset")
      modifies this`writes
      ensures Valid()
      ensures writes == old(writes) + [StateWrite(id, v, true)]
    {
      ghost var before := writes;
      writes := writes + [StateWrite(id, v, true)];
      LastWrittenAppend(before, [StateWrite(id, v, true)], RelayId);
    }

    /**
     * onUnload: clears the timer, stops the shed and calls back, inside a try
     * whose catch block calls back as well. `logThrows` says whether the log
     * call before the callback throws, `callbackThrows` whether the callback
     * does; a callback that throws from the try block is called a second time.
     */
    method OnUnload(logThrows: bool, callbackThrows: bool)
      requires Valid()
      modifies this`polling, this`unloadCalls, shed`client, shed`closed
      ensures Valid()
      ensures unloadCalls == old(unloadCalls) + if !logThrows && callbackThrows then 2 else 1
      ensures !polling && shed.client.None?
      ensures shed.closed == old(shed.closed) + if old(shed.client).Some? then [old(shed.client).value] else []
    {
      polling := false;
      shed.Stop();
      var thrown := logThrows;
      if !thrown {
        unloadCalls := unloadCalls + 1;
        thrown := callbackThrows;
      }
      if thrown {
        unloadCalls := unloadCalls + 1;
      }
    }
  }
}
