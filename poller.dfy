/**
 * The Shed class of shed.js: an optional UDP client, four callback slots, the
 * command helpers that each send one request frame, and recv, which decodes a
 * datagram and fires the callbacks.
 *
 * The socket is an abstract handle. The frames handed to it and the sockets
 * closed are recorded in ghost traces. A callback slot is modelled by whether
 * it holds a function; recv returns, in order, the callbacks it invokes and
 * the object each is passed, and the owner of the slots runs them.
 */
module Poller {
  import opened Wrappers
  import opened Bytes
  import opened Codec

  /** A UDP socket, as udp.createSocket returns it. */
  datatype Socket = Socket(id: nat)

  /** One callback invocation made by recv, with its argument. */
  datatype Callback =
    | OnInfo(reading: Reading)
    | OnCounters(reading: Reading)
    | OnPersisted(reading: Reading)
    | OnData(rx: Option<Reading>)  // None: rx is still undefined after the default branch

  class Shed {
    var client: Option<Socket>
    var oninfo: bool
    var oncounters: bool
    var onpersisted: bool
    var ondata: bool
    ghost var sent: seq<seq<Byte>>  // frames handed to the socket, oldest first
    ghost var closed: seq<Socket>   // sockets closed by stop, oldest first

    /** Which callback slots hold a function. */
    function Slots(): (bool, bool, bool, bool)
      reads this
    {
      (oninfo, oncounters, onpersisted, ondata)
    }

    constructor ()
      ensures client == None && Slots() == (false, false, false, false)
      ensures sent == [] && closed == []
    {
      client := None;
      oninfo, oncounters, onpersisted, ondata := false, false, false, false;
      sent, closed := [], [];
    }

    /** Opens `socket` (what udp.createSocket returns) unless a client already exists. */
    method Start(socket: Socket)
      modifies this`client
      ensures old(client).Some? ==> client == old(client)
      ensures old(client).None? ==> client == Some(socket)
    {
      if client.None? {
        client := Some(socket);
      }
    }

    /** Closes and forgets the client if there is one. */
    method Stop()
      modifies this`client, this`closed
      ensures client == None
      ensures closed == old(closed) + if old(client).Some? then [old(client).value] else []
    {
      if client.Some? {
        closed := closed + [client.value];
        client := None;
      }
    }

    /**
     * Transmits the frame for `cmd`. Without a client, dereferencing it throws
     * before anything is transmitted: `ok` is false and nothing is sent.
     */
    method Send(cmd: char) returns (ok: bool)
      requires cmd as int < 256
      modifies this`sent
      ensures ok == client.Some?
      ensures sent == old(sent) + if ok then [Frame(cmd)] else []
    {
      ok := client.Some?;
      if ok {
        sent := sent + [Frame(cmd)];
      }
    }

    method FetchState() returns (ok: bool)
      modifies this`sent
      ensures ok == client.Some?
      ensures sent == old(sent) + if ok then [Frame('E')] else []
    {
      ok := Send('E');
    }

    method FetchCounters() returns (ok: bool)
      modifies this`sent
      ensures ok == client.Some?
      ensures sent == old(sent) + if ok then [Frame('c')] else []
    {
      ok := Send('c');
    }

    method ResetCounters() returns (ok: bool)
      modifies this`sent
      ensures ok == client.Some?
      ensures sent == old(sent) + if ok then [Frame('C')] else []
    {
      ok := Send('C');
    }

    method FetchPersisted() returns (ok: bool)
      modifies this`sent
      ensures ok == client.Some?
      ensures sent == old(sent) + if ok then [Frame('p')] else []
    {
      ok := Send('p');
    }

    method ResetPersisted() returns (ok: bool)
      modifies this`sent
      ensures ok == client.Some?
      ensures sent == old(sent) + if ok then [Frame('P')] else []
    {
      ok := Send('P');
    }

    method SetRelay(on: bool) returns (ok: bool)
      modifies this`sent
      ensures ok == client.Some?
      ensures sent == old(sent) + if ok then [Frame(if on then 'R' else 'r')] else []
    {
      ok := Send(if on then 'R' else 'r');
    }

    /** The kind-specific callback recv fires for `r`, if its slot is set. */
    function Specific(r: Reading): seq<Callback>
      reads this
    {
      match r
      case InfoReading(_, _, _, _, _, _, _, _, _, _, _, _) => if oninfo then [OnInfo(r)] else []
      case CountersReading(_, _, _, _, _, _, _, _, _) => if oncounters then [OnCounters(r)] else []
      case PersistedReading(_, _, _, _, _, _) => if onpersisted then [OnPersisted(r)] else []
    }

    /**
     * Handles one datagram: the callbacks invoked, in order. A datagram under
     * 2 bytes faults when its command byte is read, and a known kind below its
     * minimum length returns early; neither fires anything. Otherwise the
     * kind-specific callback fires, then ondata with the same object, or with
     * nothing for an unknown kind.
     */
    method Recv(msg: seq<Byte>) returns (fired: seq<Callback>)
      ensures Decode(msg).Malformed? || Decode(msg).TooShort? ==> fired == []
      ensures Decode(msg).Unknown? ==> fired == if ondata then [OnData(None)] else []
      ensures Decode(msg).Parsed? ==>
                fired == Specific(Decode(msg).reading) + if ondata then [OnData(Some(Decode(msg).reading))] else []
      ensures forall c :: c in fired && !c.OnData? ==>
                Decode(msg) == Parsed(c.reading) && c.reading.kind == msg[1] as char
    {
      fired := [];
      if |msg| < 2 {
        return;
      }
      var cmd := msg[1] as char;
      var rx: Option<Reading> := None;
      if cmd == 'E' {
        if |msg| < InfoLength {
          return;
        }
        var r := DecodeInfo(msg);
        rx := Some(r);
        if oninfo {
          fired := fired + [OnInfo(r)];
        }
      } else if cmd == 'C' || cmd == 'c' {
        if |msg| < CountersLength {
          return;
        }
        var r := DecodeCounters(msg);
        rx := Some(r);
        if oncounters {
          fired := fired + [OnCounters(r)];
        }
      } else if cmd == 'P' || cmd == 'p' {
        if |msg| < PersistedLength {
          return;
        }
        var r := DecodePersisted(msg);
        rx := Some(r);
        if onpersisted {
          fired := fired + [OnPersisted(r)];
        }
      }
      if ondata {
        fired := fired + [OnData(rx)];
      }
    }
  }
}
