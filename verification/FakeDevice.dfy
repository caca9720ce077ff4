/** The WebUSB stub's device: the bytes that come in, the transfers that go out, and the daemon between the two. */
module FakeDevices {
  import opened AdbFraming
  import opened AdbDevice
  import opened AdbServices

  /** A packet takes two reads, header then payload; without a payload, the header alone. */
  function Transfer(p: Packet): (pieces: seq<seq<Byte>>)
    ensures Flatten(pieces) == Encode(p)
    ensures |pieces| == (if p.payload == [] then 1 else 2) && |pieces[0]| == HEADER_SIZE
  {
    if p.payload == [] then
      assert Flatten([Header(p)]) == Flatten([]) + Header(p);
      [Header(p)]
    else
      assert Flatten([Header(p), p.payload]) == Flatten([Header(p)]) + p.payload;
      assert Flatten([Header(p)]) == Flatten([]) + Header(p);
      [Header(p), p.payload]
  }

  function Transfers(packets: seq<Packet>): seq<seq<Byte>> {
    if packets == [] then [] else Transfers(packets[..|packets| - 1]) + Transfer(packets[|packets| - 1])
  }

  lemma {:induction false} FlattenConcat(a: seq<seq<Byte>>, b: seq<seq<Byte>>)
    ensures Flatten(a + b) == Flatten(a) + Flatten(b)
    decreases |b|
  {
    if b == [] {
      assert a + b == a;
    } else {
      FlattenConcat(a, b[..|b| - 1]);
      assert (a + b)[..|a + b| - 1] == a + b[..|b| - 1] && (a + b)[|a + b| - 1] == b[|b| - 1];
      Associates(Flatten(a), Flatten(b[..|b| - 1]), b[|b| - 1]);
    }
  }

  lemma Associates(a: seq<Byte>, b: seq<Byte>, c: seq<Byte>)
    ensures a + (b + c) == (a + b) + c
  {
  }

  lemma EncodeAllUnfolds(packets: seq<Packet>)
    requires packets != []
    ensures EncodeAll(packets) == Encode(packets[0]) + EncodeAll(packets[1..])
  {
  }

  lemma {:induction false} EncodeAllAppends(packets: seq<Packet>, p: Packet)
    ensures EncodeAll(packets + [p]) == EncodeAll(packets) + Encode(p)
  {
    if packets == [] {
      EncodeAllUnfolds([p]);
      assert packets + [p] == [p] && [p][1..] == [];
    } else {
      EncodeAllAppends(packets[1..], p);
      EncodeAllUnfolds(packets + [p]);
      EncodeAllUnfolds(packets);
      assert (packets + [p])[1..] == packets[1..] + [p] && (packets + [p])[0] == packets[0];
      Associates(Encode(packets[0]), EncodeAll(packets[1..]), Encode(p));
    }
  }

  lemma {:induction false} TransfersCarryThePackets(packets: seq<Packet>)
    ensures Flatten(Transfers(packets)) == EncodeAll(packets)
  {
    if packets != [] {
      var before, last := packets[..|packets| - 1], packets[|packets| - 1];
      assert before + [last] == packets;
      TransfersCarryThePackets(before);
      FlattenConcat(Transfers(before), Transfer(last));
      EncodeAllAppends(before, last);
    }
  }

  /** At any moment the browser has read a prefix of the packets sent; once it has read everything, all of them. */
  lemma BrowserReadsWhatWasSent(packets: seq<Packet>, read: seq<seq<Byte>>, unread: seq<seq<Byte>>)
    requires read + unread == Transfers(packets)
    ensures Fed(read).0 <= packets
    ensures unread == [] ==> Fed(read) == (packets, [])
  {
    AllReadIsAllSent(packets);
    FedGrows(Transfers(packets), |read|);
    assert Transfers(packets)[..|read|] == read;
    assert unread == [] ==> read == Transfers(packets);
  }

  lemma AllReadIsAllSent(packets: seq<Packet>)
    ensures Fed(Transfers(packets)) == (packets, [])
  {
    TransfersCarryThePackets(packets);
    DecodeAll(packets);
    ChunkingIsInvisible(Transfers(packets));
  }

  lemma TransfersGrow(packets: seq<Packet>, p: Packet)
    ensures Transfers(packets + [p]) == Transfers(packets) + Transfer(p)
  {
    assert (packets + [p])[..|packets|] == packets;
  }

  lemma RemovingForgets(installs: map<Word, Install>, socket: Word, install: Install)
    ensures installs[socket := install] - {socket} == installs - {socket}
  {
  }

  lemma OneMoreDecoded(done: seq<Packet>, bytes: seq<Byte>)
    requires HoldsPacket(bytes)
    ensures var rest := Decode(bytes[PacketSize(bytes)..]);
            (done + Decode(bytes).0, Decode(bytes).1) == (done + [FirstPacket(bytes)] + rest.0, rest.1)
  {
    DecodeUnfolds(bytes);
    PacketsAssociate(done, [FirstPacket(bytes)], Decode(bytes[PacketSize(bytes)..]).0);
  }

  lemma DecodeUnfolds(bytes: seq<Byte>)
    requires HoldsPacket(bytes)
    ensures var rest := Decode(bytes[PacketSize(bytes)..]); Decode(bytes) == ([FirstPacket(bytes)] + rest.0, rest.1)
  {
  }

  lemma PacketsAssociate(a: seq<Packet>, b: seq<Packet>, c: seq<Packet>)
    ensures a + (b + c) == a + b + c
  {
  }

  class FakeDevice {
    const texts: Texts
    var pending: seq<Byte>
    /** Not yet read by the browser; and what its reads have been answered with so far. */
    var incoming: seq<seq<Byte>>
    var read: seq<seq<Byte>>
    var waiting: bool
    var installs: map<Word, Install>
    var log: seq<LogEntry>
    var timers: seq<Timer>
    ghost var sent: seq<Packet>

    /** Between two calls the bytes held never make a whole packet. */
    ghost predicate Valid()
      reads this
    {
      Ready() && !HoldsPacket(pending)
    }

    /** Holds while packets are handled, too. */
    ghost predicate Ready()
      reads this
    {
      && read + incoming == Transfers(sent)
      && (waiting ==> incoming == [])
    }

    ghost function State(): Daemon
      reads this
    {
      Daemon(installs, log, sent, timers)
    }

    constructor (texts: Texts)
      ensures Valid() && this.texts == texts
      ensures State() == IDLE && pending == [] && read == [] && !waiting
    {
      this.texts := texts;
      pending, incoming, read, waiting := [], [], [], false;
      installs, log, timers, sent := map[], [], [], [];
    }

    /** Answers a waiting read with the next transfer. */
    method Flush()
      modifies this`waiting, this`incoming, this`read
      ensures read + incoming == old(read + incoming)
      ensures waiting == old(waiting && incoming == [])
      ensures read == old(read) + if old(waiting && incoming != []) then [old(incoming)[0]] else []
    {
      if !waiting || incoming == [] {
        return;
      }
      waiting := false;
      read := read + [incoming[0]];
      incoming := incoming[1..];
    }

    /** `send`: header and payload become two transfers. */
    method Send(command: Word, arg0: Word, arg1: Word, payload: Payload)
      requires Ready()
      modifies this`waiting, this`incoming, this`read, this`sent
      ensures Ready() && old(read) <= read
      ensures sent == old(sent) + [Packet(command, arg0, arg1, payload)]
      ensures |read + incoming| == |old(read + incoming)| + if payload == [] then 1 else 2
    {
      var p := Packet(command, arg0, arg1, payload);
      TransfersGrow(sent, p);
      assert read + (incoming + Transfer(p)) == (read + incoming) + Transfer(p);
      incoming := incoming + Transfer(p);
      sent := sent + [p];
      Flush();
    }

    /** `transferIn`: the browser reads one transfer, now or when there is one. */
    method TransferIn()
      requires Valid()
      modifies this`waiting, this`incoming, this`read
      ensures Valid()
      ensures if old(incoming) != [] then read == old(read) + [old(incoming)[0]] && !waiting else read == old(read) && waiting
    {
      waiting := true;
      Flush();
    }

    method StartAgent(socket: Word, service: string)
      requires Ready() && START_SERVICE <= service
      modifies this`waiting, this`incoming, this`read, this`sent, this`installs, this`log, this`timers
      ensures Ready() && old(read) <= read
      ensures State() == Opened(texts, old(State()), socket, service)
    {
      StartIsAbbExec(service);
      log := log + [Started(StartArguments(service))];
      ghost var acknowledged := State().(sent := sent + [Packet(OKAY, DEVICE_SOCKET_ID, socket, [])]);
      Send(OKAY, DEVICE_SOCKET_ID, socket, []);
      assert State() == acknowledged;
      timers := timers + [Timer(START_DURATION, socket, texts.startOutput)];
    }

    method HandleOpen(socket: Word, service: string)
      requires Ready()
      modifies this`waiting, this`incoming, this`read, this`sent, this`installs, this`log, this`timers
      ensures Ready() && old(read) <= read
      ensures State() == Opened(texts, old(State()), socket, service)
    {
      if START_SERVICE <= service {
        StartAgent(socket, service);
        return;
      }
      var size := InstallSize(service);
      if size.None? {
        Send(CLSE, 0, socket, []);
        return;
      }
      installs := installs[socket := Install(size.value, 0)];
      Send(OKAY, DEVICE_SOCKET_ID, socket, []);
    }

    method HandleWrite(socket: Word, length: nat)
      requires Ready()
      modifies this`waiting, this`incoming, this`read, this`sent, this`installs, this`log, this`timers
      ensures Ready() && old(read) <= read
      ensures State() == Written(old(State()), socket, length)
    {
      ghost var acknowledged := State().(sent := sent + [Packet(OKAY, DEVICE_SOCKET_ID, socket, [])]);
      Send(OKAY, DEVICE_SOCKET_ID, socket, []);
      assert State() == acknowledged;
      CountWrite(socket, length);
    }

    method CountWrite(socket: Word, length: nat)
      modifies this`installs, this`log, this`timers
      ensures State() == Counted(old(State()), socket, length)
    {
      if socket !in installs {
        return;
      }
      ghost var before := installs;
      var install := installs[socket].(received := installs[socket].received + length);
      installs := installs[socket := install];
      if install.received < install.size {
        return;
      }
      RemovingForgets(before, socket, install);
      FinishInstall(socket, install.received);
    }

    method FinishInstall(socket: Word, received: nat)
      modifies this`installs, this`log, this`timers
      ensures log == old(log) + [Installed(received)]
      ensures installs == old(installs) - {socket}
      ensures timers == old(timers) + [Timer(INSTALL_DURATION, socket, SUCCESS)]
    {
      log := log + [Installed(received)];
      installs := installs - {socket};
      timers := timers + [Timer(INSTALL_DURATION, socket, SUCCESS)];
    }

    /** `handle`. */
    method Handle(d: Packet)
      requires Ready()
      modifies this`waiting, this`incoming, this`read, this`sent, this`installs, this`log, this`timers
      ensures Ready() && old(read) <= read
      ensures State() == Handled(texts, old(State()), d)
    {
      if d.command == CNXN {
        Send(CNXN, 0x01000001, 0x100000, texts.banner);
      }
      if d.command == OPEN {
        HandleOpen(d.arg0, Decoded(d.payload));
      }
      if d.command == WRTE {
        HandleWrite(d.arg0, |d.payload|);
      }
    }

    /** `receive`: handles every whole packet the bytes now hold, and keeps the rest. */
    method Receive(chunk: seq<Byte>)
      requires Valid()
      modifies this
      ensures Valid() && old(read) <= read
      ensures (State(), pending) == ReceivedChunk(texts, old(State()), old(pending), chunk)
    {
      ghost var before := State();
      pending := pending + chunk;
      ghost var whole := Decode(pending);
      ghost var done: seq<Packet> := [];
      assert [] + whole.0 == whole.0;
      while |pending| >= HEADER_SIZE
        invariant Ready() && old(read) <= read
        invariant State() == HandledAll(texts, before, done)
        invariant whole == (done + Decode(pending).0, Decode(pending).1)
        decreases |pending|
      {
        var size := PacketSize(pending);
        if |pending| < size {
          break;
        }
        var d := FirstPacket(pending);
        HandledOneMore(texts, before, done, d);
        OneMoreDecoded(done, pending);
        Handle(d);
        done := done + [d];
        pending := pending[size..];
      }
      assert done + [] == done;
    }

    /** A timer goes off. */
    method Fire(k: nat)
      requires Valid() && k < |timers|
      modifies this
      ensures Valid() && pending == old(pending) && old(read) <= read
      ensures var timer := old(timers[k]);
              State() == Daemon(
                old(installs), old(log),
                old(sent) + [Packet(WRTE, DEVICE_SOCKET_ID, timer.socket, timer.output),
                             Packet(CLSE, DEVICE_SOCKET_ID, timer.socket, [])],
                old(timers[..k] + timers[k + 1..]))
    {
      var timer := timers[k];
      timers := timers[..k] + timers[k + 1..];
      Send(WRTE, DEVICE_SOCKET_ID, timer.socket, timer.output);
      Send(CLSE, DEVICE_SOCKET_ID, timer.socket, []);
    }

    /** The browser decodes a prefix of what was sent, and all of it once nothing is left to read. */
    lemma ReadsDecode()
      requires Valid()
      ensures Fed(read).0 <= sent
      ensures incoming == [] ==> Fed(read) == (sent, [])
    {
      BrowserReadsWhatWasSent(sent, read, incoming);
    }
  }
}
