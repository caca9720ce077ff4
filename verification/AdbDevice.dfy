/**
 * The fake ADB daemon behind the WebUSB stub: how it answers each packet, and how it follows the installs.
 *
 * `Handled` is one packet's effect on the daemon; the class `FakeDevice` holds the buffers the packets travel through.
 */
module AdbDevice {
  import opened AdbFraming
  import opened AdbServices
  import opened Wrappers

  const CNXN: Word := 0x4e584e43
  const OPEN: Word := 0x4e45504f
  const OKAY: Word := 0x59414b4f
  const CLSE: Word := 0x45534c43
  const WRTE: Word := 0x45545257
  const DEVICE_SOCKET_ID: Word := 1
  const START_DURATION := 100
  const INSTALL_DURATION := 700

  /** ASCII text as bytes. */
  function Bytes(text: string): seq<Byte> {
    seq(|text|, i requires 0 <= i < |text| => (text[i] as int) % 256)
  }

  /** Bytes as text; a byte that is not ASCII becomes the replacement character. */
  function Decoded(bytes: seq<Byte>): string {
    seq(|bytes|, i requires 0 <= i < |bytes| => if bytes[i] < 128 then bytes[i] as char else '\U{FFFD}')
  }

  predicate Ascii(text: string) {
    forall c | c in text :: c < '\U{80}'
  }

  /** ASCII text goes over the wire and back. */
  lemma TextIsRead(text: string)
    requires Ascii(text)
    ensures Decoded(Bytes(text)) == text
  {
    forall i | 0 <= i < |text| ensures Decoded(Bytes(text))[i] == text[i] {
      assert text[i] in text && (text[i] as int) < 128;
    }
  }

  const SUCCESS: Payload := Bytes("Success\n")

  /** The connection banner, and what starting the agent prints in the mode at hand. */
  datatype Texts = Texts(banner: Payload, startOutput: Payload)

  datatype Install = Install(size: nat, received: nat)

  datatype LogEntry = Started(arguments: seq<string>) | Installed(received: nat)

  /** A reply for later: a WRTE with the output, then a CLSE. */
  datatype Timer = Timer(delay: nat, socket: Word, output: Payload)

  datatype Daemon = Daemon(installs: map<Word, Install>, log: seq<LogEntry>, sent: seq<Packet>, timers: seq<Timer>)

  const IDLE := Daemon(map[], [], [], [])

  // ----- one packet -----

  function Opened(texts: Texts, s: Daemon, socket: Word, service: string): Daemon {
    if START_SERVICE <= service then
      StartIsAbbExec(service);
      s.(log := s.log + [Started(StartArguments(service))],
         sent := s.sent + [Packet(OKAY, DEVICE_SOCKET_ID, socket, [])],
         timers := s.timers + [Timer(START_DURATION, socket, texts.startOutput)])
    else
      match InstallSize(service)
      case None => s.(sent := s.sent + [Packet(CLSE, 0, socket, [])])
      case Some(size) =>
        s.(installs := s.installs[socket := Install(size, 0)], sent := s.sent + [Packet(OKAY, DEVICE_SOCKET_ID, socket, [])])
  }

  function Written(s: Daemon, socket: Word, length: nat): Daemon {
    Counted(s.(sent := s.sent + [Packet(OKAY, DEVICE_SOCKET_ID, socket, [])]), socket, length)
  }

  /** The bytes written count towards the install on the socket, if there is one, and may complete it. */
  function Counted(s: Daemon, socket: Word, length: nat): Daemon {
    if socket !in s.installs then s
    else
      var install := s.installs[socket].(received := s.installs[socket].received + length);
      if install.received < install.size then s.(installs := s.installs[socket := install])
      else s.(
          installs := s.installs - {socket},
          log := s.log + [Installed(install.received)],
          timers := s.timers + [Timer(INSTALL_DURATION, socket, SUCCESS)])
  }

  function Handled(texts: Texts, s: Daemon, d: Packet): Daemon {
    if d.command == CNXN then s.(sent := s.sent + [Packet(CNXN, 0x01000001, 0x100000, texts.banner)])
    else if d.command == OPEN then Opened(texts, s, d.arg0, Decoded(d.payload))
    else if d.command == WRTE then Written(s, d.arg0, |d.payload|)
    else s
  }

  function HandledAll(texts: Texts, s: Daemon, packets: seq<Packet>): Daemon {
    if packets == [] then s
    else Handled(texts, HandledAll(texts, s, packets[..|packets| - 1]), packets[|packets| - 1])
  }

  lemma {:induction false} HandledConcat(texts: Texts, s: Daemon, a: seq<Packet>, b: seq<Packet>)
    ensures HandledAll(texts, s, a + b) == HandledAll(texts, HandledAll(texts, s, a), b)
    decreases |b|
  {
    if b == [] {
      assert a + b == a;
    } else {
      HandledConcat(texts, s, a, b[..|b| - 1]);
      assert (a + b)[..|a + b| - 1] == a + b[..|b| - 1];
    }
  }

  lemma HandledOneMore(texts: Texts, s: Daemon, packets: seq<Packet>, d: Packet)
    ensures HandledAll(texts, s, packets + [d]) == Handled(texts, HandledAll(texts, s, packets), d)
  {
    assert (packets + [d])[..|packets|] == packets;
  }

  // ----- chunks -----

  /** `receive`: the daemon after every whole packet the bytes now hold, and the bytes left. */
  function ReceivedChunk(texts: Texts, s: Daemon, pending: seq<Byte>, chunk: seq<Byte>): (Daemon, seq<Byte>) {
    var now := Decode(pending + chunk);
    (HandledAll(texts, s, now.0), now.1)
  }

  function Received(texts: Texts, s: Daemon, pending: seq<Byte>, chunks: seq<seq<Byte>>): (Daemon, seq<Byte>) {
    if chunks == [] then (s, pending)
    else
      var before := Received(texts, s, pending, chunks[..|chunks| - 1]);
      ReceivedChunk(texts, before.0, before.1, chunks[|chunks| - 1])
  }

  lemma OneMoreChunk(texts: Texts, s: Daemon, bytes: seq<Byte>, chunk: seq<Byte>)
    ensures var first := Decode(bytes);
            ReceivedChunk(texts, HandledAll(texts, s, first.0), first.1, chunk) == ReceivedChunk(texts, s, bytes, chunk)
  {
    DecodeConcat(bytes, chunk);
    HandledConcat(texts, s, Decode(bytes).0, Decode(Decode(bytes).1 + chunk).0);
  }

  /** Cutting the bytes differently changes nothing the daemon does or keeps. */
  lemma {:induction false} ChunksDoNotMatter(texts: Texts, s: Daemon, pending: seq<Byte>, chunks: seq<seq<Byte>>)
    requires !HoldsPacket(pending)
    ensures Received(texts, s, pending, chunks) == ReceivedChunk(texts, s, pending, Flatten(chunks))
  {
    if chunks == [] {
      assert pending + Flatten(chunks) == pending;
    } else {
      var before, last := chunks[..|chunks| - 1], chunks[|chunks| - 1];
      ChunksDoNotMatter(texts, s, pending, before);
      OneMoreChunk(texts, s, pending + Flatten(before), last);
      assert pending + (Flatten(before) + last) == (pending + Flatten(before)) + last;
    }
  }

  /** Whatever the cut, the daemon handles exactly the packets that were encoded. */
  lemma EncodedPacketsAreHandled(texts: Texts, s: Daemon, packets: seq<Packet>, chunks: seq<seq<Byte>>)
    requires Flatten(chunks) == EncodeAll(packets)
    ensures Received(texts, s, [], chunks) == (HandledAll(texts, s, packets), [])
  {
    ChunksDoNotMatter(texts, s, [], chunks);
    DecodeAll(packets);
    assert [] + Flatten(chunks) == Flatten(chunks);
  }

  // ----- answers -----

  /** What the daemon sends at once for a packet. It depends on the packet alone, whatever came before. */
  function Answer(texts: Texts, d: Packet): seq<Packet> {
    if d.command == CNXN then [Packet(CNXN, 0x01000001, 0x100000, texts.banner)]
    else if d.command == OPEN && !(START_SERVICE <= Decoded(d.payload)) && InstallSize(Decoded(d.payload)).None? then [Packet(CLSE, 0, d.arg0, [])]
    else if d.command == OPEN || d.command == WRTE then [Packet(OKAY, DEVICE_SOCKET_ID, d.arg0, [])]
    else []
  }

  function Answers(texts: Texts, packets: seq<Packet>): seq<Packet> {
    if packets == [] then [] else Answers(texts, packets[..|packets| - 1]) + Answer(texts, packets[|packets| - 1])
  }

  lemma OnePacketIsAnswered(texts: Texts, s: Daemon, d: Packet)
    ensures Handled(texts, s, d).sent == s.sent + Answer(texts, d)
  {
  }

  /** Each CNXN, OPEN and WRTE is answered at once by one packet, in order; nothing else is answered. */
  lemma {:induction false} EveryPacketIsAnswered(texts: Texts, s: Daemon, packets: seq<Packet>)
    ensures HandledAll(texts, s, packets).sent == s.sent + Answers(texts, packets)
  {
    if packets != [] {
      var before, last := packets[..|packets| - 1], packets[|packets| - 1];
      EveryPacketIsAnswered(texts, s, before);
      OnePacketIsAnswered(texts, HandledAll(texts, s, before), last);
      assert s.sent + Answers(texts, before) + Answer(texts, last) == s.sent + (Answers(texts, before) + Answer(texts, last));
    }
  }

  // ----- installs -----

  /** The packet opens an install on the socket, of this size. */
  function OpensInstall(socket: Word, d: Packet): Option<nat> {
    if d.command == OPEN && d.arg0 == socket && !(START_SERVICE <= Decoded(d.payload)) then InstallSize(Decoded(d.payload)) else None
  }

  predicate WritesTo(socket: Word, d: Packet) {
    d.command == WRTE && d.arg0 == socket
  }

  /** The bytes the packets write to the socket. */
  function BytesTo(socket: Word, packets: seq<Packet>): nat {
    if packets == [] then 0
    else
      var last := packets[|packets| - 1];
      BytesTo(socket, packets[..|packets| - 1]) + if WritesTo(socket, last) then |last.payload| else 0
  }

  /** The latest packet that opened an install on the socket. */
  function LastOpen(socket: Word, packets: seq<Packet>): (at: Option<nat>)
    ensures at.Some? ==> at.value < |packets| && OpensInstall(socket, packets[at.value]).Some?
    ensures forall k | (if at.Some? then at.value + 1 else 0) <= k < |packets| :: OpensInstall(socket, packets[k]).None?
  {
    if packets == [] then None
    else if OpensInstall(socket, packets[|packets| - 1]).Some? then Some(|packets| - 1)
    else LastOpen(socket, packets[..|packets| - 1])
  }

  predicate FillsAt(socket: Word, size: nat, packets: seq<Packet>, k: nat)
    requires k < |packets|
  {
    WritesTo(socket, packets[k]) && BytesTo(socket, packets[..k + 1]) >= size
  }

  /** Some write brings the socket to the size. */
  predicate Filled(socket: Word, size: nat, packets: seq<Packet>) {
    exists k | 0 <= k < |packets| :: FillsAt(socket, size, packets, k)
  }

  lemma FilledGrows(socket: Word, size: nat, packets: seq<Packet>)
    requires packets != []
    ensures var before := packets[..|packets| - 1];
            Filled(socket, size, packets) == (Filled(socket, size, before) || FillsAt(socket, size, packets, |packets| - 1))
  {
    var before := packets[..|packets| - 1];
    forall k | 0 <= k < |before| ensures FillsAt(socket, size, before, k) == FillsAt(socket, size, packets, k) {
      assert before[..k + 1] == packets[..k + 1];
    }
  }

  /** An install of this size, after these packets. */
  function Since(socket: Word, size: nat, packets: seq<Packet>): Option<Install> {
    if Filled(socket, size, packets) then None else Some(Install(size, BytesTo(socket, packets)))
  }

  /** The install in progress on the socket after these packets, from their history alone. */
  function InstallInProgress(socket: Word, packets: seq<Packet>): Option<Install> {
    var at := LastOpen(socket, packets);
    if at.None? then None
    else Since(socket, OpensInstall(socket, packets[at.value]).value, packets[at.value + 1..])
  }

  function Lookup(installs: map<Word, Install>, socket: Word): Option<Install> {
    if socket in installs then Some(installs[socket]) else None
  }

  /** One packet's effect on the install of one socket. */
  function Progressed(install: Option<Install>, socket: Word, d: Packet): Option<Install> {
    if OpensInstall(socket, d).Some? then Some(Install(OpensInstall(socket, d).value, 0))
    else if !WritesTo(socket, d) || install.None? then install
    else if install.value.received + |d.payload| >= install.value.size then None
    else Some(install.value.(received := install.value.received + |d.payload|))
  }

  lemma HandlingProgresses(texts: Texts, s: Daemon, d: Packet, socket: Word)
    ensures Lookup(Handled(texts, s, d).installs, socket) == Progressed(Lookup(s.installs, socket), socket, d)
  {
  }

  lemma SinceProgresses(socket: Word, size: nat, packets: seq<Packet>)
    requires packets != [] && OpensInstall(socket, packets[|packets| - 1]).None?
    ensures Since(socket, size, packets)
            == Progressed(Since(socket, size, packets[..|packets| - 1]), socket, packets[|packets| - 1])
  {
    assert packets[..|packets|] == packets;
    FilledGrows(socket, size, packets);
  }

  lemma TailOfPrefix(packets: seq<Packet>, i: nat)
    requires i < |packets|
    ensures var tail := packets[i..];
            tail[..|tail| - 1] == packets[..|packets| - 1][i..] && tail[|tail| - 1] == packets[|packets| - 1]
  {
  }

  lemma HistoryProgresses(socket: Word, packets: seq<Packet>)
    requires packets != []
    ensures InstallInProgress(socket, packets)
            == Progressed(InstallInProgress(socket, packets[..|packets| - 1]), socket, packets[|packets| - 1])
  {
    var n := |packets| - 1;
    if OpensInstall(socket, packets[n]).Some? {
      NothingSince(socket, OpensInstall(socket, packets[n]).value);
      assert packets[n + 1..] == [];
    } else {
      var at := LastOpen(socket, packets[..n]);
      if at.Some? {
        var since := packets[at.value + 1..];
        TailOfPrefix(packets, at.value + 1);
        assert packets[..n][at.value] == packets[at.value];
        SinceProgresses(socket, OpensInstall(socket, packets[at.value]).value, since);
      }
    }
  }

  lemma NothingSince(socket: Word, size: nat)
    ensures Since(socket, size, []) == Some(Install(size, 0))
  {
  }

  /** The daemon has an install in progress exactly from the packet that opened it to the write that fills it, and has
      counted the bytes written in between. */
  lemma {:induction false} InstallsFollowHistory(texts: Texts, packets: seq<Packet>, socket: Word)
    ensures Lookup(HandledAll(texts, IDLE, packets).installs, socket) == InstallInProgress(socket, packets)
  {
    if packets != [] {
      var before, last := packets[..|packets| - 1], packets[|packets| - 1];
      InstallsFollowHistory(texts, before, socket);
      HistoryProgresses(socket, packets);
      HandlingProgresses(texts, HandledAll(texts, IDLE, before), last, socket);
    }
  }

  /** The scheduled successes. */
  function Successes(timers: seq<Timer>): nat {
    if timers == [] then 0
    else Successes(timers[..|timers| - 1]) + if timers[|timers| - 1].delay == INSTALL_DURATION then 1 else 0
  }

  lemma SuccessesAppend(timers: seq<Timer>, timer: Timer)
    ensures Successes(timers + [timer]) == Successes(timers) + if timer.delay == INSTALL_DURATION then 1 else 0
  {
    assert (timers + [timer])[..|timers|] == timers;
  }

  /** The write that fills `install` logs it with the bytes received and schedules its success; no other packet does. */
  predicate Reported(s: Daemon, t: Daemon, d: Packet, install: Option<Install>) {
    if d.command == WRTE && install.Some? && install.value.received + |d.payload| >= install.value.size then
      && t.log == s.log + [Installed(install.value.received + |d.payload|)]
      && t.timers == s.timers + [Timer(INSTALL_DURATION, d.arg0, SUCCESS)] && Decoded(SUCCESS) == "Success\n"
    else
      (t.log == s.log || OnlyStarts(t.log, s.log)) && Successes(t.timers) == Successes(s.timers)
  }

  predicate OnlyStarts(after: seq<LogEntry>, before: seq<LogEntry>) {
    |after| == |before| + 1 && after[..|before|] == before && after[|before|].Started?
  }

  lemma OpeningFinishesNothing(texts: Texts, s: Daemon, socket: Word, service: string)
    ensures var t := Opened(texts, s, socket, service);
            (t.log == s.log || OnlyStarts(t.log, s.log)) && Successes(t.timers) == Successes(s.timers)
  {
    if START_SERVICE <= service {
      SuccessesAppend(s.timers, Timer(START_DURATION, socket, texts.startOutput));
    }
  }

  lemma HandlingReports(texts: Texts, s: Daemon, d: Packet)
    ensures Reported(s, Handled(texts, s, d), d, Lookup(s.installs, d.arg0))
  {
    TextIsRead("Success\n");
    if d.command == OPEN {
      OpeningFinishesNothing(texts, s, d.arg0, Decoded(d.payload));
    }
  }

  /** An install is reported finished by the write that brings it to its size, told by the packets before it. */
  lemma FinishedInstallIsReported(texts: Texts, packets: seq<Packet>, d: Packet)
    ensures Reported(HandledAll(texts, IDLE, packets), HandledAll(texts, IDLE, packets + [d]), d, InstallInProgress(d.arg0, packets))
  {
    InstallsFollowHistory(texts, packets, d.arg0);
    HandledOneMore(texts, IDLE, packets, d);
    HandlingReports(texts, HandledAll(texts, IDLE, packets), d);
  }

  /** The packet starts the agent with these arguments: `activity` first, each followed by a NUL. */
  predicate StartsAgent(d: Packet, arguments: seq<string>) {
    && d.command == OPEN && Decoded(d.payload) == SERVICE_PREFIX + Terminated(arguments)
    && arguments != [] && arguments[0] == "activity"
    && forall i | 0 <= i < |arguments| :: arguments[i] != [] && NUL !in arguments[i]
  }

  lemma ActivityStarts(arguments: seq<string>)
    requires arguments != [] && arguments[0] == "activity"
    ensures START_SERVICE <= SERVICE_PREFIX + Terminated(arguments)
  {
    assert SERVICE_PREFIX + Terminated(arguments) == SERVICE_PREFIX + ("activity" + [NUL]) + Terminated(arguments[1..]);
    assert START_SERVICE == SERVICE_PREFIX + ("activity" + [NUL]);
  }

  /** A start of the agent logs its arguments as they were given and schedules what it prints. */
  lemma AgentStartIsReported(texts: Texts, packets: seq<Packet>, d: Packet, arguments: seq<string>)
    requires StartsAgent(d, arguments)
    ensures var before, after := HandledAll(texts, IDLE, packets), HandledAll(texts, IDLE, packets + [d]);
            && after.log == before.log + [Started(arguments)]
            && after.timers == before.timers + [Timer(START_DURATION, d.arg0, texts.startOutput)]
            && after.installs == before.installs
  {
    HandledOneMore(texts, IDLE, packets, d);
    ActivityStarts(arguments);
    ArgumentsRoundTrip(arguments);
  }

  /** The installs opened; and those opened over one still in progress on the same socket, which is forgotten. */
  function Opens(packets: seq<Packet>): nat {
    if packets == [] then 0
    else
      var last := packets[|packets| - 1];
      Opens(packets[..|packets| - 1]) + if OpensInstall(last.arg0, last).Some? then 1 else 0
  }

  function Replaced(packets: seq<Packet>): nat {
    if packets == [] then 0
    else
      var before, last := packets[..|packets| - 1], packets[|packets| - 1];
      Replaced(before) + if OpensInstall(last.arg0, last).Some? && InstallInProgress(last.arg0, before).Some? then 1 else 0
  }

  /** Every install opened is answered once, still in progress, or was opened over. */
  lemma {:induction false} InstallsAreConserved(texts: Texts, packets: seq<Packet>)
    ensures var s := HandledAll(texts, IDLE, packets);
            Successes(s.timers) + |s.installs| + Replaced(packets) == Opens(packets)
  {
    if packets != [] {
      var before, last := packets[..|packets| - 1], packets[|packets| - 1];
      InstallsAreConserved(texts, before);
      InstallsFollowHistory(texts, before, last.arg0);
      OneMorePacket(texts, HandledAll(texts, IDLE, before), last);
    }
  }

  /** The installs the daemon answers for: those it has in progress and the successes it has scheduled. */
  function Pending(s: Daemon): nat {
    Successes(s.timers) + |s.installs|
  }

  lemma OpenPends(texts: Texts, s: Daemon, socket: Word, service: string)
    ensures Pending(Opened(texts, s, socket, service))
            == Pending(s) + if !(START_SERVICE <= service) && InstallSize(service).Some? && socket !in s.installs then 1 else 0
  {
    if START_SERVICE <= service {
      SuccessesAppend(s.timers, Timer(START_DURATION, socket, texts.startOutput));
    } else if InstallSize(service).Some? {
      Adding(s.installs, socket, Install(InstallSize(service).value, 0));
    }
  }

  lemma WritePends(s: Daemon, socket: Word, length: nat)
    ensures Pending(Written(s, socket, length)) == Pending(s)
  {
    if socket in s.installs {
      var install := s.installs[socket].(received := s.installs[socket].received + length);
      if install.received < install.size {
        Adding(s.installs, socket, install);
      } else {
        Removing(s.installs, socket);
        SuccessesAppend(s.timers, Timer(INSTALL_DURATION, socket, SUCCESS));
      }
    }
  }

  lemma Adding(installs: map<Word, Install>, socket: Word, install: Install)
    ensures |installs[socket := install]| == |installs| + if socket in installs then 0 else 1
  {
    assert installs[socket := install].Keys == installs.Keys + {socket};
    assert |installs| == |installs.Keys| && |installs[socket := install]| == |installs[socket := install].Keys|;
  }

  lemma Removing(installs: map<Word, Install>, socket: Word)
    requires socket in installs
    ensures |installs - {socket}| == |installs| - 1
  {
    assert (installs - {socket}).Keys == installs.Keys - {socket};
    assert |installs| == |installs.Keys| && |installs - {socket}| == |(installs - {socket}).Keys|;
  }

  lemma OneMorePacket(texts: Texts, s: Daemon, d: Packet)
    ensures Pending(Handled(texts, s, d))
            == Pending(s) + if OpensInstall(d.arg0, d).Some? && d.arg0 !in s.installs then 1 else 0
  {
    if d.command == OPEN {
      OpenPends(texts, s, d.arg0, Decoded(d.payload));
    } else if d.command == WRTE {
      WritePends(s, d.arg0, |d.payload|);
    }
  }
}
