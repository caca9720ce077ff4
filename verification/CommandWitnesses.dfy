/** Runs from a boot that show what the service does not promise: one device, one refresh, and a slow store or broker. */
module CommandWitnesses {
  import opened Wrappers
  import opened Devices
  import opened Mqtt
  import opened CommandStore
  import opened CommandCalls
  import opened CommandGuarantees
  import opened CommandProtocol
  import opened CommandTiming

  const TABLET: DeviceId := 0
  const REFRESHING: CallId := 0
  const ANSWERING: CallId := 1
  const COMMAND: CommandId := 7

  const DEVICES: DeviceTable :=
    map[TABLET := Device("a:k", None, Some("a"), Some("k"), Some("Tab"), None, Enrolled, true, None)]

  const BOOTED := World(Store(map[], DEVICES, 0, {}, []), map[])

  /** The refresh command: its expiry computed at the instant 0, inserted `insertion` later. */
  function NewRow(insertion: nat): Command {
    NewCommand(TABLET, Refresh, "{}", insertion, REFRESH_TTL_MS)
  }

  function SentRow(insertion: nat, publication: nat): Command {
    NewRow(insertion).(status := Sent, sentAt := Some(insertion + publication))
  }

  const MOVE := Resume(REFRESHING, Choice(0, false, []))

  // ----- a refresh up to its wait -----

  const INSERT := Resume(REFRESHING, Choice(COMMAND, false, []))

  /** The request, the check, the expiry computed, and the insert, which takes effect after `insertion`. */
  function Asks(insertion: nat): seq<Action> {
    [Start(REFRESHING, RefreshRequest(TABLET)), MOVE, MOVE, Pause(insertion), INSERT]
  }

  /** The publication, confirmed after `publication`; `markSent`; the deadline set `latency` later. */
  function Sends(publication: nat, latency: nat): seq<Action> {
    [Pause(publication), Resume(REFRESHING, Choice(0, true, [])), MOVE, Pause(latency), MOVE]
  }

  function AsksAndSends(insertion: nat, publication: nat, latency: nat): seq<Action> {
    Asks(insertion) + Sends(publication, latency)
  }

  lemma RunThree(w: World, a: Action, b: Action, c: Action)
    ensures RunWorld(w, [a, b, c]) == Step(Step(Step(w, a), b), c)
  {
    assert [a, b, c] == [a] + [b] + [c];
    ThreeSteps(w, a, b, c);
  }

  lemma RunFive(w: World, a: Action, b: Action, c: Action, d: Action, e: Action)
    ensures RunWorld(w, [a, b, c, d, e]) == Step(Step(Step(Step(Step(w, a), b), c), d), e)
  {
    assert [a, b, c, d, e] == [a] + ([b] + [c, d, e]);
    RunFromFront(w, a, [b] + [c, d, e]);
    RunFromFront(Step(w, a), b, [c, d, e]);
    RunThree(Step(Step(w, a), b), c, d, e);
  }

  // ----- asking and sending -----

  function Stamped(): World {
    World(BOOTED.store, map[REFRESHING := RefreshInsert(TABLET, REFRESH_TTL_MS)])
  }

  lemma ChecksAndStamps()
    ensures Step(Step(Step(BOOTED, Start(REFRESHING, RefreshRequest(TABLET))), MOVE), MOVE) == Stamped()
  {
    Starts(BOOTED, REFRESHING, RefreshRequest(TABLET));
    var started := World(BOOTED.store, map[REFRESHING := RefreshCheck(TABLET)]);
    assert BOOTED.calls[REFRESHING := RefreshCheck(TABLET)] == started.calls;
    Moves(started, REFRESHING, Choice(0, false, []));
    var checked := World(BOOTED.store, map[REFRESHING := RefreshStamp(TABLET)]);
    assert started.calls[REFRESHING := RefreshStamp(TABLET)] == checked.calls;
    Moves(checked, REFRESHING, Choice(0, false, []));
    assert checked.calls[REFRESHING := RefreshInsert(TABLET, REFRESH_TTL_MS)] == Stamped().calls;
  }

  /** Created at the instant `insertion`, about to be published. */
  function Asked(insertion: nat): World {
    World(Store(map[COMMAND := NewRow(insertion)], DEVICES, insertion, {COMMAND}, []), map[REFRESHING := RefreshPublish(COMMAND)])
  }

  lemma Inserts(insertion: nat)
    ensures Step(Step(Stamped(), Pause(insertion)), INSERT) == Asked(insertion)
  {
    Passes(Stamped(), insertion);
    Moves(World(Stamped().store.(now := insertion), Stamped().calls), REFRESHING, Choice(COMMAND, false, []));
    assert Stamped().calls[REFRESHING := RefreshPublish(COMMAND)] == Asked(insertion).calls;
  }

  lemma AsksReachesAsked(insertion: nat)
    ensures RunWorld(BOOTED, Asks(insertion)) == Asked(insertion)
  {
    var a := Asks(insertion);
    RunFive(BOOTED, a[0], a[1], a[2], a[3], a[4]);
    ChecksAndStamps();
    Inserts(insertion);
  }

  function Waiting(insertion: nat, publication: nat, latency: nat): World {
    var now := insertion + publication + latency;
    World(Store(map[COMMAND := SentRow(insertion, publication)], DEVICES, now, {COMMAND}, [Attempt(REFRESHING, COMMAND, true)]),
          map[REFRESHING := RefreshRead(COMMAND, now + REFRESH_TIMEOUT_MS)])
  }

  lemma SendsReachesWaiting(insertion: nat, publication: nat, latency: nat)
    ensures RunWorld(Asked(insertion), Sends(publication, latency)) == Waiting(insertion, publication, latency)
  {
    var a := Sends(publication, latency);
    RunFive(Asked(insertion), a[0], a[1], a[2], a[3], a[4]);
    Publishes(insertion, publication);
    Marks(insertion, publication);
    StartsToWait(insertion, publication, latency);
  }

  function Published(insertion: nat, publication: nat): World {
    World(Asked(insertion).store.(now := insertion + publication, log := [Attempt(REFRESHING, COMMAND, true)]),
          map[REFRESHING := RefreshMark(COMMAND)])
  }

  lemma Publishes(insertion: nat, publication: nat)
    ensures Step(Step(Asked(insertion), Pause(publication)), Resume(REFRESHING, Choice(0, true, [])))
         == Published(insertion, publication)
  {
    var w := Asked(insertion);
    Passes(w, publication);
    Moves(World(w.store.(now := insertion + publication), w.calls), REFRESHING, Choice(0, true, []));
    assert w.calls[REFRESHING := RefreshMark(COMMAND)] == Published(insertion, publication).calls;
  }

  function Recorded(insertion: nat, publication: nat): World {
    World(Published(insertion, publication).store.(commands := map[COMMAND := SentRow(insertion, publication)]),
          map[REFRESHING := RefreshWait(COMMAND)])
  }

  lemma Marks(insertion: nat, publication: nat)
    ensures Step(Published(insertion, publication), MOVE) == Recorded(insertion, publication)
  {
    var w := Published(insertion, publication);
    Moves(w, REFRESHING, Choice(0, false, []));
    assert w.calls[REFRESHING := RefreshWait(COMMAND)] == Recorded(insertion, publication).calls;
    assert w.store.commands[COMMAND := SentRow(insertion, publication)] == Recorded(insertion, publication).store.commands;
  }

  lemma StartsToWait(insertion: nat, publication: nat, latency: nat)
    ensures Step(Step(Recorded(insertion, publication), Pause(latency)), MOVE) == Waiting(insertion, publication, latency)
  {
    var w, end := Recorded(insertion, publication), Waiting(insertion, publication, latency);
    Passes(w, latency);
    Moves(World(w.store.(now := w.store.now + latency), w.calls), REFRESHING, Choice(0, false, []));
    assert w.calls[REFRESHING := end.calls[REFRESHING]] == end.calls;
  }

  /** A refresh waits for its answer, whatever the store and the broker took: the states of the theorems exist. */
  lemma WaitIsReached(insertion: nat, publication: nat, latency: nat)
    ensures Boot(BOOTED)
    ensures RunWorld(BOOTED, AsksAndSends(insertion, publication, latency)) == Waiting(insertion, publication, latency)
  {
    AsksReachesAsked(insertion);
    SendsReachesWaiting(insertion, publication, latency);
    RunWorldConcat(BOOTED, Asks(insertion), Sends(publication, latency));
  }

  // ----- cut short -----

  /** More than 5 s between the expiry computed and the wait, spent inserting, publishing or starting to wait: from a boot,
      the command is waited for and, before the deadline, expires. */
  lemma ARefreshIsCutShort(insertion: nat, publication: nat, latency: nat) returns (actions: seq<Action>)
    requires insertion + publication + latency > REFRESH_TTL_MS - REFRESH_TIMEOUT_MS
    ensures var w := RunWorld(BOOTED, actions);
            && Boot(BOOTED) && REFRESHING in w.calls && Refreshing(w.calls[REFRESHING]) == Some(COMMAND)
            && Deadline(w.calls[REFRESHING]).Some? && w.store.now < Deadline(w.calls[REFRESHING]).value
            && COMMAND in w.store.commands && w.store.commands[COMMAND].status == Expired
  {
    WaitIsReached(insertion, publication, latency);
    var more := LateWaitCanBeCutShort(BOOTED, AsksAndSends(insertion, publication, latency), REFRESHING, COMMAND);
    actions := AsksAndSends(insertion, publication, latency) + more;
  }

  /** The slow insert alone: 6 s, with everything else immediate. */
  lemma ASlowInsertCutsShort() returns (actions: seq<Action>)
    ensures var w := RunWorld(BOOTED, actions);
            && Boot(BOOTED) && REFRESHING in w.calls && Refreshing(w.calls[REFRESHING]) == Some(COMMAND)
            && Deadline(w.calls[REFRESHING]).Some? && w.store.now < Deadline(w.calls[REFRESHING]).value
            && COMMAND in w.store.commands && w.store.commands[COMMAND].status == Expired
            && w.store.commands[COMMAND].createdAt == 6_000 && Deadline(w.calls[REFRESHING]).value == 21_000
  {
    WaitIsReached(6_000, 0, 0);
    var more := LateWaitCanBeCutShort(BOOTED, AsksAndSends(6_000, 0, 0), REFRESHING, COMMAND);
    actions := AsksAndSends(6_000, 0, 0) + more;
    RowsAreConsistent(BOOTED, AsksAndSends(6_000, 0, 0), more, COMMAND);
  }

  // ----- timing out -----

  /** Nothing happens until the deadline; one more read, and the refresh gives up. */
  const TIMES_OUT: seq<Action> := [Pause(REFRESH_TIMEOUT_MS)] + [MOVE, MOVE, MOVE]

  lemma TimesOutGivesUp(w: World, deadline: Instant)
    requires REFRESHING in w.calls && w.calls[REFRESHING] == RefreshRead(COMMAND, deadline)
    requires COMMAND in w.store.commands && !Terminal(w.store.commands[COMMAND].status)
    requires deadline == w.store.now + REFRESH_TIMEOUT_MS
    ensures RunWorld(w, TIMES_OUT) == GivenUpOn(World(w.store.(now := deadline), w.calls))
  {
    var moves := [MOVE, MOVE, MOVE];
    PausesFirst(w, moves);
    PollsAfterPause(w, World(w.store.(now := deadline), w.calls), deadline, moves);
  }

  lemma PollsAfterPause(w: World, late: World, deadline: Instant, moves: seq<Action>)
    requires |moves| == 3 && moves[0] == moves[1] == moves[2] == MOVE
    requires REFRESHING in late.calls && late.calls[REFRESHING] == RefreshRead(COMMAND, deadline)
    requires COMMAND in late.store.commands && !Terminal(late.store.commands[COMMAND].status)
    requires late.store.now >= deadline && RunWorld(w, [Pause(REFRESH_TIMEOUT_MS)] + moves) == RunWorld(late, moves)
    ensures RunWorld(w, [Pause(REFRESH_TIMEOUT_MS)] + moves) == GivenUpOn(late)
  {
    PollsOut(late, deadline, moves);
  }

  lemma PausesFirst(w: World, rest: seq<Action>)
    ensures RunWorld(w, [Pause(REFRESH_TIMEOUT_MS)] + rest)
         == RunWorld(World(w.store.(now := w.store.now + REFRESH_TIMEOUT_MS), w.calls), rest)
  {
    RunFromFront(w, Pause(REFRESH_TIMEOUT_MS), rest);
    Passes(w, REFRESH_TIMEOUT_MS);
  }

  /** The refresh has given up on its command. */
  function GivenUpOn(w: World): World
    requires COMMAND in w.store.commands
  {
    World(w.store.(commands := w.store.commands[COMMAND := w.store.commands[COMMAND].(status := Expired)]),
          w.calls[REFRESHING := Done(TimedOut(COMMAND))])
  }

  lemma PollsOut(w: World, deadline: Instant, moves: seq<Action>)
    requires |moves| == 3 && moves[0] == moves[1] == moves[2] == MOVE
    requires REFRESHING in w.calls && w.calls[REFRESHING] == RefreshRead(COMMAND, deadline)
    requires COMMAND in w.store.commands && !Terminal(w.store.commands[COMMAND].status)
    requires w.store.now >= deadline
    ensures RunWorld(w, moves) == GivenUpOn(w)
  {
    assert moves == [moves[0], moves[1], moves[2]];
    RunThree(w, moves[0], moves[1], moves[2]);
    ReadsThenPauses(w, deadline);
    var over := w.calls[REFRESHING := RefreshGiveUp(COMMAND)];
    GivesUp(World(w.store, over));
    assert over[REFRESHING := Done(TimedOut(COMMAND))] == w.calls[REFRESHING := Done(TimedOut(COMMAND))];
  }

  lemma ReadsThenPauses(w: World, deadline: Instant)
    requires REFRESHING in w.calls && w.calls[REFRESHING] == RefreshRead(COMMAND, deadline)
    requires COMMAND in w.store.commands && !Terminal(w.store.commands[COMMAND].status)
    requires w.store.now >= deadline
    ensures Step(Step(w, MOVE), MOVE) == World(w.store, w.calls[REFRESHING := RefreshGiveUp(COMMAND)])
  {
    Moves(w, REFRESHING, Choice(0, false, []));
    var read := World(w.store, w.calls[REFRESHING := RefreshPause(COMMAND, deadline)]);
    assert Step(w, MOVE) == read;
    Moves(read, REFRESHING, Choice(0, false, []));
    assert read.calls[REFRESHING := RefreshGiveUp(COMMAND)] == w.calls[REFRESHING := RefreshGiveUp(COMMAND)];
  }

  lemma GivesUp(w: World)
    requires REFRESHING in w.calls && w.calls[REFRESHING] == RefreshGiveUp(COMMAND)
    requires COMMAND in w.store.commands && !Terminal(w.store.commands[COMMAND].status)
    ensures Step(w, MOVE) == GivenUpOn(w)
  {
    Moves(w, REFRESHING, Choice(0, false, []));
  }

  /** From the request at the instant 0 to the error, 15 s and whatever the insert and the publication took: up to 20 s
      even where the store answers at once. */
  lemma ARefreshOutlastsItsTimeout(insertion: nat, publication: nat)
    requires publication <= PUBLISH_TIMEOUT_MS
    ensures var end := RunWorld(BOOTED, AsksAndSends(insertion, publication, 0) + TIMES_OUT);
            && Boot(BOOTED) && REFRESHING in end.calls && end.calls[REFRESHING] == Done(TimedOut(COMMAND))
            && end.store.now - BOOTED.store.now == insertion + publication + REFRESH_TIMEOUT_MS
  {
    WaitIsReached(insertion, publication, 0);
    RunWorldConcat(BOOTED, AsksAndSends(insertion, publication, 0), TIMES_OUT);
    TimesOutGivesUp(Waiting(insertion, publication, 0), insertion + publication + REFRESH_TIMEOUT_MS);
  }

  // ----- acknowledged, then expired -----

  const ACKNOWLEDGES: seq<Action> :=
    [Start(ANSWERING, AckMessage(TABLET, COMMAND, AckReceived, None, None)), Resume(ANSWERING, Choice(0, false, []))]

  lemma AcknowledgesMarks()
    ensures var w := RunWorld(Waiting(0, 0, 0), ACKNOWLEDGES);
            && REFRESHING in w.calls && w.calls[REFRESHING] == RefreshRead(COMMAND, REFRESH_TIMEOUT_MS) && w.store.now == 0
            && w.store.commands == map[COMMAND := Answered(SentRow(0, 0), AckReceived, None, None, 0)]
  {
    var w := Waiting(0, 0, 0);
    var request := AckMessage(TABLET, COMMAND, AckReceived, None, None);
    RunTwo(w, ACKNOWLEDGES[0], ACKNOWLEDGES[1]);
    Starts(w, ANSWERING, request);
    var started := World(w.store, w.calls[ANSWERING := FirstCall(request)]);
    Moves(started, ANSWERING, Choice(0, false, []));
    assert w.store.commands[COMMAND := Answered(SentRow(0, 0), AckReceived, None, None, 0)]
        == map[COMMAND := Answered(SentRow(0, 0), AckReceived, None, None, 0)];
  }

  lemma RunTwo(w: World, a: Action, b: Action)
    ensures RunWorld(w, [a, b]) == Step(Step(w, a), b)
  {
    assert [a, b] == [a] + [b] && [b] == [b] + [];
    RunFromFront(w, a, [b]);
    RunFromFront(Step(w, a), b, []);
  }

  /** The device acknowledges the refresh at once and never completes it: the command ends expired, although it was
      acknowledged before it ran out. */
  lemma AnAcknowledgedRefreshExpires()
    ensures var end := RunWorld(BOOTED, AsksAndSends(0, 0, 0) + ACKNOWLEDGES + TIMES_OUT);
            && Boot(BOOTED) && COMMAND in end.store.commands
            && end.store.commands[COMMAND].status == Expired && end.store.commands[COMMAND].acknowledgedAt == Some(0)
            && end.store.commands[COMMAND].expiresAt == REFRESH_TTL_MS
  {
    WaitIsReached(0, 0, 0);
    AcknowledgesMarks();
    RunWorldConcat(BOOTED, AsksAndSends(0, 0, 0), ACKNOWLEDGES);
    RunWorldConcat(BOOTED, AsksAndSends(0, 0, 0) + ACKNOWLEDGES, TIMES_OUT);
    TimesOutGivesUp(RunWorld(Waiting(0, 0, 0), ACKNOWLEDGES), REFRESH_TIMEOUT_MS);
  }
}
