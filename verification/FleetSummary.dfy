/** The derived status of each listed device, and the counts of the fleet's summary. */
module FleetSummary {
  import opened Devices
  import opened CommandStore

  datatype OverviewStatus = StatusPending | StatusOffline | StatusCommandRunning | StatusOnline

  const STATUSES: seq<OverviewStatus> := [StatusPending, StatusOffline, StatusCommandRunning, StatusOnline]

  predicate InFlight(command: Command, deviceId: DeviceId, now: Instant) {
    command.deviceId == deviceId && command.status in {Pending, Sent, Acknowledged} && command.expiresAt > now
  }

  predicate HasCommandInFlight(s: Store, deviceId: DeviceId) {
    exists id :: id in s.commands && InFlight(s.commands[id], deviceId, s.now)
  }

  /** The `case` expression of the view. */
  function ViewStatus(s: Store, id: DeviceId): OverviewStatus
    requires id in s.devices
  {
    if s.devices[id].enrollmentStatus == EnrollmentPending then StatusPending
    else if !s.devices[id].online then StatusOffline
    else if HasCommandInFlight(s, id) then StatusCommandRunning
    else StatusOnline
  }

  function Fleet(s: Store): set<DeviceId> {
    set id | id in s.devices && Listed(s.devices[id])
  }

  function WithStatus(s: Store, status: OverviewStatus): set<DeviceId> {
    set id | id in s.devices && Listed(s.devices[id]) && ViewStatus(s, id) == status
  }

  lemma FourParts(whole: set<DeviceId>, a: set<DeviceId>, b: set<DeviceId>, c: set<DeviceId>, d: set<DeviceId>)
    requires whole == a + b + c + d && a !! b !! c !! d
    ensures |whole| == |a| + |b| + |c| + |d|
  {
    assert |a + b| == |a| + |b|;
    assert |a + b + c| == |a + b| + |c|;
  }

  /** Each listed device is in exactly one class, so the classes add up. */
  lemma StatusesPartitionTheFleet(s: Store)
    ensures |Fleet(s)| == |WithStatus(s, StatusPending)| + |WithStatus(s, StatusOffline)|
                        + |WithStatus(s, StatusCommandRunning)| + |WithStatus(s, StatusOnline)|
  {
    FourParts(Fleet(s), WithStatus(s, StatusPending), WithStatus(s, StatusOffline),
              WithStatus(s, StatusCommandRunning), WithStatus(s, StatusOnline));
  }

  /** Each class, told without the order of the cases. */
  lemma WhoIsCounted(s: Store, id: DeviceId)
    requires id in s.devices
    ensures var device := s.devices[id];
            && (id in WithStatus(s, StatusPending) <==> device.enrollmentStatus == EnrollmentPending)
            && (id in WithStatus(s, StatusOffline) <==> device.enrollmentStatus == Enrolled && !device.online)
            && (id in WithStatus(s, StatusCommandRunning)
                <==> device.enrollmentStatus == Enrolled && device.online
                     && exists c :: c in s.commands && s.commands[c].deviceId == id && s.now < s.commands[c].expiresAt
                                    && !Terminal(s.commands[c].status))
            && (id in WithStatus(s, StatusOnline)
                <==> device.enrollmentStatus == Enrolled && device.online
                     && forall c | c in s.commands && s.commands[c].deviceId == id && s.now < s.commands[c].expiresAt ::
                          s.commands[c].status in {Succeeded, Failed, Expired})
  {
  }

  /** `select status, count(*) … group by status` over these statuses: a row per status some device has. */
  ghost predicate AreRowsFor(s: Store, statuses: seq<OverviewStatus>, rows: seq<(OverviewStatus, nat)>) {
    && (forall i | 0 <= i < |rows| :: rows[i].0 in statuses && rows[i].1 == |WithStatus(s, rows[i].0)| > 0)
    && (forall i, j | 0 <= i < j < |rows| :: rows[i].0 != rows[j].0)
    && (forall status | status in statuses && WithStatus(s, status) != {} ::
          exists i :: 0 <= i < |rows| && rows[i].0 == status)
  }

  /** The rows of the whole query. */
  ghost predicate IsGrouping(s: Store, rows: seq<(OverviewStatus, nat)>) {
    AreRowsFor(s, STATUSES, rows)
  }

  lemma EveryStatusIsListed(status: OverviewStatus)
    ensures status in STATUSES
  {
    match status
    case StatusPending => assert STATUSES[0] == status;
    case StatusOffline => assert STATUSES[1] == status;
    case StatusCommandRunning => assert STATUSES[2] == status;
    case StatusOnline => assert STATUSES[3] == status;
  }

  /** The rows of the query for these statuses. */
  ghost function RowsFor(s: Store, statuses: seq<OverviewStatus>): seq<(OverviewStatus, nat)> {
    if statuses == [] then []
    else
      var last := statuses[|statuses| - 1];
      RowsFor(s, statuses[..|statuses| - 1]) + if WithStatus(s, last) == {} then [] else [(last, |WithStatus(s, last)|)]
  }

  lemma {:induction false} RowsForGroup(s: Store, statuses: seq<OverviewStatus>)
    requires forall i, j | 0 <= i < j < |statuses| :: statuses[i] != statuses[j]
    ensures AreRowsFor(s, statuses, RowsFor(s, statuses))
  {
    if statuses != [] {
      var n := |statuses| - 1;
      RowsForGroup(s, statuses[..n]);
      OneMoreStatus(s, statuses[..n], RowsFor(s, statuses[..n]), statuses[n]);
      assert statuses == statuses[..n] + [statuses[n]];
    }
  }

  lemma OneMoreStatus(s: Store, statuses: seq<OverviewStatus>, rows: seq<(OverviewStatus, nat)>, last: OverviewStatus)
    requires AreRowsFor(s, statuses, rows) && last !in statuses
    ensures AreRowsFor(s, statuses + [last],
                       rows + if WithStatus(s, last) == {} then [] else [(last, |WithStatus(s, last)|)])
  {
    var row := if WithStatus(s, last) == {} then [] else [(last, |WithStatus(s, last)|)];
    forall status | status in statuses + [last] && WithStatus(s, status) != {}
      ensures exists i :: 0 <= i < |rows + row| && (rows + row)[i].0 == status
    {
      if status == last {
        assert (rows + row)[|rows|].0 == last;
      } else {
        var i :| 0 <= i < |rows| && rows[i].0 == status;
        assert (rows + row)[i].0 == status;
      }
    }
  }

  /** Every store has such rows. */
  lemma GroupingExists(s: Store)
    ensures IsGrouping(s, RowsFor(s, STATUSES))
  {
    RowsForGroup(s, STATUSES);
  }

  /** `DeviceService.summary`, over the rows of the query: every status is present, each count is the size of its class,
      and the total is the number of devices listed. */
  method Summary(ghost s: Store, rows: seq<(OverviewStatus, nat)>) returns (total: nat, byStatus: map<OverviewStatus, nat>)
    requires IsGrouping(s, rows)
    ensures forall status :: status in byStatus && byStatus[status] == |WithStatus(s, status)|
    ensures total == |Fleet(s)|
  {
    byStatus := FillCounts(rows);
    forall status ensures byStatus[status] == |WithStatus(s, status)| {
      CountOfStatus(s, rows, byStatus, status);
    }
    total := byStatus[StatusPending] + byStatus[StatusOffline] + byStatus[StatusCommandRunning] + byStatus[StatusOnline];
    StatusesPartitionTheFleet(s);
  }

  /** The record of zeros, filled with the rows of the query. */
  method FillCounts(rows: seq<(OverviewStatus, nat)>) returns (byStatus: map<OverviewStatus, nat>)
    requires forall i, j | 0 <= i < j < |rows| :: rows[i].0 != rows[j].0
    ensures forall status :: status in byStatus
    ensures forall i | 0 <= i < |rows| :: byStatus[rows[i].0] == rows[i].1
    ensures forall status | (forall i | 0 <= i < |rows| :: rows[i].0 != status) :: byStatus[status] == 0
  {
    byStatus := map status | status in STATUSES :: 0;
    forall status: OverviewStatus ensures status in byStatus && byStatus[status] == 0 {
      EveryStatusIsListed(status);
    }
    for k := 0 to |rows|
      invariant forall status :: status in byStatus
      invariant forall i | 0 <= i < k :: byStatus[rows[i].0] == rows[i].1
      invariant forall status | (forall i | 0 <= i < k :: rows[i].0 != status) :: byStatus[status] == 0
    {
      byStatus := byStatus[rows[k].0 := rows[k].1];
    }
  }

  /** A status no row names has no device. */
  lemma CountOfStatus(s: Store, rows: seq<(OverviewStatus, nat)>, byStatus: map<OverviewStatus, nat>, status: OverviewStatus)
    requires IsGrouping(s, rows) && status in byStatus
    requires forall i | 0 <= i < |rows| :: rows[i].0 in byStatus && byStatus[rows[i].0] == rows[i].1
    requires (forall i | 0 <= i < |rows| :: rows[i].0 != status) ==> byStatus[status] == 0
    ensures byStatus[status] == |WithStatus(s, status)|
  {
    EveryStatusIsListed(status);
    if i :| 0 <= i < |rows| && rows[i].0 == status {
      assert byStatus[rows[i].0] == rows[i].1;
    } else {
      assert WithStatus(s, status) == {};
    }
  }
}
