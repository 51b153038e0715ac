/**
  What `Home::write_to_pg` (src/main.rs lines 91-128) does to the database, over an
  abstract store: the `device` table as a map keyed by device id, and the `device_status`
  table as the sequence of rows in insertion order.

  The write is a fixed sequence of statements (its `Plan`): for each device in list order,
  one conflict-ignoring device insert followed by one status insert per status entry.
  Statements run one at a time; the first one that fails ends the write with an error
  and nothing already written is undone.
 */
module Persistence {
  import opened Ally

  /** A row of the `device` table: a device without its status list. */
  datatype DeviceRow = DeviceRow(
    activeTime: I64,
    createTime: I64,
    id: string,
    name: string,
    online: bool,
    sub: bool,
    timeZone: string,
    updateTime: I64,
    deviceType: string)

  /**
    A row of the `device_status` table. `updateTime` is the one timestamp taken at the start
    of the write; the row's own synthesized key is not modelled.
   */
  datatype StatusRow = StatusRow(code: string, value: string, deviceId: string, updateTime: nat)

  datatype Store = Store(devices: map<string, DeviceRow>, statuses: seq<StatusRow>)

  /** One SQL statement of a write. */
  datatype Stmt = InsertDevice(device: DeviceRow) | InsertStatus(status: StatusRow)

  /**
    What the database does to one write: nothing goes wrong, the connection cannot be
    opened, or statement number `index` (counting from 0 in plan order) is the first to fail.
   */
  datatype DbFault = NoFault | ConnectFails | StatementFails(index: nat)

  datatype WriteError = ConnectFailed | StatementFailed(index: nat)

  datatype Outcome = Written | Failed(error: WriteError)

  datatype WriteResult = WriteResult(store: Store, outcome: Outcome)

  function RowOf(d: Device): DeviceRow {
    DeviceRow(d.activeTime, d.createTime, d.id, d.name, d.online, d.sub, d.timeZone, d.updateTime, d.deviceType)
  }

  function StatusRowOf(d: Device, s: Status, updateTime: nat): StatusRow {
    StatusRow(s.code, s.value, d.id, updateTime)
  }

  /** The status rows one device contributes, in the order of its status list. */
  function StatusRowsOf(d: Device, updateTime: nat): seq<StatusRow> {
    seq(|d.status|, k requires 0 <= k < |d.status| => StatusRowOf(d, d.status[k], updateTime))
  }

  function StatusInserts(d: Device, updateTime: nat): seq<Stmt> {
    seq(|d.status|, k requires 0 <= k < |d.status| => InsertStatus(StatusRowOf(d, d.status[k], updateTime)))
  }

  /** The statements a write of `ds` issues, in execution order. */
  function Plan(ds: seq<Device>, updateTime: nat): seq<Stmt>
    decreases |ds|
  {
    if |ds| == 0 then []
    else
      var d := ds[|ds| - 1];
      Plan(ds[..|ds| - 1], updateTime) + [InsertDevice(RowOf(d))] + StatusInserts(d, updateTime)
  }

  /** One statement: `INSERT ... ON CONFLICT DO NOTHING` for devices, a plain insert for statuses. */
  function Apply(st: Store, s: Stmt): (r: Store)
    ensures s.InsertDevice? ==>
      && r.statuses == st.statuses
      && r.devices.Keys == st.devices.Keys + {s.device.id}
      && (forall id :: id in st.devices ==> r.devices[id] == st.devices[id])
      && (s.device.id !in st.devices ==> r.devices[s.device.id] == s.device)
    ensures s.InsertStatus? ==> r.devices == st.devices && r.statuses == st.statuses + [s.status]
  {
    match s
    case InsertDevice(row) =>
      if row.id in st.devices then st else st.(devices := st.devices[row.id := row])
    case InsertStatus(row) => st.(statuses := st.statuses + [row])
  }

  function ApplyAll(st: Store, p: seq<Stmt>): Store
    decreases |p|
  {
    if |p| == 0 then st else Apply(ApplyAll(st, p[..|p| - 1]), p[|p| - 1])
  }

  /**
    The whole of `write_to_pg`, given what the database does: the plan runs up to the first
    failing statement. It completes unless the connection fails or one of its statements,
    one per device and one per status entry, fails; a failure is reported as it happened,
    and whatever ran stays written.
   */
  function Write(st: Store, ds: seq<Device>, updateTime: nat, fault: DbFault): (r: WriteResult)
    ensures r.outcome.Written? <==>
      fault.NoFault? || (fault.StatementFails? && fault.index >= |ds| + StatusCount(ds))
    ensures r.outcome.Failed? ==>
      r.outcome.error == (if fault.ConnectFails? then ConnectFailed else StatementFailed(fault.index))
    ensures Extends(st, r.store)
  {
    var plan := Plan(ds, updateTime);
    PlanLength(ds, updateTime);
    match fault
    case ConnectFails => WriteResult(st, Failed(ConnectFailed))
    case StatementFails(k) =>
      if k < |plan| then
        ApplyAllExtends(st, plan[..k]);
        WriteResult(ApplyAll(st, plan[..k]), Failed(StatementFailed(k)))
      else
        ApplyAllExtends(st, plan);
        WriteResult(ApplyAll(st, plan), Written)
    case NoFault =>
      ApplyAllExtends(st, plan);
      WriteResult(ApplyAll(st, plan), Written)
  }

  // ---------------------------------------------------------------------------
  // Declarative descriptions of a complete write
  // ---------------------------------------------------------------------------

  function Ids(ds: seq<Device>): set<string> {
    set i | 0 <= i < |ds| :: ds[i].id
  }

  /** No device before position `i` carries the id of `ds[i]`. */
  predicate FirstWithId(ds: seq<Device>, i: nat)
    requires i < |ds|
  {
    forall j :: 0 <= j < i ==> ds[j].id != ds[i].id
  }

  /**
    `after` is `before` plus, for every id of `ds` that `before` lacks, the row of the first
    device in `ds` carrying that id; rows already in `before` are untouched.
   */
  predicate InsertedIfAbsent(before: map<string, DeviceRow>, ds: seq<Device>, after: map<string, DeviceRow>) {
    && after.Keys == before.Keys + Ids(ds)
    && (forall id :: id in before ==> after[id] == before[id])
    && (forall i :: 0 <= i < |ds| && ds[i].id !in before && FirstWithId(ds, i) ==> after[ds[i].id] == RowOf(ds[i]))
  }

  /** Every status entry of every device, device by device, as status rows. */
  function AllStatusRows(ds: seq<Device>, updateTime: nat): seq<StatusRow>
    decreases |ds|
  {
    if |ds| == 0 then [] else AllStatusRows(ds[..|ds| - 1], updateTime) + StatusRowsOf(ds[|ds| - 1], updateTime)
  }

  /** The number of status entries across `ds`. */
  function StatusCount(ds: seq<Device>): nat
    decreases |ds|
  {
    if |ds| == 0 then 0 else StatusCount(ds[..|ds| - 1]) + |ds[|ds| - 1].status|
  }

  /** The device map after inserting `ds` one by one, skipping ids already present. */
  function InsertAbsent(m: map<string, DeviceRow>, ds: seq<Device>): map<string, DeviceRow>
    decreases |ds|
  {
    if |ds| == 0 then m
    else
      var m' := InsertAbsent(m, ds[..|ds| - 1]);
      var d := ds[|ds| - 1];
      if d.id in m' then m' else m'[d.id := RowOf(d)]
  }

  /** Keys match row ids, and every status row belongs to a stored device (the foreign key). */
  predicate Consistent(st: Store) {
    && (forall id :: id in st.devices ==> st.devices[id].id == id)
    && (forall k :: 0 <= k < |st.statuses| ==> st.statuses[k].deviceId in st.devices)
  }

  /** `b` extends `a`: status rows only appended, device rows only added. */
  predicate Extends(a: Store, b: Store) {
    && a.statuses <= b.statuses
    && (forall id :: id in a.devices ==> id in b.devices && b.devices[id] == a.devices[id])
  }

  function InsertedIds(p: seq<Stmt>): set<string> {
    set k | 0 <= k < |p| && p[k].InsertDevice? :: p[k].device.id
  }

  /** Each status insert comes after an insert of its owning device. */
  predicate OwnersFirst(p: seq<Stmt>) {
    forall k :: 0 <= k < |p| && p[k].InsertStatus? ==> p[k].status.deviceId in InsertedIds(p[..k])
  }

  // ---------------------------------------------------------------------------
  // Statement-level facts
  // ---------------------------------------------------------------------------

  lemma ApplyAllSnoc(st: Store, p: seq<Stmt>, s: Stmt)
    ensures ApplyAll(st, p + [s]) == Apply(ApplyAll(st, p), s)
  {
    assert (p + [s])[..|p|] == p;
  }

  lemma {:induction false} ApplyAllAppend(st: Store, p: seq<Stmt>, q: seq<Stmt>)
    ensures ApplyAll(st, p + q) == ApplyAll(ApplyAll(st, p), q)
    decreases |q|
  {
    if |q| == 0 {
      assert p + q == p;
    } else {
      var q' := q[..|q| - 1];
      assert p + q == (p + q') + [q[|q| - 1]];
      ApplyAllSnoc(st, p + q', q[|q| - 1]);
      ApplyAllAppend(st, p, q');
      ApplyAllSnoc(ApplyAll(st, p), q', q[|q| - 1]);
      assert q == q' + [q[|q| - 1]];
    }
  }

  /** Running a prefix of one device's status inserts appends that prefix of its rows. */
  lemma {:induction false} StatusInsertsEffect(st: Store, d: Device, updateTime: nat, j: nat)
    requires j <= |d.status|
    ensures ApplyAll(st, StatusInserts(d, updateTime)[..j])
         == st.(statuses := st.statuses + StatusRowsOf(d, updateTime)[..j])
    decreases j
  {
    if j > 0 {
      var si := StatusInserts(d, updateTime);
      StatusInsertsEffect(st, d, updateTime, j - 1);
      assert si[..j] == si[..j - 1] + [si[j - 1]];
      ApplyAllSnoc(st, si[..j - 1], si[j - 1]);
      var rows := StatusRowsOf(d, updateTime);
      assert rows[..j] == rows[..j - 1] + [rows[j - 1]];
    }
  }

  lemma {:induction false} PlanLength(ds: seq<Device>, updateTime: nat)
    ensures |Plan(ds, updateTime)| == |ds| + StatusCount(ds)
    decreases |ds|
  {
    if |ds| > 0 {
      PlanLength(ds[..|ds| - 1], updateTime);
    }
  }

  /** The plan of a prefix of the list is a prefix of the plan. */
  lemma {:induction false} PlanPrefix(ds: seq<Device>, i: nat, updateTime: nat)
    requires i <= |ds|
    ensures Plan(ds[..i], updateTime) <= Plan(ds, updateTime)
    decreases |ds|
  {
    if i < |ds| {
      var init := ds[..|ds| - 1];
      assert ds[..i] == init[..i];
      PlanPrefix(init, i, updateTime);
    } else {
      assert ds[..i] == ds;
    }
  }

  /** Running the whole plan inserts the absent devices and appends every status row. */
  lemma {:induction false} PlanEffect(st: Store, ds: seq<Device>, updateTime: nat)
    ensures ApplyAll(st, Plan(ds, updateTime))
         == Store(InsertAbsent(st.devices, ds), st.statuses + AllStatusRows(ds, updateTime))
    decreases |ds|
  {
    if |ds| > 0 {
      var init, d := ds[..|ds| - 1], ds[|ds| - 1];
      var dev := InsertDevice(RowOf(d));
      var si := StatusInserts(d, updateTime);
      PlanEffect(st, init, updateTime);
      var mid := ApplyAll(st, Plan(init, updateTime));
      ApplyAllAppend(st, Plan(init, updateTime) + [dev], si);
      ApplyAllSnoc(st, Plan(init, updateTime), dev);
      StatusInsertsEffect(Apply(mid, dev), d, updateTime, |d.status|);
      assert si[..|d.status|] == si;
      assert StatusRowsOf(d, updateTime)[..|d.status|] == StatusRowsOf(d, updateTime);
    }
  }

  lemma {:induction false} StatusRowCount(ds: seq<Device>, updateTime: nat)
    ensures |AllStatusRows(ds, updateTime)| == StatusCount(ds)
    decreases |ds|
  {
    if |ds| > 0 {
      StatusRowCount(ds[..|ds| - 1], updateTime);
    }
  }

  lemma IdsSnoc(ds: seq<Device>)
    requires |ds| > 0
    ensures Ids(ds) == Ids(ds[..|ds| - 1]) + {ds[|ds| - 1].id}
  {
    var init := ds[..|ds| - 1];
    forall x | x in Ids(ds) ensures x in Ids(init) + {ds[|ds| - 1].id} {
      var i :| 0 <= i < |ds| && ds[i].id == x;
      if i < |ds| - 1 { assert init[i] == ds[i]; }
    }
    forall x | x in Ids(init) ensures x in Ids(ds) {
      var i :| 0 <= i < |init| && init[i].id == x;
      assert ds[i] == init[i];
    }
  }

  /** The insert-if-absent fold meets its declarative description. */
  lemma InsertAbsentCharacterized(m: map<string, DeviceRow>, ds: seq<Device>)
    ensures InsertedIfAbsent(m, ds, InsertAbsent(m, ds))
  {
    InsertAbsentKeys(m, ds);
    forall id | id in m ensures InsertAbsent(m, ds)[id] == m[id] {
      InsertAbsentKeeps(m, ds, id);
    }
    forall i | 0 <= i < |ds| && ds[i].id !in m && FirstWithId(ds, i)
      ensures InsertAbsent(m, ds)[ds[i].id] == RowOf(ds[i])
    {
      InsertAbsentFirst(m, ds, i);
    }
  }

  lemma {:induction false} InsertAbsentKeys(m: map<string, DeviceRow>, ds: seq<Device>)
    ensures InsertAbsent(m, ds).Keys == m.Keys + Ids(ds)
    decreases |ds|
  {
    if |ds| > 0 {
      InsertAbsentKeys(m, ds[..|ds| - 1]);
      IdsSnoc(ds);
    }
  }

  lemma {:induction false} InsertAbsentKeeps(m: map<string, DeviceRow>, ds: seq<Device>, id: string)
    requires id in m
    ensures id in InsertAbsent(m, ds) && InsertAbsent(m, ds)[id] == m[id]
    decreases |ds|
  {
    if |ds| > 0 {
      InsertAbsentKeeps(m, ds[..|ds| - 1], id);
    }
  }

  lemma {:induction false} InsertAbsentFirst(m: map<string, DeviceRow>, ds: seq<Device>, i: nat)
    requires i < |ds| && ds[i].id !in m && FirstWithId(ds, i)
    ensures ds[i].id in InsertAbsent(m, ds) && InsertAbsent(m, ds)[ds[i].id] == RowOf(ds[i])
    decreases |ds|
  {
    var init := ds[..|ds| - 1];
    InsertAbsentKeys(m, init);
    if i < |ds| - 1 {
      assert init[i] == ds[i];
      assert FirstWithId(init, i);
      InsertAbsentFirst(m, init, i);
    } else {
      assert ds[i].id !in Ids(init);
    }
  }

  /** Applying statements only appends status rows and only adds device rows. */
  lemma {:induction false} ApplyAllExtends(st: Store, p: seq<Stmt>)
    ensures Extends(st, ApplyAll(st, p))
    decreases |p|
  {
    if |p| > 0 {
      ApplyAllExtends(st, p[..|p| - 1]);
    }
  }

  lemma {:induction false} PlanOwnersFirst(ds: seq<Device>, updateTime: nat)
    ensures OwnersFirst(Plan(ds, updateTime))
    decreases |ds|
  {
    if |ds| > 0 {
      var init, d := ds[..|ds| - 1], ds[|ds| - 1];
      var pre := Plan(init, updateTime);
      var p := Plan(ds, updateTime);
      var si := StatusInserts(d, updateTime);
      PlanOwnersFirst(init, updateTime);
      assert p == pre + [InsertDevice(RowOf(d))] + si;
      forall k | 0 <= k < |p| && p[k].InsertStatus?
        ensures p[k].status.deviceId in InsertedIds(p[..k])
      {
        if k < |pre| {
          assert p[..k] == pre[..k];
          assert pre[k] == p[k];
          assert InsertedIds(pre[..k]) <= InsertedIds(p[..k]);
        } else {
          assert k > |pre|;
          assert p[k] == si[k - |pre| - 1];
          assert p[..k][|pre|] == InsertDevice(RowOf(d));
        }
      }
    }
  }

  lemma OwnersFirstPrefix(p: seq<Stmt>, n: nat)
    requires OwnersFirst(p) && n <= |p|
    ensures OwnersFirst(p[..n])
  {
    forall k | 0 <= k < n && p[..n][k].InsertStatus?
      ensures p[..n][k].status.deviceId in InsertedIds(p[..n][..k])
    {
      assert p[..n][..k] == p[..k];
      assert p[..n][k] == p[k];
    }
  }

  /** Statements whose owners come first keep a consistent store consistent. */
  lemma {:induction false} ConsistentAfter(st: Store, p: seq<Stmt>)
    requires Consistent(st) && OwnersFirst(p)
    ensures Consistent(ApplyAll(st, p))
    ensures InsertedIds(p) <= ApplyAll(st, p).devices.Keys
    decreases |p|
  {
    if |p| > 0 {
      var q, s := p[..|p| - 1], p[|p| - 1];
      OwnersFirstPrefix(p, |p| - 1);
      ConsistentAfter(st, q);
      var a := ApplyAll(st, q);
      assert ApplyAll(st, p) == Apply(a, s);
      if s.InsertStatus? {
        assert p[..|p| - 1] == q;
      }
      forall x | x in InsertedIds(p) ensures x in ApplyAll(st, p).devices {
        var k :| 0 <= k < |p| && p[k].InsertDevice? && p[k].device.id == x;
        if k < |q| {
          assert q[k] == p[k];
          assert x in InsertedIds(q);
        }
      }
    }
  }

  // ---------------------------------------------------------------------------
  // Properties of a write
  // ---------------------------------------------------------------------------

  /**
    A write that completes leaves exactly one new device row per id that was absent (taken
    from the first device with that id), leaves existing device rows as they were, and
    appends one status row per status entry, tagged with its device's id and the write's time.
   */
  lemma WriteComplete(st: Store, ds: seq<Device>, updateTime: nat, fault: DbFault)
    ensures Write(st, ds, updateTime, fault).outcome.Written?
        <==> fault.NoFault? || (fault.StatementFails? && fault.index >= |ds| + StatusCount(ds))
    ensures var r := Write(st, ds, updateTime, fault).store;
      Write(st, ds, updateTime, fault).outcome.Written? ==>
        && InsertedIfAbsent(st.devices, ds, r.devices)
        && r.statuses == st.statuses + AllStatusRows(ds, updateTime)
        && |r.statuses| == |st.statuses| + StatusCount(ds)
  {
    PlanLength(ds, updateTime);
    PlanEffect(st, ds, updateTime);
    InsertAbsentCharacterized(st.devices, ds);
    StatusRowCount(ds, updateTime);
  }

  /** Every row a write appends carries its owning device's id and the write's single timestamp. */
  lemma {:induction false} StatusRowsTagged(ds: seq<Device>, updateTime: nat)
    ensures forall k :: 0 <= k < |AllStatusRows(ds, updateTime)| ==>
      AllStatusRows(ds, updateTime)[k].updateTime == updateTime
      && AllStatusRows(ds, updateTime)[k].deviceId in Ids(ds)
    decreases |ds|
  {
    if |ds| > 0 {
      var init, d := ds[..|ds| - 1], ds[|ds| - 1];
      StatusRowsTagged(init, updateTime);
      var rows := AllStatusRows(ds, updateTime);
      forall k | 0 <= k < |rows| ensures rows[k].updateTime == updateTime && rows[k].deviceId in Ids(ds) {
        if k < |AllStatusRows(init, updateTime)| {
          var id := rows[k].deviceId;
          assert id in Ids(init);
          var i :| 0 <= i < |init| && init[i].id == id;
          assert ds[i] == init[i];
        } else {
          assert rows[k].deviceId == ds[|ds| - 1].id;
        }
      }
    }
  }

  lemma {:induction false} AllStatusRowsConcat(a: seq<Device>, b: seq<Device>, updateTime: nat)
    ensures AllStatusRows(a + b, updateTime) == AllStatusRows(a, updateTime) + AllStatusRows(b, updateTime)
    decreases |b|
  {
    if |b| == 0 {
      assert a + b == a;
    } else {
      var b' := b[..|b| - 1];
      assert (a + b)[..|a + b| - 1] == a + b';
      assert (a + b)[|a + b| - 1] == b[|b| - 1];
      AllStatusRowsConcat(a, b', updateTime);
    }
  }

  /**
    The status rows of a write come device by device: device `d`'s block sits between the rows
    of the devices before it and after it, and its `k`-th row records its `k`-th status entry
    under `d`'s own id.
   */
  lemma StatusRowsByDevice(a: seq<Device>, d: Device, b: seq<Device>, updateTime: nat)
    ensures AllStatusRows(a + [d] + b, updateTime)
         == AllStatusRows(a, updateTime) + StatusRowsOf(d, updateTime) + AllStatusRows(b, updateTime)
    ensures |StatusRowsOf(d, updateTime)| == |d.status|
    ensures forall k :: 0 <= k < |d.status| ==>
      StatusRowsOf(d, updateTime)[k] == StatusRow(d.status[k].code, d.status[k].value, d.id, updateTime)
  {
    AllStatusRowsConcat(a + [d], b, updateTime);
    AllStatusRowsConcat(a, [d], updateTime);
    assert [d][..0] == [];
  }

  /**
    A write that fails at the insert of device `i` leaves exactly what a complete write of the
    devices before `i` leaves. One that fails at status insert `j` of device `i` leaves that,
    plus device `i`'s row if its id was absent, plus the first `j` of device `i`'s status rows.
   */
  lemma FailureKeepsEarlierWrites(st: Store, ds: seq<Device>, updateTime: nat, i: nat, j: nat)
    requires i < |ds|
    ensures var before := Write(st, ds[..i], updateTime, NoFault).store;
      var k := |Plan(ds[..i], updateTime)|;
      Write(st, ds, updateTime, StatementFails(k)) == WriteResult(before, Failed(StatementFailed(k)))
    ensures j < |ds[i].status| ==>
      var before := Write(st, ds[..i], updateTime, NoFault).store;
      var k := |Plan(ds[..i], updateTime)| + 1 + j;
      var d := ds[i];
      var devices := if d.id in before.devices then before.devices else before.devices[d.id := RowOf(d)];
      Write(st, ds, updateTime, StatementFails(k))
      == WriteResult(Store(devices, before.statuses + StatusRowsOf(d, updateTime)[..j]), Failed(StatementFailed(k)))
  {
    var pre := Plan(ds[..i], updateTime);
    BeforeDevice(st, ds, i, updateTime);
    if j < |ds[i].status| {
      AfterStatuses(st, ds, i, updateTime, j, true);
      var afterDev := Apply(ApplyAll(st, pre), InsertDevice(RowOf(ds[i])));
      StatusInsertsEffect(afterDev, ds[i], updateTime, j);
    }
  }

  /**
    A write that stops early only adds to the store, and holds no more than a complete write
    would: its status rows are a prefix of the complete write's, its device rows a subset.
    `FailureKeepsEarlierWrites` says exactly what it keeps.
   */
  lemma WriteFailureKeepsPrefix(st: Store, ds: seq<Device>, updateTime: nat, fault: DbFault)
    ensures var r := Write(st, ds, updateTime, fault);
      r.outcome.Failed? ==>
        && Extends(st, r.store)
        && Extends(r.store, Write(st, ds, updateTime, NoFault).store)
    ensures fault.ConnectFails? ==> Write(st, ds, updateTime, fault).store == st
  {
    var plan := Plan(ds, updateTime);
    if fault.StatementFails? && fault.index < |plan| {
      var k := fault.index;
      ApplyAllExtends(st, plan[..k]);
      assert plan == plan[..k] + plan[k..];
      ApplyAllAppend(st, plan[..k], plan[k..]);
      ApplyAllExtends(ApplyAll(st, plan[..k]), plan[k..]);
    } else if fault.ConnectFails? {
      ApplyAllExtends(st, plan);
    }
  }

  /** However a write ends, the store stays consistent: no status row ever lacks its device row. */
  lemma WriteKeepsConsistent(st: Store, ds: seq<Device>, updateTime: nat, fault: DbFault)
    requires Consistent(st)
    ensures Consistent(Write(st, ds, updateTime, fault).store)
  {
    var plan := Plan(ds, updateTime);
    PlanOwnersFirst(ds, updateTime);
    if fault.StatementFails? && fault.index < |plan| {
      OwnersFirstPrefix(plan, fault.index);
      ConsistentAfter(st, plan[..fault.index]);
    } else {
      ConsistentAfter(st, plan);
    }
  }

  /**
    Writing the same list twice: the second write adds no device row and changes none,
    while status history doubles.
   */
  lemma WriteTwice(st: Store, ds: seq<Device>, t1: nat, t2: nat)
    ensures var r1 := Write(st, ds, t1, NoFault).store;
      var r2 := Write(r1, ds, t2, NoFault).store;
      && r2.devices == r1.devices
      && r2.devices.Keys == st.devices.Keys + Ids(ds)
      && r2.statuses == st.statuses + AllStatusRows(ds, t1) + AllStatusRows(ds, t2)
      && |r2.statuses| == |st.statuses| + 2 * StatusCount(ds)
  {
    var r1 := Write(st, ds, t1, NoFault).store;
    WriteComplete(st, ds, t1, NoFault);
    WriteComplete(r1, ds, t2, NoFault);
    var r2 := Write(r1, ds, t2, NoFault).store;
    assert r2.devices == r1.devices by {
      assert r2.devices.Keys == r1.devices.Keys;
    }
  }

  // ---------------------------------------------------------------------------
  // The write as the source runs it
  // ---------------------------------------------------------------------------

  /**
    The nested loop of `write_to_pg`: each device's insert, then each of its status inserts,
    stopping at the statement the database rejects.
   */
  method WriteToPg(store: Store, devices: seq<Device>, updateTime: nat, fault: DbFault)
    returns (store': Store, outcome: Outcome)
    ensures WriteResult(store', outcome) == Write(store, devices, updateTime, fault)
  {
    if fault.ConnectFails? {
      return store, Failed(ConnectFailed);
    }
    store' := store;
    var executed := 0;
    for i := 0 to |devices|
      invariant store' == ApplyAll(store, Plan(devices[..i], updateTime))
      invariant executed == |Plan(devices[..i], updateTime)|
      invariant fault.StatementFails? ==> executed <= fault.index
    {
      var device := devices[i];
      if fault.StatementFails? && fault.index == executed {
        BeforeDevice(store, devices, i, updateTime);
        return store', Failed(StatementFailed(executed));
      }
      store' := Apply(store', InsertDevice(RowOf(device)));
      var n, failed;
      store', n, failed := InsertStatuses(store', device, updateTime, executed + 1, fault);
      AfterStatuses(store, devices, i, updateTime, n, failed);
      if failed {
        return store', Failed(StatementFailed(executed + 1 + n));
      }
      executed := executed + 1 + n;
    }
    assert devices[..|devices|] == devices;
    WriteRunsThrough(store, devices, updateTime, fault);
    outcome := Written;
  }

  /**
    The inner loop of `write_to_pg`: one insert per status entry of `device`, the first of
    them being statement number `start` of the write. On failure, `n` inserts ran before it.
   */
  method InsertStatuses(st: Store, device: Device, updateTime: nat, start: nat, fault: DbFault)
    returns (st': Store, n: nat, failed: bool)
    requires fault.StatementFails? ==> start <= fault.index
    ensures n <= |device.status|
    ensures st' == ApplyAll(st, StatusInserts(device, updateTime)[..n])
    ensures failed <==> fault.StatementFails? && fault.index < start + |device.status|
    ensures failed ==> n < |device.status| && fault.index == start + n
    ensures !failed ==> n == |device.status|
  {
    st' := st;
    ghost var si := StatusInserts(device, updateTime);
    for j := 0 to |device.status|
      invariant st' == ApplyAll(st, si[..j])
      invariant fault.StatementFails? ==> start + j <= fault.index
    {
      if fault.StatementFails? && fault.index == start + j {
        return st', j, true;
      }
      var s := InsertStatus(StatusRowOf(device, device.status[j], updateTime));
      assert si[..j + 1] == si[..j] + [s];
      ApplyAllSnoc(st, si[..j], s);
      st' := Apply(st', s);
    }
    return st', |device.status|, false;
  }

  /** The statements of device `i` follow those of the devices before it, and the whole is a prefix of the plan. */
  lemma DeviceBlock(ds: seq<Device>, i: nat, updateTime: nat)
    requires i < |ds|
    ensures Plan(ds[..i + 1], updateTime)
         == Plan(ds[..i], updateTime) + [InsertDevice(RowOf(ds[i]))] + StatusInserts(ds[i], updateTime)
    ensures Plan(ds[..i + 1], updateTime) <= Plan(ds, updateTime)
  {
    assert ds[..i + 1][..i] == ds[..i];
    PlanPrefix(ds, i + 1, updateTime);
  }

  /** A write that fails at device `i`'s own insert leaves the store after the devices before it. */
  lemma BeforeDevice(st: Store, ds: seq<Device>, i: nat, updateTime: nat)
    requires i < |ds|
    ensures var k := |Plan(ds[..i], updateTime)|;
      Write(st, ds, updateTime, StatementFails(k))
      == WriteResult(ApplyAll(st, Plan(ds[..i], updateTime)), Failed(StatementFailed(k)))
  {
    DeviceBlock(ds, i, updateTime);
    WriteFailsAfter(st, ds, updateTime, Plan(ds[..i], updateTime));
  }

  /**
    After device `i`'s insert and `n` of its status inserts the store is the one the plan
    reaches at that point: a failure there ends the write, otherwise device `i` is done.
   */
  lemma AfterStatuses(st: Store, ds: seq<Device>, i: nat, updateTime: nat, n: nat, failed: bool)
    requires i < |ds| && n <= |ds[i].status|
    requires failed ==> n < |ds[i].status|
    requires !failed ==> n == |ds[i].status|
    ensures var pre := Plan(ds[..i], updateTime);
      var here := ApplyAll(Apply(ApplyAll(st, pre), InsertDevice(RowOf(ds[i]))), StatusInserts(ds[i], updateTime)[..n]);
      && (failed ==>
            Write(st, ds, updateTime, StatementFails(|pre| + 1 + n)) == WriteResult(here, Failed(StatementFailed(|pre| + 1 + n))))
      && (!failed ==>
            here == ApplyAll(st, Plan(ds[..i + 1], updateTime)) && |Plan(ds[..i + 1], updateTime)| == |pre| + 1 + n)
  {
    var pre := Plan(ds[..i], updateTime);
    var dev := InsertDevice(RowOf(ds[i]));
    var si := StatusInserts(ds[i], updateTime);
    DeviceBlock(ds, i, updateTime);
    ApplyAllSnoc(st, pre, dev);
    ApplyAllAppend(st, pre + [dev], si[..n]);
    if failed {
      BeforeStatus(ds, i, n, updateTime);
      WriteFailsAfter(st, ds, updateTime, pre + [dev] + si[..n]);
    } else {
      assert si[..n] == si;
    }
  }

  /** Up to status `j` of device `i`, the statements run so far begin the plan, with more to come. */
  lemma BeforeStatus(ds: seq<Device>, i: nat, j: nat, updateTime: nat)
    requires i < |ds| && j < |ds[i].status|
    ensures var q := Plan(ds[..i], updateTime) + [InsertDevice(RowOf(ds[i]))] + StatusInserts(ds[i], updateTime)[..j];
      |q| < |Plan(ds, updateTime)| && Plan(ds, updateTime)[..|q|] == q
  {
    DeviceBlock(ds, i, updateTime);
    var si := StatusInserts(ds[i], updateTime);
    var q := Plan(ds[..i], updateTime) + [InsertDevice(RowOf(ds[i]))] + si[..j];
    assert q <= Plan(ds[..i + 1], updateTime) by {
      assert si[..j] <= si;
    }
  }

  /** A write whose first `|q|` statements succeed and the next fails leaves the store after `q`. */
  lemma WriteFailsAfter(st: Store, ds: seq<Device>, updateTime: nat, q: seq<Stmt>)
    requires |q| < |Plan(ds, updateTime)| && Plan(ds, updateTime)[..|q|] == q
    ensures Write(st, ds, updateTime, StatementFails(|q|)) == WriteResult(ApplyAll(st, q), Failed(StatementFailed(|q|)))
  {
  }

  /** A write no statement of which fails runs the whole plan. */
  lemma WriteRunsThrough(st: Store, ds: seq<Device>, updateTime: nat, fault: DbFault)
    requires !fault.ConnectFails?
    requires fault.StatementFails? ==> |Plan(ds, updateTime)| <= fault.index
    ensures Write(st, ds, updateTime, fault) == WriteResult(ApplyAll(st, Plan(ds, updateTime)), Written)
  {
  }
}
