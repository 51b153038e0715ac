/**
  The poll loop of `Home` (src/main.rs lines 44-150 and 162-194) as a pure step function.

  One cycle of `Home::run` reads the renewal clock, parses the token's `expires_in`, maybe
  renews the token, fetches the device list, logs the temperatures and writes the list to
  the database. Everything it learns from outside (clock readings, HTTP replies, what the
  database does) is an input of the step; everything it changes is in its result.
 */
module HomeLoop {
  import opened Wrappers
  import opened Ally
  import opened DecimalParse
  import opened Persistence
  import opened Readings

  /** Clock readings are nanoseconds on a monotonic clock (Rust's `Instant`). */
  const NanosPerSecond: nat := 1_000_000_000

  /** The loop's in-memory state; `renewedAt` is the clock reading of the last renewal attempt. */
  datatype Home = Home(devices: seq<Device>, token: Token, renewedAt: nat)

  /** What one cycle learns from outside. */
  datatype CycleInputs = CycleInputs(
    checkClock: nat,                                  // clock when the renewal test runs
    tokenReply: Result<Token, CallError>,             // the token endpoint, if it is called
    resetClock: nat,                                  // clock when the renewal clock is reset
    devicesReply: Result<DevicesResponse, CallError>, // the devices endpoint
    writeTime: nat,                                   // the timestamp the write stamps its status rows with
    dbFault: DbFault)                                 // what the database does to the write

  /** What one cycle did, as far as an observer of its calls and its log could tell. */
  datatype Report = Report(
    renewalAttempted: bool,
    tokenError: Option<CallError>,
    bearer: string,
    devicesError: Option<CallError>,
    readings: seq<Reading>,
    handedToWriter: seq<Device>,
    written: Outcome)

  /** A cycle either ends the loop with the `expires_in` it could not parse, or leads to the next. */
  datatype CycleResult = Exited(badExpiry: string) | Continued(home: Home, store: Store, report: Report)

  /** `Instant::elapsed().as_secs()`: whole seconds, and zero if the clock reads earlier. */
  function ElapsedSeconds(since: nat, now: nat): (r: nat)
    ensures now <= since ==> r == 0
    ensures since < now ==> r * NanosPerSecond <= now - since < (r + 1) * NanosPerSecond
  {
    if now <= since then 0 else (now - since) / NanosPerSecond
  }

  /** `Home::new`: no devices, an empty token whose lifetime reads "0", the renewal clock started now. */
  function NewHome(clock: nat): (h: Home)
    ensures ParseU64(h.token.expiresIn) == Some(0)
  {
    Home([], Token("", "", "0"), clock)
  }

  /** The state assignment of `get_token`: the token is replaced only by a reply that decoded. */
  function GetToken(h: Home, reply: Result<Token, CallError>): (r: Home)
    ensures r.token == (if reply.Ok? then reply.value else h.token)
    ensures r.devices == h.devices && r.renewedAt == h.renewedAt
  {
    if reply.Ok? then h.(token := reply.value) else h
  }

  /** The state assignment of `get_devices`: the list is replaced by the envelope's `result` only. */
  function GetDevices(h: Home, reply: Result<DevicesResponse, CallError>): (r: Home)
    ensures r.devices == (if reply.Ok? then reply.value.result else h.devices)
    ensures r.token == h.token && r.renewedAt == h.renewedAt
  {
    if reply.Ok? then h.(devices := reply.value.result) else h
  }

  /** One pass through the body of the loop in `Home::run`. */
  function Cycle(h: Home, st: Store, io: CycleInputs): (r: CycleResult)
    ensures r.Exited? <==> ParseU64(h.token.expiresIn).None?
    ensures r.Exited? ==> r.badExpiry == h.token.expiresIn
    ensures r.Continued? ==>
      (r.report.renewalAttempted <==> ElapsedSeconds(h.renewedAt, io.checkClock) >= ParseU64(h.token.expiresIn).value)
    ensures r.Continued? ==>
      r.home.renewedAt == (if r.report.renewalAttempted then io.resetClock else h.renewedAt)
    ensures r.Continued? ==>
      r.home.token == (if r.report.renewalAttempted && io.tokenReply.Ok? then io.tokenReply.value else h.token)
    ensures r.Continued? ==> r.report.bearer == r.home.token.accessToken
    ensures r.Continued? ==>
      r.report.tokenError == (if r.report.renewalAttempted && io.tokenReply.Err? then Some(io.tokenReply.error) else None)
    ensures r.Continued? ==>
      r.report.devicesError == (if io.devicesReply.Err? then Some(io.devicesReply.error) else None)
    ensures r.Continued? ==>
      r.home.devices == (if io.devicesReply.Ok? then io.devicesReply.value.result else h.devices)
    ensures r.Continued? ==>
      && r.report.handedToWriter == r.home.devices
      && r.report.readings == TemperatureReadings(r.home.devices)
      && WriteResult(r.store, r.report.written) == Write(st, r.home.devices, io.writeTime, io.dbFault)
  {
    match ParseU64(h.token.expiresIn)
    case None => Exited(h.token.expiresIn)
    case Some(lifetime) =>
      var due := ElapsedSeconds(h.renewedAt, io.checkClock) >= lifetime;
      var renewed := if due then GetToken(h, io.tokenReply).(renewedAt := io.resetClock) else h;
      var fetched := GetDevices(renewed, io.devicesReply);
      var w := Write(st, fetched.devices, io.writeTime, io.dbFault);
      var report := Report(
        due,
        if due && io.tokenReply.Err? then Some(io.tokenReply.error) else None,
        renewed.token.accessToken,
        if io.devicesReply.Err? then Some(io.devicesReply.error) else None,
        TemperatureReadings(fetched.devices),
        fetched.devices,
        w.outcome);
      Continued(fetched, w.store, report)
  }

  /** Where a run of cycles got to: stopped in cycle number `cycles` (from 0), or still running. */
  datatype RunResult =
    | Stopped(cycles: nat, badExpiry: string, home: Home, store: Store)
    | Running(home: Home, store: Store)

  /** `Home::run` over a finite sequence of cycles. */
  function Run(h: Home, st: Store, ios: seq<CycleInputs>): (r: RunResult)
    ensures r.Stopped? ==>
      && r.cycles < |ios|
      && ParseU64(r.home.token.expiresIn).None?
      && r.badExpiry == r.home.token.expiresIn
    decreases |ios|
  {
    if |ios| == 0 then Running(h, st)
    else
      match Cycle(h, st, ios[0])
      case Exited(bad) => Stopped(0, bad, h, st)
      case Continued(h', st', _) =>
        match Run(h', st', ios[1..])
        case Stopped(k, bad, hk, sk) => Stopped(k + 1, bad, hk, sk)
        case Running(hn, sn) => Running(hn, sn)
  }

  // ---------------------------------------------------------------------------
  // Renewal timing
  // ---------------------------------------------------------------------------

  /** With the clock running forward, renewal is due exactly once `lifetime` whole seconds have passed. */
  lemma DueIff(since: nat, now: nat, lifetime: nat)
    requires since <= now
    ensures ElapsedSeconds(since, now) >= lifetime <==> now >= since + lifetime * NanosPerSecond
  {
    if now > since {
      var q := (now - since) / NanosPerSecond;
      assert now - since == q * NanosPerSecond + (now - since) % NanosPerSecond;
      if q >= lifetime {
        assert q * NanosPerSecond >= lifetime * NanosPerSecond;
      } else {
        assert q + 1 <= lifetime;
        assert (q + 1) * NanosPerSecond <= lifetime * NanosPerSecond;
      }
    }
  }

  /** The first cycle after start-up always asks for a token, whatever the clocks read. */
  lemma FirstCycleRenews(clock: nat, st: Store, io: CycleInputs)
    ensures Cycle(NewHome(clock), st, io).Continued?
    ensures Cycle(NewHome(clock), st, io).report.renewalAttempted
  {
  }

  /**
    After a renewal that brought a token with a numeric lifetime, the next cycle renews
    again exactly when that many seconds have passed since the renewal clock was reset.
   */
  lemma RenewsOnlyWhenExpired(h: Home, st: Store, io: CycleInputs, st': Store, io': CycleInputs)
    requires Cycle(h, st, io).Continued? && Cycle(h, st, io).report.renewalAttempted
    requires io.tokenReply.Ok? && ParseU64(io.tokenReply.value.expiresIn).Some?
    requires io.resetClock <= io'.checkClock
    ensures var next := Cycle(Cycle(h, st, io).home, st', io');
      && next.Continued?
      && (next.report.renewalAttempted
          <==> io'.checkClock >= io.resetClock + ParseU64(io.tokenReply.value.expiresIn).value * NanosPerSecond)
  {
    DueIff(io.resetClock, io'.checkClock, ParseU64(io.tokenReply.value.expiresIn).value);
  }

  /**
    A failed renewal still resets the renewal clock: the next cycle keeps the old token,
    presents it to the devices endpoint, and does not try again until the old lifetime has
    passed once more.
   */
  lemma FailedRenewalWaitsFullLifetime(h: Home, st: Store, io: CycleInputs, st': Store, io': CycleInputs)
    requires Cycle(h, st, io).Continued? && Cycle(h, st, io).report.renewalAttempted
    requires io.tokenReply.Err?
    requires io.resetClock <= io'.checkClock
    ensures Cycle(h, st, io).home.token == h.token
    ensures Cycle(h, st, io).report.bearer == h.token.accessToken
    ensures Cycle(h, st, io).report.tokenError == Some(io.tokenReply.error)
    ensures var next := Cycle(Cycle(h, st, io).home, st', io');
      && next.Continued?
      && (next.report.renewalAttempted
          <==> io'.checkClock >= io.resetClock + ParseU64(h.token.expiresIn).value * NanosPerSecond)
  {
    DueIff(io.resetClock, io'.checkClock, ParseU64(h.token.expiresIn).value);
  }

  /** A renewal that brings a token with an unparsable lifetime ends the loop on the following cycle. */
  lemma BadLifetimeEndsNextCycle(h: Home, st: Store, io: CycleInputs, st': Store, io': CycleInputs)
    requires Cycle(h, st, io).Continued? && Cycle(h, st, io).report.renewalAttempted
    requires io.tokenReply.Ok? && ParseU64(io.tokenReply.value.expiresIn).None?
    ensures Cycle(Cycle(h, st, io).home, st', io') == Exited(io.tokenReply.value.expiresIn)
  {
  }

  // ---------------------------------------------------------------------------
  // Fetch and write
  // ---------------------------------------------------------------------------

  /**
    A failed fetch leaves the old list in place, and that stale list is logged and written
    again: a complete write appends its status rows once more.
   */
  lemma FailedFetchRewritesStaleList(h: Home, st: Store, io: CycleInputs)
    requires ParseU64(h.token.expiresIn).Some?
    requires io.devicesReply.Err?
    ensures var r := Cycle(h, st, io);
      && r.Continued?
      && r.home.devices == h.devices
      && r.report.handedToWriter == h.devices
      && r.report.readings == TemperatureReadings(h.devices)
      && (r.report.written.Written? ==> r.store.statuses == st.statuses + AllStatusRows(h.devices, io.writeTime))
  {
    WriteComplete(st, h.devices, io.writeTime, io.dbFault);
  }

  /** What the database does to the write changes the store, never the in-memory state or the calls made. */
  lemma WriteFaultInvisibleInMemory(h: Home, st: Store, io: CycleInputs, fault: DbFault)
    requires ParseU64(h.token.expiresIn).Some?
    ensures var a := Cycle(h, st, io);
      var b := Cycle(h, st, io.(dbFault := fault));
      && a.home == b.home
      && a.report.(written := Written) == b.report.(written := Written)
  {
  }

  /** A cycle never leaves a status row without its device row, even when the write stops part-way. */
  lemma CycleKeepsStoreConsistent(h: Home, st: Store, io: CycleInputs)
    requires Consistent(st)
    ensures Cycle(h, st, io).Continued? ==> Consistent(Cycle(h, st, io).store)
  {
    if ParseU64(h.token.expiresIn).Some? {
      var r := Cycle(h, st, io);
      WriteKeepsConsistent(st, r.home.devices, io.writeTime, io.dbFault);
    }
  }

  // ---------------------------------------------------------------------------
  // Whole runs
  // ---------------------------------------------------------------------------

  /**
    Every token reply offered to these cycles, whether or not the cycle asks for it, has a
    lifetime that parses.
   */
  predicate NumericReplies(ios: seq<CycleInputs>) {
    forall k :: 0 <= k < |ios| && ios[k].tokenReply.Ok? ==> ParseU64(ios[k].tokenReply.value.expiresIn).Some?
  }

  /**
    No failure of the token call, the fetch or the write ends the loop: as long as every
    token reply offered to the run has a numeric lifetime, the loop keeps running.
   */
  lemma {:induction false} RunKeepsGoing(h: Home, st: Store, ios: seq<CycleInputs>)
    requires ParseU64(h.token.expiresIn).Some?
    requires NumericReplies(ios)
    ensures Run(h, st, ios).Running?
    decreases |ios|
  {
    if |ios| > 0 {
      var r := Cycle(h, st, ios[0]);
      assert NumericReplies(ios[1..]) by {
        forall k | 0 <= k < |ios[1..]| && ios[1..][k].tokenReply.Ok?
          ensures ParseU64(ios[1..][k].tokenReply.value.expiresIn).Some?
        {
          assert ios[1..][k] == ios[k + 1];
        }
      }
      assert ios[0].tokenReply.Ok? ==> ParseU64(ios[0].tokenReply.value.expiresIn).Some?;
      RunKeepsGoing(r.home, r.store, ios[1..]);
    }
  }

  /**
    A run that starts with a parsable lifetime stops only in a cycle `c > 0`, right after a
    cycle `c - 1` that was offered a decoded token reply whose `expires_in` does not parse;
    the run stops on that string.
   */
  lemma {:induction false} StopFollowsBadToken(h: Home, st: Store, ios: seq<CycleInputs>)
    requires ParseU64(h.token.expiresIn).Some?
    ensures var r := Run(h, st, ios);
      r.Stopped? ==>
        && 0 < r.cycles < |ios|
        && ios[r.cycles - 1].tokenReply.Ok?
        && ParseU64(ios[r.cycles - 1].tokenReply.value.expiresIn).None?
        && r.badExpiry == ios[r.cycles - 1].tokenReply.value.expiresIn
    decreases |ios|
  {
    if |ios| > 0 && Run(h, st, ios).Stopped? {
      StopAfterStep(h, st, ios);
      var c := Cycle(h, st, ios[0]);
      var rest := Run(c.home, c.store, ios[1..]);
      if ParseU64(c.home.token.expiresIn).Some? {
        StopFollowsBadToken(c.home, c.store, ios[1..]);
        assert ios[1..][rest.cycles - 1] == ios[rest.cycles];
      } else {
        BadTokenAccepted(h, st, ios[0]);
        StopsAtOnce(c.home, c.store, ios[1..]);
      }
    }
  }

  /** A stop of a run whose first cycle continues is the stop of the rest, one cycle later. */
  lemma StopAfterStep(h: Home, st: Store, ios: seq<CycleInputs>)
    requires ParseU64(h.token.expiresIn).Some? && |ios| > 0 && Run(h, st, ios).Stopped?
    ensures Cycle(h, st, ios[0]).Continued?
    ensures var c := Cycle(h, st, ios[0]);
      var rest := Run(c.home, c.store, ios[1..]);
      && rest.Stopped?
      && Run(h, st, ios).cycles == rest.cycles + 1
      && Run(h, st, ios).badExpiry == rest.badExpiry
  {
  }

  /** A token held after a cycle that does not parse, when the one before did, is the reply just accepted. */
  lemma BadTokenAccepted(h: Home, st: Store, io: CycleInputs)
    requires ParseU64(h.token.expiresIn).Some?
    requires Cycle(h, st, io).Continued? && ParseU64(Cycle(h, st, io).home.token.expiresIn).None?
    ensures io.tokenReply.Ok? && Cycle(h, st, io).home.token == io.tokenReply.value
  {
  }

  /** A run from a state whose lifetime does not parse stops in its first cycle. */
  lemma StopsAtOnce(h: Home, st: Store, ios: seq<CycleInputs>)
    requires ParseU64(h.token.expiresIn).None? && |ios| > 0
    ensures Run(h, st, ios) == Stopped(0, h.token.expiresIn, h, st)
  {
  }

  /**
    From start-up the loop runs as long as every token reply offered to it has a numeric
    lifetime, and when it stops, the cycle before was offered a decoded token whose lifetime does
    not parse.
   */
  lemma FromStartKeepsGoing(clock: nat, st: Store, ios: seq<CycleInputs>)
    ensures NumericReplies(ios) ==> Run(NewHome(clock), st, ios).Running?
    ensures var r := Run(NewHome(clock), st, ios);
      r.Stopped? ==>
        && 0 < r.cycles
        && ios[r.cycles - 1].tokenReply.Ok?
        && ParseU64(ios[r.cycles - 1].tokenReply.value.expiresIn).None?
  {
    var h := NewHome(clock);
    if NumericReplies(ios) {
      RunKeepsGoing(h, st, ios);
    }
    StopFollowsBadToken(h, st, ios);
  }

  /** A run keeps a consistent store consistent, whichever writes fail. */
  lemma {:induction false} RunKeepsStoreConsistent(h: Home, st: Store, ios: seq<CycleInputs>)
    requires Consistent(st)
    ensures Consistent(Run(h, st, ios).store)
    decreases |ios|
  {
    if |ios| > 0 {
      var r := Cycle(h, st, ios[0]);
      CycleKeepsStoreConsistent(h, st, ios[0]);
      if r.Continued? {
        RunKeepsStoreConsistent(r.home, r.store, ios[1..]);
      }
    }
  }

  // ---------------------------------------------------------------------------
  // A worked example: one thermostat, two cycles
  // ---------------------------------------------------------------------------

  function Thermostat(): Device {
    Device(1, 1, "d1", "Living Room", true, [Status("temp_current", "21.5")], false, "UTC", 1, "thermostat")
  }

  function ExampleInputs(checkClock: nat, writeTime: nat): CycleInputs {
    CycleInputs(
      checkClock,
      Ok(Token("abc", "Bearer", "3600")),
      checkClock + 1,
      Ok(DevicesResponse([Thermostat()], 1)),
      writeTime,
      NoFault)
  }

  /** The example's first cycle from start-up and an empty store. */
  lemma ExampleFirstCycle()
    ensures var c1 := Cycle(NewHome(0), Store(map[], []), ExampleInputs(30 * NanosPerSecond, 100));
      && c1.Continued?
      && c1.home == Home([Thermostat()], Token("abc", "Bearer", "3600"), 30 * NanosPerSecond + 1)
      && c1.report.renewalAttempted
      && c1.report.bearer == "abc"
      && c1.report.readings == [Reading("Living Room", "21.5")]
      && c1.store == Write(Store(map[], []), [Thermostat()], 100, NoFault).store
  {
    var c1 := Cycle(NewHome(0), Store(map[], []), ExampleInputs(30 * NanosPerSecond, 100));
    assert c1.Continued? && c1.report.renewalAttempted;
    assert c1.home.devices == [Thermostat()];
    ReadingsOfOne("Living Room", Status("temp_current", "21.5"), Thermostat());
    assert TemperatureReadings([Thermostat()]) == [Reading("Living Room", "21.5")];
  }

  /** The store the example's writes leave: device "d1" once, its reading once per write. */
  lemma ExampleWrites()
    ensures var st0 := Store(map[], []);
      var w1 := Write(st0, [Thermostat()], 100, NoFault).store;
      var w2 := Write(w1, [Thermostat()], 200, NoFault).store;
      && w1.devices.Keys == {"d1"}
      && w1.statuses == [StatusRow("temp_current", "21.5", "d1", 100)]
      && w2.devices == w1.devices
      && w2.statuses == [StatusRow("temp_current", "21.5", "d1", 100), StatusRow("temp_current", "21.5", "d1", 200)]
  {
    var ds := [Thermostat()];
    assert [] + [Thermostat()] + [] == ds;
    StatusRowsByDevice([], Thermostat(), [], 100);
    StatusRowsByDevice([], Thermostat(), [], 200);
    assert Ids(ds) == {"d1"} by {
      assert ds[0].id == "d1";
    }
    WriteComplete(Store(map[], []), ds, 100, NoFault);
    WriteTwice(Store(map[], []), ds, 100, 200);
  }

  /**
    Starting from an empty store, one cycle leaves one device row "d1" and one status row
    for its current temperature; a second identical cycle 30 seconds later does not renew
    the token, adds no device row, and adds a second status row.
   */
  lemma TwoCyclesExample()
    ensures var st0 := Store(map[], []);
      var c1 := Cycle(NewHome(0), st0, ExampleInputs(30 * NanosPerSecond, 100));
      && c1.Continued?
      && c1.report.renewalAttempted
      && c1.report.bearer == "abc"
      && c1.report.readings == [Reading("Living Room", "21.5")]
      && c1.store.devices.Keys == {"d1"}
      && c1.store.statuses == [StatusRow("temp_current", "21.5", "d1", 100)]
      && var c2 := Cycle(c1.home, c1.store, ExampleInputs(60 * NanosPerSecond, 200));
      && c2.Continued?
      && !c2.report.renewalAttempted
      && c2.store.devices == c1.store.devices
      && c2.store.statuses
         == [StatusRow("temp_current", "21.5", "d1", 100), StatusRow("temp_current", "21.5", "d1", 200)]
  {
    ExampleFirstCycle();
    ExampleWrites();
    assert ParseU64("3600") == Some(3600) by {
      ParseExamples();
    }
    assert ElapsedSeconds(30 * NanosPerSecond + 1, 60 * NanosPerSecond) == 29;
  }
}
