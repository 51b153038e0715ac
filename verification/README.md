# home-temp poll loop in Dafny

This project models the decision-making core of `home-temp`, an agent that polls the
Danfoss Ally cloud API for thermostat devices and stores what it sees in Postgres. The core
is the `Home` controller in `src/main.rs`:

- **the poll cycle** (`Home::run`): test whether the OAuth2 token is due for renewal by
  comparing whole seconds since the last renewal attempt with the token's `expires_in` string parsed
  as a `u64`; maybe call the token endpoint; fetch the device list; log temperatures; write
  the list to the database. Every outside influence (clock readings, the token and device
  replies, what the database does to the write) is an input of the pure step function
  `HomeLoop.Cycle`; `HomeLoop.Run` strings cycles together;
- **the write** (`Home::write_to_pg`) over an abstract store: a map of device rows keyed by
  id and an append-only sequence of status rows. A write is a fixed plan of statements (per
  device, in list order: a conflict-ignoring device insert, then one status insert per status
  entry), run until the first failing statement, with no rollback;
- **the temperature log** (`Home::print_room_temperatures`): the (device name, value) pairs
  of the status entries coded `va_temperature` or `temp_current`.

Files: `wrappers.dfy` (Option, Result), `decimal.dfy` (Rust's `u64` parser), `ally.dfy`
(API records), `persistence.dfy` (the write), `readings.dfy` (the log), `home.dfy` (the loop).

## Where the code differs from what a reader might expect

The model follows the code in each case.

- One might expect the renewal clock to be reset only when a token request succeeds. The
  code resets it after every attempt, failed or not (src/main.rs:136-139). After a failure
  the next attempt therefore waits a full lifetime of the old token, and the stale token is
  presented to the devices endpoint meanwhile.
- One might expect a failed fetch to skip the logging and the write of that cycle. The code
  goes on with the previous device list (src/main.rs:141-148): it is logged again and
  written again, so its status entries are appended as new rows once more.
- One might expect a polling agent never to leave its loop. The code's `run` returns, and
  the process ends, when `expires_in` does not parse as a `u64` (src/main.rs:134 and 203).
  Any decoded token reply is accepted whatever its `expires_in` says, so such a token ends
  the loop on the cycle after it arrives.
- One might expect a rejected bearer token to be handled as its own case. It is not: the
  error body fails to decode as a device envelope, so it is modelled as `CallError.Decode`.

## Model

| member | source | states |
|---|---|---|
| DecimalParse.ParseU64 | src/main.rs:133-134 | `expires_in` parses exactly when, after one optional leading '+', it is a non-empty run of decimal digits whose value fits in 64 bits, and the result is that value |
| DecimalParse.ParseDecimalRoundTrip | src/main.rs:134 | every `u64` written in decimal, with or without a '+', parses back to itself |
| DecimalParse.OverflowRejected | src/main.rs:134 | a lifetime of 2^64 seconds or more is an error, not a wrapped value |
| DecimalParse.NegativeRejected | src/main.rs:134 | a leading '-' is always an error for the unsigned parser |
| DecimalParse.ParseExamples | src/main.rs:134 | "0" and "3600" parse; "", "+" and "36s" do not |
| HomeLoop.NewHome | src/main.rs:72-88 | the initial state holds a token whose lifetime parses as 0 |
| HomeLoop.ElapsedSeconds | src/main.rs:133 | `elapsed().as_secs()` is the number of whole seconds between the reset and the reading, truncated, and 0 when the clock reads no later than the reset |
| HomeLoop.GetToken | src/main.rs:177 | the token is replaced by a decoded reply and kept on an error; the device list and the renewal clock are untouched |
| HomeLoop.GetDevices | src/main.rs:191-192 | a decoded envelope's `result` replaces the device list wholesale, its `t` ignored; on an error the list is kept; token and clock are untouched |
| HomeLoop.Cycle | src/main.rs:130-150 | one cycle exits iff `expires_in` does not parse; otherwise it renews iff whole elapsed seconds reach the lifetime, resets the clock whenever it renews, replaces the token only with a decoded reply, replaces the device list only with a decoded envelope's `result`, and hands the current list to both the logger and the writer |
| HomeLoop.Run | src/main.rs:130-150 | a run of cycles stops only in a cycle whose token lifetime does not parse; the result carries the string whose parse failed |
| HomeLoop.DueIff | src/main.rs:133-135 | with the clock running forward, renewal is due exactly when `lifetime` seconds' worth of clock has passed since the last reset |
| HomeLoop.FirstCycleRenews | src/main.rs:74-78 | the first cycle after start-up always requests a token, whatever the clocks read |
| HomeLoop.RenewsOnlyWhenExpired | src/main.rs:133-139 | after a successful renewal, the next cycle renews again iff the new token's lifetime has passed since the reset, and never exits |
| HomeLoop.FailedRenewalWaitsFullLifetime | src/main.rs:136-139 | after a failed renewal the old token is kept and presented to the devices endpoint, the error is reported, and the next retry waits a full old lifetime from the reset |
| HomeLoop.BadLifetimeEndsNextCycle | src/main.rs:177 | a decoded token whose `expires_in` does not parse is accepted, and the next cycle exits with that string whatever happens in it |
| HomeLoop.FailedFetchRewritesStaleList | src/main.rs:141-148 | after a failed fetch the old list is kept, logged and written, and a complete write appends its status rows again |
| HomeLoop.WriteFaultInvisibleInMemory | src/main.rs:146-148 | a database failure changes neither the in-memory state nor any call of the cycle other than the write outcome |
| HomeLoop.CycleKeepsStoreConsistent | src/main.rs:113-125 | after any cycle, every status row still has its device row |
| HomeLoop.RunKeepsGoing | src/main.rs:130-150 | token, fetch and write failures never end the loop: while the current lifetime parses and every token reply offered to the run has a numeric lifetime, the run keeps going |
| HomeLoop.FromStartKeepsGoing | src/main.rs:202-203 | from start-up, the loop keeps going when every token reply offered has a numeric lifetime, and when it stops, the cycle before it was offered a decoded token reply whose lifetime does not parse |
| HomeLoop.StopFollowsBadToken | src/main.rs:133-139 | a run that starts with a parsable lifetime stops only in a cycle c > 0, right after cycle c - 1 was offered a decoded token reply whose `expires_in` does not parse, and stops on that very string |
| HomeLoop.RunKeepsStoreConsistent | src/main.rs:146-148 | any number of cycles, with any write failures, keep the store referentially consistent |
| HomeLoop.TwoCyclesExample | src/main.rs:130-150 | one thermostat fetched twice from an empty store: one device row, one then two status rows, a token request only in the first cycle, and one logged reading |
| Persistence.Write | src/main.rs:91-128 | a write is its plan, one statement per device and per status entry, run up to the first failing statement: it completes iff neither the connection nor any of those statements fails, reports the failure that happened, and keeps everything that ran |
| Persistence.WriteToPg | src/main.rs:113-127 | the source's nested loop, run against the database's failure, gives exactly the store and outcome of running the statement plan up to the first failing statement |
| Persistence.InsertStatuses | src/main.rs:118-125 | the inner loop appends the device's status rows in order and stops exactly at the failing statement, reporting how many ran |
| Persistence.Apply | src/main.rs:114-124 | a device insert adds the row only when its id is absent and never changes an existing row or the status rows; a status insert appends exactly its row and leaves device rows alone |
| Persistence.WriteComplete | src/main.rs:112-127 | a write completes iff no statement of its plan fails; then it adds a row for each absent id (from the first device with that id), leaves existing device rows alone, and appends one status row per status entry |
| Persistence.InsertAbsentCharacterized | src/main.rs:114-117 | inserting devices one by one with ON CONFLICT DO NOTHING adds exactly the absent ids, first occurrence winning, and changes no existing row |
| Persistence.StatusRowsTagged | src/main.rs:112-125 | every appended status row carries the single timestamp of the write and the id of a device in the written list |
| Persistence.StatusRowsByDevice | src/main.rs:113-125 | status rows come device by device in list order, and device d's k-th row holds its k-th status entry's code and value under d's own id |
| Persistence.AllStatusRowsConcat | src/main.rs:113-125 | the status rows written for two lists back to back are the two lists' rows back to back |
| Persistence.WriteFailureKeepsPrefix | src/main.rs:92-127 | a failed write only adds to the store and holds no more than a complete write would: its status rows are a prefix of the complete write's, its device rows a subset; a connection failure writes nothing |
| Persistence.FailureKeepsEarlierWrites | src/main.rs:113-127 | for every device i, with or without status entries, a failure at its insert leaves exactly the complete write of the devices before i; a failure at its j-th status insert leaves that plus device i's row (if its id was absent) plus its first j status rows |
| Persistence.PlanOwnersFirst | src/main.rs:113-125 | every status insert comes after the insert of its owning device |
| Persistence.WriteKeepsConsistent | src/main.rs:113-125 | however a write ends, no status row lacks its device row and every device row sits under its own id |
| Persistence.WriteTwice | src/main.rs:113-125 | writing the same list twice gives one device row per distinct id, unchanged by the second write, and twice the status rows |
| Readings.StatusReadings | src/main.rs:154-158 | a device's logged readings are exactly its temperature-coded status entries, and none when it has no such entry |
| Readings.TemperatureReadings | src/main.rs:152-160 | a reading is logged iff some device has a status entry coded `va_temperature` or `temp_current` with that name and value |
| Readings.ReadingsConcat | src/main.rs:153-159 | readings follow device order: the log of two lists back to back is their two logs back to back |
| Readings.StatusReadingsConcat | src/main.rs:154-158 | one line per matching entry in status order: the readings of two status lists back to back are their readings back to back |
| Readings.ReadingsOfOne | src/main.rs:153-157 | one status entry logs one line exactly when its code is a temperature code, and one device logs exactly its own status readings under its name |
| Readings.SilentDevice | src/main.rs:155-157 | a device without a temperature-coded entry adds nothing to the log |

## Left out

- HTTP: the token and devices requests, their headers and URLs, and the base64 Basic-auth
  header (src/main.rs:162-190) are network and library calls. Their results are inputs:
  a decoded `Token` or `DevicesResponse`, or a `CallError`.
- JSON decoding, and the rendering of a status `value` with `to_string`, belong to a foreign
  library and include floating point. A status value is the rendered text, treated as opaque.
- The Postgres connection, the spawned connection task and the SQL text (src/main.rs:92-111)
  are I/O and concurrency. Only the store effects remain, with the database's behaviour as a
  `DbFault` input.
- The status row key `device id + "_" + Utc::now()` (src/main.rs:119) is not modelled. Nothing
  makes it unique. A key clash would surface as a failing statement, which `DbFault` covers.
- Real time: the 30-second `sleep`, `Instant::now`, `SystemTime::now` and `Utc::now`. Clock
  readings and the write timestamp are inputs. Consecutive cycles' clocks are related only
  where a lemma says so.
- `time_since_update` (src/main.rs:144) is written and never read.
- Environment variables, their defaults and the panics when a key is missing
  (src/main.rs:61-70); logger set-up; the wasm `main`. Log output itself is not produced:
  the `Report` of a cycle records what the cycle would log.
- HomeLoop.Run: an exit carries the `expires_in` string whose parse failed. The source's `run`
  returns a `ParseIntError` instead, whose kind (empty, invalid digit, overflow) `main` passes
  on (src/main.rs:134, 203). `DecimalParse.ParseU64` likewise reports only that parsing failed,
  not which kind of failure; the kind is determined by the string, which the model keeps.
- The envelope's server timestamp `t` is carried but never used, as in the source.
