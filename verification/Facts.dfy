/** What the probes collected: internal/facts. Columns no rule or view below reads are left out. */
module Facts {
  import opened Wrappers

  datatype Status = StatusOK | Skipped | Error | NotApplicable

  datatype Probe<Row> = Probe(status: Status, rows: seq<Row>)

  type int64 = x: int | -0x8000_0000_0000_0000 <= x < 0x8000_0000_0000_0000
  type int32 = x: int | -0x8000_0000 <= x < 0x8000_0000
  type uint32 = x: int | 0 <= x < 0x1_0000_0000

  /** One row of session.activity. */
  datatype Session = Session(
    pid: int32,
    state: Option<string>,
    xactAge: Option<real>,
    stateAge: Option<real>,
    query: Option<string>)
  {
    /** The server hid the details of this session. */
    predicate Masked() { query == Some("<insufficient privilege>") }

    /** The session does not report its activity. */
    predicate Untracked() { state == Some("disabled") }

    predicate Hidden() { Masked() || Untracked() }
  }

  /** One row of txn.prepared. */
  datatype Prepared = Prepared(gid: string, age: real)

  /** One row of lock.list. A prepared transaction's lock has no pid, and blocks as pid 0. */
  datatype Lock = Lock(
    pid: Option<int32>,
    locktype: string,
    relation: Option<string>,
    mode: string,
    granted: bool,
    wait: Option<real>,
    blockedBy: seq<int32>)

  const PREPARED_BLOCKER: int32 := 0

  datatype FrozenDatabase = FrozenDatabase(datname: string, xidAge: int32, mxidAge: int32)

  datatype FreezeLimit = FreezeLimit(freezeMaxAge: int64, multiFreezeMaxAge: int64)

  /** The ages at which the server refuses new transaction ids and multixacts. */
  const XID_STOP_AGE := 0x7FFF_FFFF - 1_000_000
  const MXID_STOP_AGE := 0x7FFF_FFFF - 100

  /** One row of seq.list. */
  datatype Sequence = Sequence(
    schema: string,
    name: string,
    start: int64,
    min: int64,
    max: int64,
    increment: int64,
    cycle: bool,
    last: Option<int64>,
    readable: bool)

  datatype Role = Primary | Standby
}
