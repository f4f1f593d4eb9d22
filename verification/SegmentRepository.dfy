/**
 The `leaf_alloc` table. Handing out a range is one atomic statement on the row of the tag:
 advance `max_id` by the step and return the new value.

 What the database does at the k-th statement on a tag is a parameter: which step it finds in the
 row (an administrator may change it between statements) and whether the reply gets through.
 */
module SegmentRepository {
  import opened Wrappers
  import opened SegmentDomain

  datatype Row = Row(maxId: int, version: nat)

  datatype LoadReply =
    | Applied(step: int)          // committed, and the caller sees the new row
    | AppliedButLost(step: int)   // committed, but the caller sees an error
    | Refused                     // failed without any effect

  type Database = (string, nat) -> LoadReply

  /** By how much a statement moves `max_id`. */
  function StepOf(reply: LoadReply): int {
    match reply
    case Applied(step) => step
    case AppliedButLost(step) => step
    case Refused => 0
  }

  function Advance(row: Row, step: int): Row { Row(row.maxId + step, row.version + 1) }

  function LoadRow(bizTag: string, row: Option<Row>, reply: LoadReply)
    : (Option<Row>, Result<SegmentAllocation, Error>)
  {
    match row
    case None => (None, Err(BizTagNotExists))
    case Some(r) =>
      match reply
      case Applied(step) =>
        (Some(Advance(r, step)), Ok(SegmentAllocation(bizTag, r.maxId + step, step)))
      case AppliedButLost(step) => (Some(Advance(r, step)), Err(LoadFailed))
      case Refused => (row, Err(LoadFailed))
  }

  class Repository {
    const database: Database
    var rows: map<string, Row>
    var calls: map<string, nat>   // load statements issued so far, by tag

    constructor (database: Database, rows: map<string, Row>)
      ensures this.database == database && this.rows == rows && calls == map[]
    {
      this.database, this.rows, calls := database, rows, map[];
    }

    function RowOf(bizTag: string): Option<Row>
      reads this
    {
      if bizTag in rows then Some(rows[bizTag]) else None
    }

    function CallsOf(bizTag: string): nat
      reads this
    {
      if bizTag in calls then calls[bizTag] else 0
    }

    method LoadSegmentRange(bizTag: string) returns (r: Result<SegmentAllocation, Error>)
      modifies this
      ensures (RowOf(bizTag), r) == LoadRow(bizTag, old(RowOf(bizTag)), database(bizTag, old(CallsOf(bizTag))))
      ensures CallsOf(bizTag) == old(CallsOf(bizTag)) + 1
      ensures forall t :: t != bizTag ==> RowOf(t) == old(RowOf(t)) && CallsOf(t) == old(CallsOf(t))
    {
      var reply := database(bizTag, CallsOf(bizTag));
      calls := calls[bizTag := CallsOf(bizTag) + 1];
      if bizTag !in rows {
        return Err(BizTagNotExists);
      }
      if reply.Refused? {
        return Err(LoadFailed);
      }
      var row := Row(rows[bizTag].maxId + reply.step, rows[bizTag].version + 1);
      rows := rows[bizTag := row];
      r := if reply.Applied? then Ok(SegmentAllocation(bizTag, row.maxId, reply.step)) else Err(LoadFailed);
    }
  }
}
