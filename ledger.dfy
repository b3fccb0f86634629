/**
 * The address ledger (the `junk` table) and `lookup`, the find-or-create
 * operation that gives an address its verdict.
 *
 * The table is a map from address to record. Faults of the database (it cannot
 * be opened, the query fails, the insert fails) are an explicit input of each
 * lookup, and the clock reading `now` is a parameter.
 */
module Ledger {
  import opened Config

  /** One row of `junk`: when the address was first seen and its `perm` flag. */
  datatype Record = Record(firstSeen: int, perm: int)

  type Rows = map<string, Record>

  /** Which database operations fail during one lookup. */
  datatype Faults = Faults(open: bool, scan: bool, insert: bool)

  const NoFaults := Faults(false, false, false)

  /** The outcome of a lookup before it is rendered as reply text. */
  datatype Verdict = Trusted | Rejected | StoreFault

  /** The fixed reply for every database failure (`db_error`). */
  const DbErrorReply := "400 DB lookup error"

  /** The record a miss inserts: first seen now, not permanent. */
  function NewRecord(now: int): Record {
    Record(now, 0)
  }

  /** A non-permanent record is rejected once its age exceeds the lifetime. */
  predicate Expired(rec: Record, now: int, validTime: int) {
    rec.perm == 0 && now - rec.firstSeen > validTime
  }

  /** The verdict for a record that was read or created without a fault. */
  function Judge(rec: Record, now: int, validTime: int): Verdict {
    if Expired(rec, now, validTime) then Rejected else Trusted
  }

  /** The reply text for a verdict: the two configured templates or `db_error`. */
  function Render(v: Verdict, cfg: Settings): (reply: string)
    ensures ValidReply(cfg.addrGood) && ValidReply(cfg.addrBad) ==> ValidReply(reply)
    ensures v == StoreFault ==> reply == DbErrorReply && reply[0] == '4'
  {
    match v
    case Trusted => cfg.addrGood
    case Rejected => cfg.addrBad
    case StoreFault => DbErrorReply
  }

  /** The table after a lookup, and the verdict it produced. */
  datatype Outcome = Outcome(rows: Rows, verdict: Verdict)

  /**
   * `lookup` on a table: a failed open or query is a fault and changes
   * nothing; a hit is judged by its record and changes nothing; a miss
   * inserts a fresh record (unless the insert fails) and is judged by it.
   */
  function LookupSpec(rows: Rows, key: string, now: int, validTime: int, faults: Faults): (r: Outcome)
    ensures rows.Keys <= r.rows.Keys <= rows.Keys + {key}
    ensures |r.rows| <= |rows| + 1
    ensures forall k :: k in rows ==> k in r.rows && r.rows[k] == rows[k]
    ensures r.verdict == StoreFault <==> faults.open || faults.scan || (key !in rows && faults.insert)
    ensures r.verdict == StoreFault ==> r.rows == rows
    ensures r.verdict != StoreFault ==>
      && key in r.rows
      && r.rows == rows[key := r.rows[key]]
      && (key !in rows ==> r.rows[key] == NewRecord(now))
      && (r.verdict == Rejected <==> Expired(r.rows[key], now, validTime))
  {
    if faults.open || faults.scan then Outcome(rows, StoreFault)
    else if key in rows then Outcome(rows, Judge(rows[key], now, validTime))
    else if faults.insert then Outcome(rows, StoreFault)
    else Outcome(rows[key := NewRecord(now)], Judge(NewRecord(now), now, validTime))
  }

  /** The ledger: the `junk` table of the database file. */
  class Store {
    var rows: Rows

    /** A freshly created, empty table. */
    constructor ()
      ensures rows == map[]
    {
      rows := map[];
    }

    /**
     * `lookup(key)`: find the record of `key`, creating it on a miss, and
     * answer with the reply text for its verdict.
     */
    method Lookup(key: string, now: int, cfg: Settings, faults: Faults) returns (reply: string)
      modifies this
      ensures var r := LookupSpec(old(rows), key, now, cfg.validTime, faults);
        rows == r.rows && reply == Render(r.verdict, cfg)
    {
      if faults.open {
        return DbErrorReply;
      }
      // SELECT time, perm FROM junk WHERE user = key
      var t, p := 0, 0;
      var noRows := key !in rows;
      if !noRows {
        t, p := rows[key].firstSeen, rows[key].perm;
      }
      var failed := faults.scan;
      if !faults.scan && noRows {
        // INSERT INTO junk (user) VALUES (key)
        failed := faults.insert;
        if !failed {
          rows := rows[key := NewRecord(now)];
        }
        t := now;
      }
      if failed {
        return DbErrorReply;
      }
      if p == 0 && now - t > cfg.validTime {
        return cfg.addrBad;
      }
      reply := cfg.addrGood;
    }
  }

  /** An unseen address gets exactly one new record, first seen now, and is trusted. */
  lemma UnseenAddressIsTrusted(rows: Rows, key: string, now: int, validTime: int)
    requires key !in rows
    requires validTime >= 0
    ensures var r := LookupSpec(rows, key, now, validTime, NoFaults);
      && r.rows == rows[key := Record(now, 0)]
      && |r.rows| == |rows| + 1
      && r.verdict == Trusted
  {
  }

  /**
   * An existing non-permanent record is rejected exactly when its age is
   * strictly greater than the lifetime; the table does not change.
   */
  lemma ExistingRecordVerdict(rows: Rows, key: string, now: int, validTime: int, faults: Faults)
    requires key in rows && rows[key].perm == 0
    requires !faults.open && !faults.scan
    ensures var r := LookupSpec(rows, key, now, validTime, faults);
      && r.rows == rows
      && (r.verdict == Rejected <==> now - rows[key].firstSeen > validTime)
      && (r.verdict == Trusted <==> now - rows[key].firstSeen <= validTime)
  {
  }

  /** An age exactly equal to the lifetime is still trusted. */
  lemma BoundaryIsTrusted(rows: Rows, key: string, now: int, validTime: int, faults: Faults)
    requires key in rows && now - rows[key].firstSeen == validTime
    requires !faults.open && !faults.scan
    ensures LookupSpec(rows, key, now, validTime, faults).verdict == Trusted
  {
  }

  /** A permanent record is trusted whatever its age and the lifetime. */
  lemma PermanentIsTrusted(rows: Rows, key: string, now: int, validTime: int, faults: Faults)
    requires key in rows && rows[key].perm != 0
    requires !faults.open && !faults.scan
    ensures LookupSpec(rows, key, now, validTime, faults) == Outcome(rows, Trusted)
  {
  }

  /**
   * Any database failure gives exactly the `db_error` reply and leaves the
   * table as it was; in particular a failed insert adds no record.
   */
  lemma FaultsChangeNothing(rows: Rows, key: string, now: int, cfg: Settings, faults: Faults)
    requires faults.open || faults.scan || (key !in rows && faults.insert)
    ensures var r := LookupSpec(rows, key, now, cfg.validTime, faults);
      r.rows == rows && Render(r.verdict, cfg) == "400 DB lookup error"
  {
  }

  /**
   * Two lookups of the same key at the same time: the second adds nothing
   * and, when neither fails, gives the same verdict as the first.
   */
  lemma LookupIdempotent(rows: Rows, key: string, now: int, validTime: int, f1: Faults, f2: Faults)
    ensures var r1 := LookupSpec(rows, key, now, validTime, f1);
      var r2 := LookupSpec(r1.rows, key, now, validTime, f2);
      && (r1.verdict != StoreFault ==> r2.rows == r1.rows)
      && (r1.verdict != StoreFault && r2.verdict != StoreFault ==> r2.verdict == r1.verdict)
  {
  }

  /**
   * Once a record is rejected, it stays rejected at every later time: nothing
   * in the core renews or removes a record.
   */
  lemma RejectionIsFinal(rows: Rows, key: string, now: int, later: int, validTime: int, f1: Faults, f2: Faults)
    requires now <= later
    requires LookupSpec(rows, key, now, validTime, f1).verdict == Rejected
    ensures var r1 := LookupSpec(rows, key, now, validTime, f1);
      LookupSpec(r1.rows, key, later, validTime, f2).verdict in {Rejected, StoreFault}
  {
  }

  /** A sequence of lookups, each with its key, clock reading and faults. */
  datatype Query = Query(key: string, now: int, faults: Faults)

  function LookupAll(rows: Rows, qs: seq<Query>, validTime: int): Rows
    decreases |qs|
  {
    if |qs| == 0 then rows
    else LookupAll(LookupSpec(rows, qs[0].key, qs[0].now, validTime, qs[0].faults).rows, qs[1..], validTime)
  }

  function KeysOf(qs: seq<Query>): set<string> {
    set i | 0 <= i < |qs| :: qs[i].key
  }

  /**
   * However many lookups run, records are never changed or removed, only the
   * looked-up keys are added, and each lookup adds at most one record.
   */
  lemma {:induction false} LookupsOnlyAdd(rows: Rows, qs: seq<Query>, validTime: int)
    ensures var final := LookupAll(rows, qs, validTime);
      && rows.Keys <= final.Keys <= rows.Keys + KeysOf(qs)
      && |final| <= |rows| + |qs|
      && forall k :: k in rows ==> final[k] == rows[k]
    decreases |qs|
  {
    if |qs| > 0 {
      var next := LookupSpec(rows, qs[0].key, qs[0].now, validTime, qs[0].faults).rows;
      LookupsOnlyAdd(next, qs[1..], validTime);
      KeysOfCons(qs);
    }
  }

  lemma KeysOfCons(qs: seq<Query>)
    requires |qs| > 0
    ensures KeysOf(qs) == {qs[0].key} + KeysOf(qs[1..])
  {
    forall x | x in KeysOf(qs[1..]) ensures x in KeysOf(qs) {
      var i :| 0 <= i < |qs[1..]| && qs[1..][i].key == x;
      assert qs[i + 1].key == x;
    }
    forall x | x in KeysOf(qs) ensures x in {qs[0].key} + KeysOf(qs[1..]) {
      var i :| 0 <= i < |qs| && qs[i].key == x;
      if i > 0 { assert qs[1..][i - 1].key == x; }
    }
  }
}
