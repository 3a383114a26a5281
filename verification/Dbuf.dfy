/** The dirty-record lookups of dbuf.h over a dbuf's list of dirty records. */
module DbufLookup {

  class DirtyRecord {
    const txg: nat
    var next: DirtyRecord?

    constructor (txg: nat, next: DirtyRecord?)
      ensures this.txg == txg && this.next == next
    {
      this.txg := txg;
      this.next := next;
    }
  }

  class Dbuf {
    var head: DirtyRecord?
    ghost var records: seq<DirtyRecord>

    /** The list from head holds exactly the records, newest to oldest. */
    ghost predicate Valid()
      reads this, records
    {
      (head == if records == [] then null else records[0]) &&
      (forall i :: 0 <= i < |records| ==>
        records[i].next == if i + 1 < |records| then records[i + 1] else null) &&
      forall i, j :: 0 <= i < j < |records| ==> records[i].txg >= records[j].txg
    }

    constructor ()
      ensures Valid() && records == []
    {
      head, records := null, [];
    }

    /** The first record of a txg not above the argument: the record of the greatest such
        txg, null if every txg is above it. */
    method FindDirtyLte(txg: nat) returns (dr: DirtyRecord?)
      requires Valid()
      ensures dr == null <==> forall i :: 0 <= i < |records| ==> records[i].txg > txg
      ensures dr != null ==> dr in records && dr.txg <= txg
      ensures dr != null ==>
        exists k :: 0 <= k < |records| && records[k] == dr && forall i :: 0 <= i < k ==> records[i].txg > txg
      ensures dr != null ==> forall i :: 0 <= i < |records| && records[i].txg <= txg ==> records[i].txg <= dr.txg
    {
      dr := head;
      ghost var k := 0;
      while dr != null && dr.txg > txg
        invariant k <= |records|
        invariant dr == if k < |records| then records[k] else null
        invariant forall i :: 0 <= i < k ==> records[i].txg > txg
        decreases |records| - k
      {
        dr := dr.next;
        k := k + 1;
      }
    }

    /** Found exactly when some record of that txg is anywhere in the list. */
    method FindDirtyEq(txg: nat) returns (dr: DirtyRecord?)
      requires Valid()
      ensures dr != null <==> exists i :: 0 <= i < |records| && records[i].txg == txg
      ensures dr != null ==> dr in records && dr.txg == txg
    {
      dr := FindDirtyLte(txg);
      if dr != null && dr.txg == txg {
        return;
      }
      dr := null;
    }
  }
}
