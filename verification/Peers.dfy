/** The table of pinned peers. */
module Peers {
  import opened Options

  datatype Record = Record(name: string, peerId: string, noiseKey: string, pairedAt: string)

  ghost predicate UniqueIds(records: seq<Record>) {
    forall i, j :: 0 <= i < j < |records| ==> records[i].peerId != records[j].peerId
  }

  /** How many records carry the id. */
  function Occurrences(records: seq<Record>, id: string): nat {
    if records == [] then 0 else
      Occurrences(records[..|records| - 1], id) + if records[|records| - 1].peerId == id then 1 else 0
  }

  lemma {:induction false} OccurrencesMember(records: seq<Record>, id: string)
    ensures Occurrences(records, id) > 0 <==> exists i :: 0 <= i < |records| && records[i].peerId == id
    ensures UniqueIds(records) ==> Occurrences(records, id) <= 1
  {
    if records != [] {
      var init := records[..|records| - 1];
      OccurrencesMember(init, id);
      if exists i :: 0 <= i < |init| && init[i].peerId == id {
        var i :| 0 <= i < |init| && init[i].peerId == id;
        assert records[i].peerId == id;
      }
      if Occurrences(init, id) == 0 {
        forall i | 0 <= i < |init| ensures records[i].peerId != id {
          assert init[i] == records[i];
        }
      }
    }
  }

  class PeerTable {
    var records: seq<Record>

    constructor ()
      ensures records == []
    {
      records := [];
    }

    /** Replace the record with the same id in place, or append. */
    method Upsert(record: Record) returns (isNew: bool)
      modifies this
      ensures isNew <==> forall i :: 0 <= i < |old(records)| ==> old(records)[i].peerId != record.peerId
      ensures isNew ==> records == old(records) + [record]
      ensures !isNew ==> exists pos :: 0 <= pos < |old(records)| && old(records)[pos].peerId == record.peerId
                                       && records == old(records)[pos := record]
      ensures old(UniqueIds(records)) ==> UniqueIds(records)
    {
      for pos := 0 to |records|
        invariant forall i :: 0 <= i < pos ==> records[i].peerId != record.peerId
        invariant unchanged(this)
      {
        if records[pos].peerId == record.peerId {
          records := records[pos := record];
          return false;
        }
      }
      records := records + [record];
      isNew := true;
    }

    /** Remove the first record with that name. */
    method Remove(name: string) returns (removed: Option<Record>)
      modifies this
      ensures removed.None? <==> forall i :: 0 <= i < |old(records)| ==> old(records)[i].name != name
      ensures removed.None? ==> records == old(records)
      ensures removed.Some? ==>
                exists pos :: 0 <= pos < |old(records)| && old(records)[pos] == removed.value && removed.value.name == name
                              && (forall i :: 0 <= i < pos ==> old(records)[i].name != name)
                              && records == old(records)[..pos] + old(records)[pos + 1..]
      ensures old(UniqueIds(records)) ==> UniqueIds(records)
    {
      for pos := 0 to |records|
        invariant forall i :: 0 <= i < pos ==> records[i].name != name
        invariant unchanged(this)
      {
        if records[pos].name == name {
          removed := Some(records[pos]);
          records := records[..pos] + records[pos + 1..];
          return;
        }
      }
      removed := None;
    }

    method Clear()
      modifies this
      ensures records == []
    {
      records := [];
    }
  }
}
