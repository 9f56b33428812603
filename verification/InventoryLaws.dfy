/** What stands in the inventory of propagation nodes, and in which order (src/directory.rs). */
module InventoryLaws {
  import opened Common
  import opened Ordering
  import opened StableSort
  import opened Directory
  import opened PropagationInventory

  /** How recently a node was heard: fresh before stale before unknown. */
  predicate Fresher(a: Freshness, b: Freshness)
  {
    (a == Fresh && b != Fresh) || (a == Stale && b == UnknownAge)
  }

  /** `a` stands before `b` by the first of six keys in which they differ. */
  predicate StandsBefore(a: NodeRecord, b: NodeRecord)
  {
    || (a.selected && !b.selected)
    || (a.selected == b.selected && a.saved && !b.saved)
    || (a.selected == b.selected && a.saved == b.saved && a.trusted && !b.trusted)
    || (a.selected == b.selected && a.saved == b.saved && a.trusted == b.trusted && Fresher(a.freshness, b.freshness))
    || (a.selected == b.selected && a.saved == b.saved && a.trusted == b.trusted && a.freshness == b.freshness
        && (a.lastSeen > b.lastSeen || (a.lastSeen == b.lastSeen && LexLeq(a.destinationHash, b.destinationHash))))
  }

  lemma NodeOrderIff(a: NodeRecord, b: NodeRecord)
    ensures NodeOrder(a, b) <==> StandsBefore(a, b)
  {
    hide LexLeq;
  }

  /** Along the inventory the nodes stand in that order. */
  lemma InventoryIsInOrder(listed: seq<Entry>, selected: Option<Hash>, now: real, i: nat, j: nat)
    requires i < j < |Sort(Records(listed, selected, now), NodeOrder)|
    ensures var sorted := Sort(Records(listed, selected, now), NodeOrder); StandsBefore(sorted[i], sorted[j])
  {
    hide NodeOrder, Sort, Records, StandsBefore;
    var records := Records(listed, selected, now);
    NodeOrderIsTotalPreorder();
    SortSorted(records, NodeOrder);
    var sorted := Sort(records, NodeOrder);
    NodeOrderIff(sorted[i], sorted[j]);
  }

  /** A node is shown as it is known, under its own name only if its identity is. */
  lemma RecordHolds(e: Entry, selected: Option<Hash>, now: real)
    ensures var n := RecordOf(e, selected, now);
            && n.destinationHash == e.destinationHash && n.identityHash == e.identityHash
            && n.displayName == (if e.identityHash.Some? then e.displayName else e.destinationHash)
            && n.saved == e.saved && n.trusted == e.trusted && n.lastSeen == e.lastSeen && n.lastSyncError == None
            && (n.selected <==> selected.Some? && EqIgnoreCase(selected.value, e.destinationHash))
            && (n.freshness == UnknownAge <==> e.lastSeen <= 0.0)
            && (n.freshness == Fresh <==> e.lastSeen > 0.0 && now - e.lastSeen <= 21600.0)
            && (n.freshness == Stale <==> e.lastSeen > 0.0 && now - e.lastSeen > 21600.0)
  {
    hide EqIgnoreCase;
  }

  /** The candidates are the listed propagation nodes, one record each. */
  lemma {:induction false} RecordsIff(listed: seq<Entry>, selected: Option<Hash>, now: real, n: NodeRecord)
    ensures n in Records(listed, selected, now) <==>
            exists e :: e in listed && e.kind == Propagation && n == RecordOf(e, selected, now)
  {
    hide RecordOf;
    if listed != [] {
      RecordsIff(listed[1..], selected, now, n);
      assert forall e :: e in listed <==> e == listed[0] || e in listed[1..];
    }
  }

  /** A record is charged a fixed part and the lengths of its texts. */
  lemma RecordBytesAre(n: NodeRecord)
    ensures RecordBytes(n) == 224 + |n.destinationHash| + |n.displayName|
                              + (if n.identityHash.Some? then |n.identityHash.value| else 0)
                              + (if n.lastSyncError.Some? then |n.lastSyncError.value| else 0)
  {
  }
}
