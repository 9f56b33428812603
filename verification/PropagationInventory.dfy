/** The bounded inventory of propagation nodes (src/directory.rs). */
module PropagationInventory {
  import opened Common
  import opened Ordering
  import opened StableSort
  import opened Directory

  const MAX_ITEMS: nat := 256
  const MAX_BYTES: nat := 512 * 1024
  const FRESH_SECONDS: real := 21600.0
  const FIXED_BYTES: nat := 224

  datatype Freshness = Fresh | Stale | UnknownAge

  datatype NodeRecord = NodeRecord(
    destinationHash: Hash, identityHash: Option<Hash>, displayName: Bytes, selected: bool, saved: bool,
    trusted: bool, lastSeen: real, freshness: Freshness, lastSyncError: Option<Bytes>)

  function TextLength(t: Option<Bytes>): nat { if t.Some? then |t.value| else 0 }

  function RecordBytes(n: NodeRecord): nat
  {
    FIXED_BYTES + |n.destinationHash| + TextLength(n.identityHash) + |n.displayName| + TextLength(n.lastSyncError)
  }

  function TotalBytes(ns: seq<NodeRecord>): nat
  {
    if ns == [] then 0 else TotalBytes(ns[..|ns| - 1]) + RecordBytes(ns[|ns| - 1])
  }

  // ---------- The bounds ----------

  /** `n` can still be added to `kept`. */
  predicate Fits(kept: seq<NodeRecord>, n: NodeRecord)
  {
    |kept| < MAX_ITEMS && TotalBytes(kept) + RecordBytes(n) <= MAX_BYTES
  }

  /** What one pass keeps. */
  function Bounded(ns: seq<NodeRecord>): (kept: seq<NodeRecord>)
    ensures |kept| <= |ns| && |kept| <= MAX_ITEMS && TotalBytes(kept) <= MAX_BYTES
  {
    if ns == [] then []
    else
      var kept, last := Bounded(ns[..|ns| - 1]), ns[|ns| - 1];
      if Fits(kept, last) then kept + [last] else kept
  }

  ghost predicate Subsequence(a: seq<NodeRecord>, b: seq<NodeRecord>)
  {
    || a == []
    || (b != [] && a[|a| - 1] == b[|b| - 1] && Subsequence(a[..|a| - 1], b[..|b| - 1]))
    || (b != [] && Subsequence(a, b[..|b| - 1]))
  }

  lemma {:induction false} BoundedIsSubsequence(ns: seq<NodeRecord>)
    ensures Subsequence(Bounded(ns), ns)
  {
    if ns != [] {
      BoundedIsSubsequence(ns[..|ns| - 1]);
      var kept, last := Bounded(ns[..|ns| - 1]), ns[|ns| - 1];
      assert (kept + [last])[..|kept|] == kept;
    }
  }

  lemma BoundedStep(ns: seq<NodeRecord>, i: nat)
    requires i < |ns|
    ensures var kept := Bounded(ns[..i]);
            Bounded(ns[..i + 1]) == if Fits(kept, ns[i]) then kept + [ns[i]] else kept
  {
    hide TotalBytes, RecordBytes;
    assert ns[..i + 1][..i] == ns[..i];
  }

  lemma TotalStep(kept: seq<NodeRecord>, n: NodeRecord)
    ensures TotalBytes(kept + [n]) == TotalBytes(kept) + RecordBytes(n)
  {
    hide RecordBytes;
    assert (kept + [n])[..|kept|] == kept;
  }

  lemma BoundedOfNone(ns: seq<NodeRecord>)
    ensures Bounded(ns[..0]) == [] && TotalBytes([]) == 0
  {
  }

  /** Later nodes are only ever appended. */
  lemma {:induction false} BoundedGrows(ns: seq<NodeRecord>, i: nat)
    requires i <= |ns|
    ensures Bounded(ns[..i]) <= Bounded(ns) && TotalBytes(Bounded(ns[..i])) <= TotalBytes(Bounded(ns))
    decreases |ns|
  {
    hide Bounded, TotalBytes, Fits;
    if i == |ns| {
      assert ns[..i] == ns;
    } else {
      var front := ns[..|ns| - 1];
      BoundedGrows(front, i);
      assert front[..i] == ns[..i] && ns[..|ns|] == ns;
      BoundedStep(ns, |ns| - 1);
      TotalStep(Bounded(front), ns[|ns| - 1]);
    }
  }

  /** The result is maximal: each node was either kept in its turn or could not be added even now. */
  lemma BoundedIsMaximal(ns: seq<NodeRecord>, i: nat)
    requires i < |ns|
    ensures Bounded(ns[..i]) + [ns[i]] <= Bounded(ns) || !Fits(Bounded(ns), ns[i])
  {
    hide Bounded, TotalBytes, RecordBytes;
    BoundedGrows(ns, i);
    BoundedGrows(ns, i + 1);
    BoundedStep(ns, i);
  }

  lemma {:induction false} BoundedKeepsWhatFits(ns: seq<NodeRecord>)
    requires |ns| <= MAX_ITEMS && TotalBytes(ns) <= MAX_BYTES
    ensures Bounded(ns) == ns
  {
    if ns != [] {
      BoundedKeepsWhatFits(ns[..|ns| - 1]);
      assert ns == ns[..|ns| - 1] + [ns[|ns| - 1]];
    }
  }

  lemma BoundedIsIdempotent(ns: seq<NodeRecord>)
    ensures Bounded(Bounded(ns)) == Bounded(ns)
  {
    BoundedKeepsWhatFits(Bounded(ns));
  }

  lemma {:induction false} NothingDroppedIff(ns: seq<NodeRecord>)
    ensures |Bounded(ns)| == |ns| <==> Bounded(ns) == ns
  {
    if ns != [] {
      NothingDroppedIff(ns[..|ns| - 1]);
      assert ns == ns[..|ns| - 1] + [ns[|ns| - 1]];
    }
  }

  class PropagationNodeInventory {
    var nodes: seq<NodeRecord>
    var totalCandidates: nat
    var retainedBytes: nat
    var truncated: bool

    constructor (nodes: seq<NodeRecord>)
      ensures this.nodes == nodes && totalCandidates == |nodes| && retainedBytes == 0 && !truncated
    {
      this.nodes, totalCandidates, retainedBytes, truncated := nodes, |nodes|, 0, false;
    }

    method EnforceBounds()
      modifies this`nodes, this`retainedBytes, this`truncated
      ensures nodes == Bounded(old(nodes)) && retainedBytes == TotalBytes(nodes)
      ensures truncated == (old(truncated) || nodes != old(nodes))
    {
      hide RecordBytes, Bounded, TotalBytes;
      BoundedOfNone(nodes);
      var retained: seq<NodeRecord> := [];
      var bytes := 0;
      var cut := truncated;
      for i := 0 to |nodes|
        invariant nodes == old(nodes) && retained == Bounded(nodes[..i]) && bytes == TotalBytes(retained)
        invariant cut == (truncated || |retained| != i) && truncated == old(truncated)
      {
        var node := nodes[i];
        BoundedStep(nodes, i);
        TotalStep(retained, node);
        if |retained| == MAX_ITEMS || bytes + RecordBytes(node) > MAX_BYTES {
          cut := true;
          continue;
        }
        bytes := bytes + RecordBytes(node);
        retained := retained + [node];
      }
      assert nodes[..|nodes|] == nodes;
      NothingDroppedIff(nodes);
      nodes, retainedBytes, truncated := retained, bytes, cut;
    }
  }

  // ---------- The order ----------

  function FreshnessRank(f: Freshness): nat { if f.Fresh? then 0 else if f.Stale? then 1 else 2 }

  /** Selected, saved and trusted nodes first, then fresher, then seen later, then by hash. */
  predicate NodeOrder(a: NodeRecord, b: NodeRecord)
  {
    if a.selected != b.selected then a.selected
    else if a.saved != b.saved then a.saved
    else if a.trusted != b.trusted then a.trusted
    else if a.freshness != b.freshness then FreshnessRank(a.freshness) < FreshnessRank(b.freshness)
    else if a.lastSeen != b.lastSeen then a.lastSeen > b.lastSeen
    else LexLeq(a.destinationHash, b.destinationHash)
  }

  lemma NodeOrderIsTotalPreorder()
    ensures TotalPreorder(NodeOrder)
  {
    hide LexLeq;
    forall a, b ensures NodeOrder(a, b) || NodeOrder(b, a) {
      LexTotal(a.destinationHash, b.destinationHash);
    }
    forall a, b, c | NodeOrder(a, b) && NodeOrder(b, c) ensures NodeOrder(a, c) {
      if LexLeq(a.destinationHash, b.destinationHash) && LexLeq(b.destinationHash, c.destinationHash) {
        LexTransitive(a.destinationHash, b.destinationHash, c.destinationHash);
      }
    }
  }

  // ---------- The inventory ----------

  function FreshnessAt(e: Entry, now: real): Freshness
  {
    if e.lastSeen <= 0.0 then UnknownAge
    else if (if now < e.lastSeen then e.lastSeen else now) - e.lastSeen <= FRESH_SECONDS then Fresh
    else Stale
  }

  predicate IsSelected(h: Hash, selected: Option<Hash>)
  {
    selected.Some? && EqIgnoreCase(selected.value, h)
  }

  /** An unauthenticated node is shown under its hash. */
  function RecordOf(e: Entry, selected: Option<Hash>, now: real): NodeRecord
  {
    NodeRecord(e.destinationHash, e.identityHash,
               if e.identityHash.Some? then e.displayName else e.destinationHash,
               IsSelected(e.destinationHash, selected), e.saved, e.trusted, e.lastSeen, FreshnessAt(e, now), None)
  }

  function Records(listed: seq<Entry>, selected: Option<Hash>, now: real): seq<NodeRecord>
  {
    if listed == [] then []
    else
      var rest := Records(listed[1..], selected, now);
      if listed[0].kind == Propagation then [RecordOf(listed[0], selected, now)] + rest else rest
  }

  lemma {:induction false} RecordsContain(listed: seq<Entry>, selected: Option<Hash>, now: real, e: Entry)
    requires e in listed && e.kind == Propagation
    ensures RecordOf(e, selected, now) in Records(listed, selected, now)
  {
    if listed[0] != e {
      RecordsContain(listed[1..], selected, now, e);
    }
  }

  lemma {:induction false} RecordsAreSmall(listed: seq<Entry>, selected: Option<Hash>, now: real)
    requires forall e :: e in listed ==> ValidEntry(e)
    ensures forall n :: n in Records(listed, selected, now) ==> RecordBytes(n) <= MAX_BYTES
  {
    hide FreshnessAt, IsSelected;
    if listed != [] {
      assert forall e :: e in listed[1..] ==> e in listed;
      RecordsAreSmall(listed[1..], selected, now);
      assert ValidEntry(listed[0]);
    }
  }

  /** `propagation_node_inventory` over the listed directory entries. */
  method BuildInventory(listed: seq<Entry>, selected: Option<Hash>, now: real)
    returns (inventory: PropagationNodeInventory)
    ensures fresh(inventory)
    ensures inventory.nodes == Bounded(Sort(Records(listed, selected, now), NodeOrder))
    ensures inventory.retainedBytes == TotalBytes(inventory.nodes)
    ensures inventory.totalCandidates == |Records(listed, selected, now)|
    ensures inventory.truncated <==> inventory.nodes != Sort(Records(listed, selected, now), NodeOrder)
  {
    var nodes := Sort(Records(listed, selected, now), NodeOrder);
    inventory := new PropagationNodeInventory(nodes);
    inventory.EnforceBounds();
  }

  /** Whenever a listed node matches the selection, the inventory starts with a selected node. */
  lemma SelectedNodeComesFirst(listed: seq<Entry>, selected: Option<Hash>, now: real, e: Entry)
    requires forall x :: x in listed ==> ValidEntry(x)
    requires e in listed && e.kind == Propagation && IsSelected(e.destinationHash, selected)
    ensures var kept := Bounded(Sort(Records(listed, selected, now), NodeOrder));
            kept != [] && kept[0].selected
  {
    hide RecordBytes, FreshnessAt, ValidEntry, EqIgnoreCase;
    var records := Records(listed, selected, now);
    var sorted := Sort(records, NodeOrder);
    RecordsContain(listed, selected, now, e);
    RecordsAreSmall(listed, selected, now);
    NodeOrderIsTotalPreorder();
    SortMultiset(records, NodeOrder);
    SortSorted(records, NodeOrder);
    var n := RecordOf(e, selected, now);
    assert n in multiset(records);
    assert n in multiset(sorted);
    FirstIsSelected(sorted, n);
    assert sorted[0] in multiset(sorted);
    assert sorted[0] in multiset(records);
    FirstIsKept(sorted);
  }

  lemma FirstIsSelected(sorted: seq<NodeRecord>, n: NodeRecord)
    requires Sorted(sorted, NodeOrder) && n in sorted && n.selected
    ensures sorted[0].selected
  {
    if n != sorted[0] {
      assert NodeOrder(sorted[0], n);
    }
  }

  lemma FirstIsKept(ns: seq<NodeRecord>)
    requires ns != [] && RecordBytes(ns[0]) <= MAX_BYTES
    ensures Bounded(ns) != [] && Bounded(ns)[0] == ns[0]
  {
    hide RecordBytes, Bounded, TotalBytes;
    BoundedGrows(ns, 1);
    BoundedOfNone(ns);
    BoundedStep(ns, 0);
  }
}
