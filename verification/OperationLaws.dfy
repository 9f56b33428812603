/**
 * What the operation history accepts, which error it reports, and which records it may drop
 * (src/operations.rs), said of the records themselves.
 */
module OperationLaws {
  import opened Common
  import opened Seqs
  import opened Operations

  // ---------- Validation ----------

  predicate TextWithin(t: Option<Bytes>) { t.Some? ==> |t.value| <= 1024 }

  predicate TextsInOrder(r: Record)
  {
    1 <= |r.target.caption| <= 1024 && TextWithin(r.propagationNode) && TextWithin(r.lastError)
  }

  predicate EvidenceInOrder(r: Record)
  {
    |r.evidence| <= 16 && forall e :: e in r.evidence ==> TextWithin(e.detail)
  }

  predicate ActionsInOrder(r: Record)
  {
    |r.validActions| <= 4 && Distinct(r.validActions)
  }

  predicate ProgressInOrder(r: Record)
  {
    r.progress.Some? ==> 0 < r.progress.value.total && r.progress.value.completed <= r.progress.value.total
  }

  predicate ProgressAllowed(r: Record)
  {
    r.progress.Some? ==> r.id.domain == ResourceTransfer || r.id.domain == LxmfMessage
  }

  predicate DeliveryProved(r: Record)
  {
    r.state == Delivered ==> exists e :: e in r.evidence && e.kind == PeerDelivery && e.authority == Authoritative
  }

  predicate Distinct(s: seq<Action>) { forall i, j :: 0 <= i < j < |s| ==> s[i] != s[j] }

  lemma DistinctStep(s: seq<Action>)
    requires s != []
    ensures Distinct(s) <==> s[0] !in s[1..] && Distinct(s[1..])
  {
    if s[0] !in s[1..] && Distinct(s[1..]) {
      forall i, j | 0 <= i < j < |s| ensures s[i] != s[j] {
        assert s[j] == s[1..][j - 1];
      }
    }
    if Distinct(s) {
      forall k | 0 <= k < |s[1..]| ensures s[1..][k] != s[0] {
        assert s[1..][k] == s[k + 1];
      }
    }
  }

  /** Pairwise distinct actions are as many as their set. */
  lemma {:induction false} DistinctIff(s: seq<Action>)
    ensures |ActionSet(s)| <= |s| && (|ActionSet(s)| == |s| <==> Distinct(s))
  {
    hide Distinct;
    if s == [] {
      EmptyIsDistinct();
    } else {
      DistinctIff(s[1..]);
      DistinctStep(s);
      assert ActionSet(s) == ActionSet(s[1..]) + {s[0]};
      assert s[0] in ActionSet(s[1..]) <==> s[0] in s[1..];
    }
  }

  lemma EmptyIsDistinct()
    ensures Distinct([])
  {
  }

  function ActionSet(s: seq<Action>): set<Action> { set a | a in s }

  /** The first rule that a record breaks is the error it gets; a record that breaks none gets its size. */
  lemma ValidateIs(r: Record)
    ensures Validate(r) ==
            if !TextsInOrder(r) then Err(TextLimit)
            else if !EvidenceInOrder(r) then Err(EvidenceLimit)
            else if !ActionsInOrder(r) then Err(ActionLimit)
            else if r.updatedAtUnixMs < r.createdAtUnixMs then Err(InvalidTimestamp)
            else if !ProgressInOrder(r) then Err(InvalidProgress)
            else if !ProgressAllowed(r) then Err(UnsupportedProgress)
            else if !DeliveryProved(r) then Err(MissingDeliveryEvidence)
            else if SizeOf(r) > 8192 then Err(RecordByteLimit)
            else Ok(SizeOf(r))
  {
    hide RecordBytes, SizeOf;
    SizeIs(r);
    EvidenceRule(r);
    DeliveryRule(r);
    DistinctIff(r.validActions);
    assert (set a | a in r.validActions) == ActionSet(r.validActions);
  }

  lemma EvidenceRule(r: Record)
    ensures EvidenceInOrder(r) <==>
            |r.evidence| <= EVIDENCE_MAX_ITEMS
            && !exists i :: 0 <= i < |r.evidence| && TextLength(r.evidence[i].detail) > TEXT_MAX_BYTES
  {
  }

  lemma DeliveryRule(r: Record)
    ensures DeliveryProved(r) <==>
            r.state != Delivered || exists i :: 0 <= i < |r.evidence| && ProvesDelivery(r.evidence[i])
  {
  }

  function DetailBytes(es: seq<Evidence>): nat
  {
    if es == [] then 0 else (if es[0].detail.Some? then |es[0].detail.value| else 0) + DetailBytes(es[1..])
  }

  /** The size of a record: a fixed part, its texts, 48 bytes for every piece of evidence and 8 for every action. */
  function SizeOf(r: Record): nat
  {
    128 + |r.target.caption|
    + (if r.propagationNode.Some? then |r.propagationNode.value| else 0)
    + (if r.lastError.Some? then |r.lastError.value| else 0)
    + 48 * |r.evidence| + DetailBytes(r.evidence) + 8 * |r.validActions|
  }

  lemma {:induction false} EvidenceBytesAre(es: seq<Evidence>)
    ensures EvidenceBytes(es) == 48 * |es| + DetailBytes(es)
    decreases |es|
  {
    if es != [] {
      var front, last := es[..|es| - 1], es[|es| - 1];
      EvidenceBytesAre(front);
      DetailSnoc(front, last);
      assert es == front + [last];
    }
  }

  lemma {:induction false} DetailSnoc(es: seq<Evidence>, e: Evidence)
    ensures DetailBytes(es + [e]) == DetailBytes(es) + if e.detail.Some? then |e.detail.value| else 0
  {
    if es == [] {
      assert es + [e] == [e];
    } else {
      DetailSnoc(es[1..], e);
      assert (es + [e])[1..] == es[1..] + [e];
    }
  }

  lemma SizeIs(r: Record)
    ensures RecordBytes(r) == SizeOf(r)
  {
    hide EvidenceBytes, DetailBytes;
    EvidenceBytesAre(r.evidence);
  }

  // ---------- What may be dropped ----------

  /** Six states are final, and the other nine are work in progress. */
  lemma StatesAre(s: State)
    ensures s.IsTerminal() <==> s in {Delivered, Completed, Cancelled, Failed, Expired, Rejected}
    ensures !s.IsTerminal() <==>
            s in {Waiting, Queued, Dispatching, TransportAccepted, ReceiptObserved,
                  Transferring, Active, Reconciling, EventGap}
  {
  }

  predicate IsFinal(s: State) { s in {Delivered, Completed, Cancelled, Failed, Expired, Rejected} }

  /** An upsert keeps every other record whose state is not final. */
  lemma UpsertKeepsWork(h: History, r: Record, x: Record)
    requires x in h.records && x.id != r.id && !IsFinal(x.state)
    ensures x in Upsert(h, r).0.records
  {
    hide Validate, Evictions, Filter;
    if Upsert(h, r).1.Ok? {
      var others := Others(h.records, r.id);
      FilterSound(h.records, (y: Record) => y.id != r.id);
      var n := Evictions(h, others, r, 0).value;
      EvictionsLeaveUnresolved(others, n);
      FilterSound(others, (y: Record) => !y.state.IsTerminal());
      FilterSound(EvictFront(others, n), (y: Record) => !y.state.IsTerminal());
      assert x in Unresolved(EvictFront(others, n));
    }
  }

  /** What it evicts when there is no room is in a final state, and final records are evicted if they must be. */
  lemma UpsertMayEvictFinal(h: History, r: Record)
    requires Validate(r).Ok? && |h.records| > 0 && SizeOf(r) <= h.maxBytes && h.maxItems > 0
    requires forall x :: x in h.records ==> x.id != r.id && IsFinal(x.state)
    ensures Upsert(h, r).1.Ok?
  {
    hide Validate, Evictions, SizeOf, RecordBytes;
    var others := Others(h.records, r.id);
    FilterSound(h.records, (y: Record) => y.id != r.id);
    FilterKeepsNone(others, (y: Record) => !y.state.IsTerminal());
    SizeIs(r);
    UpsertSucceedsIff(h, r);
  }

  /** What an upsert adds is the record itself. */
  lemma UpsertAddsOnly(h: History, r: Record, x: Record)
    requires x in Upsert(h, r).0.records
    ensures x == r || (x in h.records && x.id != r.id) || Upsert(h, r).1.Err?
  {
    hide Validate, Evictions, Filter;
    if Upsert(h, r).1.Ok? {
      var others := Others(h.records, r.id);
      FilterSound(h.records, (y: Record) => y.id != r.id);
      DropFirstSound(others, Evictions(h, others, r, 0).value, (y: Record) => y.state.IsTerminal());
    }
  }

  /** An expiry drops only records in a final state that were last updated before the cutoff. */
  lemma {:induction false} ExpiryDropsOnlyOld(rs: seq<Record>, cutoff: int, n: nat, x: Record)
    requires x in rs && x !in DropFirst(rs, n, (r: Record) => ExpiredBefore(r, cutoff))
    ensures IsFinal(x.state) && x.updatedAtUnixMs < cutoff
    decreases |rs|
  {
    var p := (r: Record) => ExpiredBefore(r, cutoff);
    if x in rs[1..] && n > 0 {
      if p(rs[0]) {
        if x !in DropFirst(rs[1..], n - 1, p) {
          ExpiryDropsOnlyOld(rs[1..], cutoff, n - 1, x);
        }
      } else {
        ExpiryDropsOnlyOld(rs[1..], cutoff, n, x);
      }
    }
  }

  lemma ExpireDropsOnlyOld(h: History, cutoff: int, n: nat, x: Record)
    requires x in h.records && x !in ExpireTerminalBefore(h, cutoff, n).0.records
    ensures IsFinal(x.state) && x.updatedAtUnixMs < cutoff
  {
    ExpiryDropsOnlyOld(h.records, cutoff, n, x);
  }

  /** With room in the batch, an expiry drops all of them. */
  lemma ExpireDropsAll(h: History, cutoff: int, n: nat, x: Record)
    requires n >= |h.records| && x in h.records
    ensures x !in ExpireTerminalBefore(h, cutoff, n).0.records <==> IsFinal(x.state) && x.updatedAtUnixMs < cutoff
  {
    hide DropFirst, Filter;
    var p, q := (r: Record) => ExpiredBefore(r, cutoff), (r: Record) => !ExpiredBefore(r, cutoff);
    DropFirstAll(h.records, n, p, q);
    FilterSound(h.records, q);
  }
}
