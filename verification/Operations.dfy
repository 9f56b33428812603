/**
 * The operation history (src/operations.rs) as a value: records, their validation and byte
 * size, and what each history operation means.  OperationHistory.dfy holds the object itself.
 */
module Operations {
  import opened Common
  import opened Seqs

  const RECORD_MAX_BYTES: nat := 8 * 1024
  const EVIDENCE_MAX_ITEMS: nat := 16
  const TEXT_MAX_BYTES: nat := 1024
  const ACTION_MAX_ITEMS: nat := 4

  datatype Domain =
    | PathDiscovery | LinkEstablishment | LxmfMessage | PropagationSync
    | ResourceTransfer | RuntimeEventStream | OmenChatConnection | OmenChatMutation

  datatype Key = Numeric(value: Word) | Opaque128(bytes: Bytes)

  datatype Id = Id(domain: Domain, key: Key)

  datatype TargetKind = Destination | Peer | Server | Room | Runtime

  datatype Target = Target(kind: TargetKind, caption: Bytes)

  datatype Authority = Authoritative | Inferred | Stale | Uncertain

  datatype State =
    | Waiting | Queued | Dispatching | TransportAccepted | ReceiptObserved | Delivered | Completed
    | Transferring | Active | Reconciling | EventGap | Cancelled | Failed | Expired | Rejected
  {
    predicate IsTerminal()
    {
      Delivered? || Completed? || Cancelled? || Failed? || Expired? || Rejected?
    }
  }

  datatype EvidenceKind =
    | QueueAdmission | Dispatch | OperationProgress | OperationCompletion | TransportAcceptance
    | Receipt | PeerDelivery | ConnectionState | PathObservation | ResourceOffer | ResourceProgress
    | ResourceCompletion | Cancellation | Failure | Expiration | Rejection | EventGapSeen | Reconciliation

  datatype Evidence = Evidence(kind: EvidenceKind, authority: Authority, atUnixMs: int, detail: Option<Bytes>)

  datatype ByteProgress = ByteProgress(completed: Word, total: Word)

  datatype Action = ExplicitSend | Cancel | Reconcile | ExplicitSafeRetry | CopyDiagnostics

  datatype Record = Record(
    id: Id,
    target: Target,
    state: State,
    authority: Authority,
    evidence: seq<Evidence>,
    progress: Option<ByteProgress>,
    attemptCount: nat,
    stampCost: Option<nat>,
    propagationNode: Option<Bytes>,
    createdAtUnixMs: int,
    updatedAtUnixMs: int,
    lastError: Option<Bytes>,
    eventCursor: Option<Word>,
    validActions: seq<Action>)

  datatype Error =
    | TextLimit | EvidenceLimit | ActionLimit | InvalidTimestamp | InvalidProgress | UnsupportedProgress
    | MissingDeliveryEvidence | RecordByteLimit | HistoryCapacity | DomainMismatch | DuplicateOperation
    | SizeOverflow

  // ---------- Records ----------

  function TextLength(t: Option<Bytes>): nat { if t.Some? then |t.value| else 0 }

  function EvidenceBytes(es: seq<Evidence>): nat
  {
    if es == [] then 0 else EvidenceBytes(es[..|es| - 1]) + 48 + TextLength(es[|es| - 1].detail)
  }

  function RecordBytes(r: Record): (n: nat)
    ensures n >= 128
  {
    128 + |r.target.caption| + EvidenceBytes(r.evidence) + TextLength(r.propagationNode) + TextLength(r.lastError)
    + 8 * |r.validActions|
  }

  /** The accumulation loop; every addition is checked against the word size. */
  method OperationRecordBytes(r: Record) returns (n: Result<Word, Error>)
    ensures n == if RecordBytes(r) <= WORD_MAX then Ok(RecordBytes(r)) else Err(SizeOverflow)
  {
    var bytes: nat := 128 + |r.target.caption|;
    if bytes > WORD_MAX {
      return Err(SizeOverflow);
    }
    for i := 0 to |r.evidence|
      invariant bytes == 128 + |r.target.caption| + EvidenceBytes(r.evidence[..i]) <= WORD_MAX
    {
      bytes := bytes + 48 + TextLength(r.evidence[i].detail);
      assert r.evidence[..i + 1][..i] == r.evidence[..i];
      if bytes > WORD_MAX {
        EvidencePrefix(r.evidence, i + 1);
        return Err(SizeOverflow);
      }
    }
    assert r.evidence[..|r.evidence|] == r.evidence;
    bytes := bytes + TextLength(r.propagationNode);
    if bytes > WORD_MAX {
      return Err(SizeOverflow);
    }
    bytes := bytes + TextLength(r.lastError);
    if bytes > WORD_MAX {
      return Err(SizeOverflow);
    }
    bytes := bytes + 8 * |r.validActions|;
    n := if bytes > WORD_MAX then Err(SizeOverflow) else Ok(bytes);
  }

  lemma {:induction false} EvidencePrefix(es: seq<Evidence>, i: nat)
    requires i <= |es|
    ensures EvidenceBytes(es[..i]) <= EvidenceBytes(es)
    decreases |es|
  {
    if i == |es| {
      assert es[..i] == es;
    } else {
      EvidencePrefix(es[..|es| - 1], i);
      assert es[..|es| - 1][..i] == es[..i];
    }
  }

  /** The evidence without which no record may claim delivery to the peer. */
  predicate ProvesDelivery(e: Evidence)
  {
    e.kind == PeerDelivery && e.authority == Authoritative
  }

  /** `OperationRecord::validate`: the first violated rule, or the record's byte size. */
  function Validate(r: Record): (n: Result<nat, Error>)
    ensures n.Ok? ==> n.value == RecordBytes(r) <= RECORD_MAX_BYTES
    ensures n.Ok? && r.state == Delivered ==> exists i :: 0 <= i < |r.evidence| && ProvesDelivery(r.evidence[i])
  {
    if |r.target.caption| == 0 || |r.target.caption| > TEXT_MAX_BYTES
       || TextLength(r.propagationNode) > TEXT_MAX_BYTES || TextLength(r.lastError) > TEXT_MAX_BYTES
    then Err(TextLimit)
    else if |r.evidence| > EVIDENCE_MAX_ITEMS
            || exists i :: 0 <= i < |r.evidence| && TextLength(r.evidence[i].detail) > TEXT_MAX_BYTES
    then Err(EvidenceLimit)
    else if |r.validActions| > ACTION_MAX_ITEMS || |set a | a in r.validActions| != |r.validActions|
    then Err(ActionLimit)
    else if r.updatedAtUnixMs < r.createdAtUnixMs then Err(InvalidTimestamp)
    else if r.progress.Some? && (r.progress.value.total == 0 || r.progress.value.completed > r.progress.value.total)
    then Err(InvalidProgress)
    else if r.progress.Some? && !(r.id.domain == ResourceTransfer || r.id.domain == LxmfMessage)
    then Err(UnsupportedProgress)
    else if r.state == Delivered && !exists i :: 0 <= i < |r.evidence| && ProvesDelivery(r.evidence[i])
    then Err(MissingDeliveryEvidence)
    else if RecordBytes(r) > RECORD_MAX_BYTES then Err(RecordByteLimit)
    else Ok(RecordBytes(r))
  }

  // ---------- The history ----------

  datatype History = History(
    records: seq<Record>, bytes: nat, rejected: Word, evicted: Word, maxItems: nat, maxBytes: nat)

  function TotalBytes(rs: seq<Record>): nat
  {
    if rs == [] then 0 else RecordBytes(rs[0]) + TotalBytes(rs[1..])
  }

  ghost predicate UniqueIds(rs: seq<Record>)
  {
    forall i, j :: 0 <= i < j < |rs| ==> rs[i].id != rs[j].id
  }

  ghost predicate Valid(h: History)
  {
    && UniqueIds(h.records)
    && (forall i :: 0 <= i < |h.records| ==> Validate(h.records[i]).Ok?)
    && h.bytes == TotalBytes(h.records)
    && |h.records| <= h.maxItems
    && h.bytes <= h.maxBytes
  }

  function Others(rs: seq<Record>, id: Id): seq<Record>
  {
    Filter(rs, (r: Record) => r.id != id)
  }

  function OfOtherDomains(rs: seq<Record>, d: Domain): seq<Record>
  {
    Filter(rs, (r: Record) => r.id.domain != d)
  }

  function OfDomain(rs: seq<Record>, d: Domain): seq<Record>
  {
    Filter(rs, (r: Record) => r.id.domain == d)
  }

  /** The records that may never be evicted. */
  function Unresolved(rs: seq<Record>): seq<Record>
  {
    Filter(rs, (r: Record) => !r.state.IsTerminal())
  }

  function Terminals(rs: seq<Record>): nat
  {
    Count(rs, (r: Record) => r.state.IsTerminal())
  }

  /** `rs` after its first `n` terminal records are evicted. */
  function EvictFront(rs: seq<Record>, n: nat): seq<Record>
  {
    DropFirst(rs, n, (r: Record) => r.state.IsTerminal())
  }

  /** There is room for `r` beside `rs` in both budgets. */
  predicate HasRoom(h: History, rs: seq<Record>, r: Record)
  {
    |rs| + 1 <= h.maxItems && TotalBytes(rs) + RecordBytes(r) <= h.maxBytes
  }

  /** The least number of evictions, from `n` upwards, that makes room for `r`. */
  function Evictions(h: History, rs: seq<Record>, r: Record, n: nat): (m: Option<nat>)
    ensures m.Some? ==> n <= m.value && HasRoom(h, EvictFront(rs, m.value), r)
    ensures m.Some? ==> forall k :: n <= k < m.value ==> !HasRoom(h, EvictFront(rs, k), r)
    ensures m.Some? ==> m.value == n || m.value <= Terminals(rs)
    ensures m.None? ==> forall k :: n <= k <= Terminals(rs) ==> !HasRoom(h, EvictFront(rs, k), r)
    decreases Terminals(rs) - n
  {
    if HasRoom(h, EvictFront(rs, n), r) then Some(n)
    else if n >= Terminals(rs) then None
    else Evictions(h, rs, r, n + 1)
  }

  function Reject(h: History): History
  {
    h.(rejected := SaturatingAdd(h.rejected, 1))
  }

  function Upsert(h: History, r: Record): (History, Result<(), Error>)
  {
    var valid := Validate(r);
    if valid.Err? then (Reject(h), Err(valid.error))
    else
      var others := Others(h.records, r.id);
      match Evictions(h, others, r, 0)
      case None => (Reject(h), Err(HistoryCapacity))
      case Some(n) =>
        var records := EvictFront(others, n) + [r];
        var evicted := SaturatingAdd(h.evicted, if n <= WORD_MAX then n else WORD_MAX);
        (h.(records := records, bytes := TotalBytes(records), evicted := evicted), Ok(()))
  }

  function Remove(h: History, id: Id): (History, Option<Record>)
  {
    match Find(h.records, id)
    case None => (h, None)
    case Some(r) =>
      var rest := Others(h.records, id);
      (h.(records := rest, bytes := TotalBytes(rest)), Some(r))
  }

  function Find(rs: seq<Record>, id: Id): (r: Option<Record>)
    ensures r.Some? ==> r.value in rs && r.value.id == id
    ensures r.None? ==> forall i :: 0 <= i < |rs| ==> rs[i].id != id
  {
    if rs == [] then None else if rs[0].id == id then Some(rs[0]) else Find(rs[1..], id)
  }

  /** The first error that `validate` reports along `rs`. */
  function FirstInvalid(rs: seq<Record>): (e: Option<Error>)
    ensures e.None? <==> forall i :: 0 <= i < |rs| ==> Validate(rs[i]).Ok?
  {
    if rs == [] then None
    else if Validate(rs[0]).Err? then Some(Validate(rs[0]).error)
    else FirstInvalid(rs[1..])
  }

  ghost function SnapshotError(h: History, d: Domain, rs: seq<Record>): Option<Error>
  {
    var kept := OfOtherDomains(h.records, d);
    if exists i :: 0 <= i < |rs| && rs[i].id.domain != d then Some(DomainMismatch)
    else if !UniqueIds(rs) then Some(DuplicateOperation)
    else if FirstInvalid(rs).Some? then FirstInvalid(rs)
    else if |kept| + |rs| > h.maxItems || TotalBytes(kept) + TotalBytes(rs) > h.maxBytes then Some(HistoryCapacity)
    else None
  }

  ghost function ReplaceDomainSnapshot(h: History, d: Domain, rs: seq<Record>): (History, Result<(), Error>)
  {
    match SnapshotError(h, d, rs)
    case Some(e) => (Reject(h), Err(e))
    case None =>
      var records := OfOtherDomains(h.records, d) + rs;
      (h.(records := records, bytes := TotalBytes(records)), Ok(()))
  }

  predicate ExpiredBefore(r: Record, cutoff: int)
  {
    r.state.IsTerminal() && r.updatedAtUnixMs < cutoff
  }

  function ExpireTerminalBefore(h: History, cutoff: int, maxRemove: nat): (History, nat)
  {
    var records := DropFirst(h.records, maxRemove, (r: Record) => ExpiredBefore(r, cutoff));
    (h.(records := records, bytes := TotalBytes(records)), |h.records| - |records|)
  }

  // ---------- Sizes ----------

  lemma {:induction false} TotalConcat(a: seq<Record>, b: seq<Record>)
    ensures TotalBytes(a + b) == TotalBytes(a) + TotalBytes(b)
  {
    if a == [] {
      assert a + b == b;
    } else {
      TotalConcat(a[1..], b);
      assert (a + b)[1..] == a[1..] + b;
    }
  }

  lemma {:induction false} TotalFilter(rs: seq<Record>, p: Record -> bool)
    ensures TotalBytes(Filter(rs, p)) <= TotalBytes(rs)
  {
    if rs != [] {
      TotalFilter(rs[1..], p);
      TotalConcat([rs[0]], Filter(rs[1..], p));
    }
  }

  lemma {:induction false} TotalDropFirst(rs: seq<Record>, n: nat, p: Record -> bool)
    ensures TotalBytes(DropFirst(rs, n, p)) <= TotalBytes(rs)
  {
    if rs != [] && n != 0 {
      TotalDropFirst(rs[1..], if p(rs[0]) then n - 1 else n, p);
      TotalConcat([rs[0]], DropFirst(rs[1..], n, p));
    }
  }

  // ---------- Subsequences keep identifiers unique and records valid ----------

  ghost predicate Sound(rs: seq<Record>)
  {
    UniqueIds(rs) && forall i :: 0 <= i < |rs| ==> Validate(rs[i]).Ok?
  }

  lemma SoundTail(rs: seq<Record>)
    requires rs != [] && Sound(rs)
    ensures Validate(rs[0]).Ok? && Sound(rs[1..]) && forall x :: x in rs[1..] ==> x.id != rs[0].id
  {
  }

  lemma SoundCons(r: Record, rs: seq<Record>)
    requires Sound(rs) && Validate(r).Ok? && forall x :: x in rs ==> x.id != r.id
    ensures Sound([r] + rs)
  {
    hide Validate;
    var s := [r] + rs;
    forall j | 0 < j < |s| ensures s[j] in rs && s[j] == rs[j - 1] {
    }
  }

  lemma {:induction false} SoundFilter(rs: seq<Record>, p: Record -> bool)
    requires Sound(rs)
    ensures Sound(Filter(rs, p))
  {
    hide Validate, Sound;
    if rs != [] {
      SoundTail(rs);
      SoundFilter(rs[1..], p);
      FilterSound(rs[1..], p);
      if p(rs[0]) {
        SoundCons(rs[0], Filter(rs[1..], p));
      }
    }
  }

  lemma {:induction false} SoundDropFirst(rs: seq<Record>, n: nat, p: Record -> bool)
    requires Sound(rs)
    ensures Sound(DropFirst(rs, n, p))
  {
    hide Validate, Sound;
    if rs != [] && n != 0 {
      SoundTail(rs);
      if p(rs[0]) {
        SoundDropFirst(rs[1..], n - 1, p);
      } else {
        SoundDropFirst(rs[1..], n, p);
        DropFirstSound(rs[1..], n, p);
        SoundCons(rs[0], DropFirst(rs[1..], n, p));
      }
    }
  }

  lemma {:induction false} SoundConcat(a: seq<Record>, b: seq<Record>)
    requires Sound(a) && Sound(b) && forall x, y :: x in a && y in b ==> x.id != y.id
    ensures Sound(a + b)
  {
    hide Validate, Sound;
    if a == [] {
      assert a + b == b;
    } else {
      SoundTail(a);
      assert forall x :: x in a[1..] ==> x in a;
      SoundConcat(a[1..], b);
      SoundCons(a[0], a[1..] + b);
      assert a + b == [a[0]] + (a[1..] + b);
    }
  }

  // ---------- Upsert ----------

  /** No number of evictions frees more than evicting every terminal record. */
  lemma EvictionsLeaveUnresolved(rs: seq<Record>, n: nat)
    ensures Unresolved(EvictFront(rs, n)) == Unresolved(rs)
    ensures |Unresolved(rs)| <= |EvictFront(rs, n)| && TotalBytes(Unresolved(rs)) <= TotalBytes(EvictFront(rs, n))
    ensures n >= Terminals(rs) ==> EvictFront(rs, n) == Unresolved(rs)
  {
    var p, q := (r: Record) => r.state.IsTerminal(), (r: Record) => !r.state.IsTerminal();
    DropFirstKeeps(rs, n, p, q);
    TotalFilter(EvictFront(rs, n), q);
    if n >= Terminals(rs) {
      DropFirstAll(rs, n, p, q);
    }
  }

  /** An upsert succeeds exactly when the record is valid and fits beside the other unresolved work. */
  lemma UpsertSucceedsIff(h: History, r: Record)
    ensures Upsert(h, r).1.Ok? <==> Validate(r).Ok? && HasRoom(h, Unresolved(Others(h.records, r.id)), r)
  {
    hide Validate, Others;
    var others := Others(h.records, r.id);
    EvictionsLeaveUnresolved(others, Terminals(others));
    var needed := Evictions(h, others, r, 0);
    if needed.Some? {
      EvictionsLeaveUnresolved(others, needed.value);
    }
  }

  /** A successful upsert evicts the shortest front-to-back run of other terminal records. */
  lemma UpsertEvictsLeast(h: History, r: Record) returns (n: nat)
    requires Upsert(h, r).1.Ok?
    ensures var h', others := Upsert(h, r).0, Others(h.records, r.id);
            && h'.records == EvictFront(others, n) + [r]
            && n <= Terminals(others)
            && (forall k: nat :: k < n ==> !HasRoom(h, EvictFront(others, k), r))
            && Unresolved(h'.records) == Unresolved(others) + Unresolved([r])
            && |h'.records| == |others| - n + 1
            && h' == h.(records := h'.records, bytes := h'.bytes, evicted := h'.evicted)
            && h'.evicted == if h.evicted + n <= WORD_MAX then h.evicted + n else WORD_MAX
  {
    hide Validate, Others, HasRoom;
    var others := Others(h.records, r.id);
    n := Evictions(h, others, r, 0).value;
    EvictionsLeaveUnresolved(others, n);
    EvictionsLeaveUnresolved(others, Terminals(others));
    RoomAtAll(h, others, r, n);
    FilterConcat(EvictFront(others, n), [r], (x: Record) => !x.state.IsTerminal());
    DropFirstCount(others, n, (x: Record) => x.state.IsTerminal());
  }

  lemma RoomAtAll(h: History, rs: seq<Record>, r: Record, n: nat)
    requires HasRoom(h, EvictFront(rs, n), r)
    ensures HasRoom(h, EvictFront(rs, Terminals(rs)), r)
  {
    EvictionsLeaveUnresolved(rs, n);
    EvictionsLeaveUnresolved(rs, Terminals(rs));
  }

  /** A refused upsert changes the rejection counter and nothing else. */
  lemma UpsertRefusalIsInert(h: History, r: Record)
    requires Upsert(h, r).1.Err?
    ensures Upsert(h, r).0 == h.(rejected := SaturatingAdd(h.rejected, 1))
    ensures Upsert(h, r).1 == Err(if Validate(r).Err? then Validate(r).error else HistoryCapacity)
  {
    hide Validate, Others, Evictions;
  }

  lemma UpsertKeepsValid(h: History, r: Record)
    requires Valid(h)
    ensures Valid(Upsert(h, r).0)
  {
    hide Validate, HasRoom;
    if Upsert(h, r).1.Ok? {
      var others := Others(h.records, r.id);
      var n := Evictions(h, others, r, 0).value;
      var kept := EvictFront(others, n);
      assert Sound(h.records);
      SoundFilter(h.records, (x: Record) => x.id != r.id);
      FilterSound(h.records, (x: Record) => x.id != r.id);
      SoundDropFirst(others, n, (x: Record) => x.state.IsTerminal());
      DropFirstSound(others, n, (x: Record) => x.state.IsTerminal());
      assert Sound([r]);
      SoundConcat(kept, [r]);
      TotalConcat(kept, [r]);
      RoomMeans(h, kept, r);
    }
  }

  lemma RoomMeans(h: History, rs: seq<Record>, r: Record)
    requires HasRoom(h, rs, r)
    ensures |rs| + 1 <= h.maxItems && TotalBytes(rs) + TotalBytes([r]) <= h.maxBytes
  {
  }

  lemma RemoveKeepsValid(h: History, id: Id)
    requires Valid(h)
    ensures Valid(Remove(h, id).0)
    ensures Find(Remove(h, id).0.records, id) == None
  {
    hide Validate;
    var p := (x: Record) => x.id != id;
    assert Sound(h.records);
    SoundFilter(h.records, p);
    FilterSound(h.records, p);
    TotalFilter(h.records, p);
  }

  // ---------- Domain snapshots ----------

  /** Either the whole domain becomes the snapshot or no record changes; other domains never change. */
  lemma SnapshotIsAllOrNothing(h: History, d: Domain, rs: seq<Record>)
    ensures var (h', r) := ReplaceDomainSnapshot(h, d, rs);
            && OfOtherDomains(h'.records, d) == OfOtherDomains(h.records, d)
            && (r.Ok? ==> OfDomain(h'.records, d) == rs && h' == h.(records := h'.records, bytes := h'.bytes))
            && (r.Err? ==> h' == h.(rejected := SaturatingAdd(h.rejected, 1)))
  {
    hide Validate, FirstInvalid, TotalBytes;
    if SnapshotError(h, d, rs).None? {
      SnapshotRecords(h.records, d, rs);
    }
  }

  lemma SnapshotRecords(before: seq<Record>, d: Domain, rs: seq<Record>)
    requires forall i :: 0 <= i < |rs| ==> rs[i].id.domain == d
    ensures OfOtherDomains(OfOtherDomains(before, d) + rs, d) == OfOtherDomains(before, d)
    ensures OfDomain(OfOtherDomains(before, d) + rs, d) == rs
  {
    var p, q := (r: Record) => r.id.domain != d, (r: Record) => r.id.domain == d;
    var kept := OfOtherDomains(before, d);
    FilterSound(before, p);
    FilterConcat(kept, rs, p);
    FilterConcat(kept, rs, q);
    FilterKeepsAll(kept, p);
    FilterKeepsNone(kept, q);
    FilterKeepsAll(rs, q);
    FilterKeepsNone(rs, p);
  }

  lemma SnapshotIsIdempotent(h: History, d: Domain, rs: seq<Record>)
    requires ReplaceDomainSnapshot(h, d, rs).1.Ok?
    ensures ReplaceDomainSnapshot(ReplaceDomainSnapshot(h, d, rs).0, d, rs) == ReplaceDomainSnapshot(h, d, rs)
  {
    hide Validate, FirstInvalid, TotalBytes;
    SnapshotRecords(h.records, d, rs);
  }

  lemma SnapshotKeepsValid(h: History, d: Domain, rs: seq<Record>)
    requires Valid(h)
    ensures Valid(ReplaceDomainSnapshot(h, d, rs).0)
  {
    hide Validate;
    if SnapshotError(h, d, rs).None? {
      var p := (r: Record) => r.id.domain != d;
      var kept := OfOtherDomains(h.records, d);
      assert Sound(h.records);
      SoundFilter(h.records, p);
      FilterSound(h.records, p);
      SoundConcat(kept, rs);
      TotalConcat(kept, rs);
    }
  }

  // ---------- Expiry ----------

  lemma ExpireKeepsValid(h: History, cutoff: int, n: nat)
    requires Valid(h)
    ensures Valid(ExpireTerminalBefore(h, cutoff, n).0)
  {
    hide Validate;
    var p := (r: Record) => ExpiredBefore(r, cutoff);
    assert Sound(h.records);
    SoundDropFirst(h.records, n, p);
    TotalDropFirst(h.records, n, p);
  }

  /** Two batches at one cutoff are one batch of their sum, in state and in count. */
  lemma ExpireBatches(h: History, cutoff: int, a: nat, b: nat)
    ensures var (h1, removed1) := ExpireTerminalBefore(h, cutoff, a);
            var (h2, removed2) := ExpireTerminalBefore(h1, cutoff, b);
            ExpireTerminalBefore(h, cutoff, a + b) == (h2, removed1 + removed2)
  {
    DropFirstAdd(h.records, a, b, (r: Record) => ExpiredBefore(r, cutoff));
  }

  function ExpireRepeatedly(h: History, cutoff: int, batch: nat, times: nat): History
    decreases times
  {
    if times == 0 then h else ExpireRepeatedly(ExpireTerminalBefore(h, cutoff, batch).0, cutoff, batch, times - 1)
  }

  /** Positive batches, repeated once per stored record, remove every expired record and nothing else. */
  lemma {:induction false} ExpireRepeatedlyClears(h: History, cutoff: int, batch: nat, times: nat)
    requires batch > 0 && times >= |h.records|
    ensures ExpireRepeatedly(h, cutoff, batch, times).records
         == Filter(h.records, (r: Record) => !ExpiredBefore(r, cutoff))
  {
    hide ExpireRepeatedly, DropFirst, Filter;
    ExpireRepeatedlyAdds(h, cutoff, batch, times);
    PositiveBatches(batch, times);
    DropFirstAll(h.records, batch * times,
                 (r: Record) => ExpiredBefore(r, cutoff), (r: Record) => !ExpiredBefore(r, cutoff));
  }

  lemma {:induction false} PositiveBatches(batch: nat, times: nat)
    requires batch > 0
    ensures batch * times >= times
  {
    if times > 0 {
      PositiveBatches(batch, times - 1);
      assert batch * times == batch * (times - 1) + batch;
    }
  }

  lemma {:induction false} ExpireRepeatedlyAdds(h: History, cutoff: int, batch: nat, times: nat)
    ensures ExpireRepeatedly(h, cutoff, batch, times).records
         == DropFirst(h.records, batch * times, (r: Record) => ExpiredBefore(r, cutoff))
    decreases times
  {
    if times > 0 {
      var h' := ExpireTerminalBefore(h, cutoff, batch).0;
      ExpireRepeatedlyAdds(h', cutoff, batch, times - 1);
      DropFirstAdd(h.records, batch, batch * (times - 1), (r: Record) => ExpiredBefore(r, cutoff));
      assert batch + batch * (times - 1) == batch * times;
    }
  }

  // ---------- Whole runs ----------

  datatype Command =
    | DoUpsert(record: Record)
    | DoRemove(id: Id)
    | DoReplace(domain: Domain, snapshot: seq<Record>)
    | DoExpire(cutoff: int, maxRemove: nat)

  ghost function Step(h: History, c: Command): History
  {
    match c
    case DoUpsert(r) => Upsert(h, r).0
    case DoRemove(id) => Remove(h, id).0
    case DoReplace(d, rs) => ReplaceDomainSnapshot(h, d, rs).0
    case DoExpire(cutoff, n) => ExpireTerminalBefore(h, cutoff, n).0
  }

  ghost function Run(h: History, cs: seq<Command>): History
    decreases cs
  {
    if cs == [] then h else Run(Step(h, cs[0]), cs[1..])
  }

  function Empty(maxItems: nat, maxBytes: nat): History
  {
    History([], 0, 0, 0, if maxItems < 1 then 1 else maxItems, if maxBytes < 1 then 1 else maxBytes)
  }

  lemma {:induction false} RunKeepsValid(h: History, cs: seq<Command>)
    requires Valid(h)
    ensures Valid(Run(h, cs))
    ensures Run(h, cs).maxItems == h.maxItems && Run(h, cs).maxBytes == h.maxBytes
    decreases cs
  {
    hide Valid, Upsert, Remove, ReplaceDomainSnapshot, ExpireTerminalBefore;
    if cs != [] {
      match cs[0] {
        case DoUpsert(r) => UpsertKeepsValid(h, r);
        case DoRemove(id) => RemoveKeepsValid(h, id);
        case DoReplace(d, rs) => SnapshotKeepsValid(h, d, rs);
        case DoExpire(cutoff, n) => ExpireKeepsValid(h, cutoff, n);
      }
      StepKeepsBudgets(h, cs[0]);
      RunKeepsValid(Step(h, cs[0]), cs[1..]);
    }
  }

  lemma StepKeepsBudgets(h: History, c: Command)
    ensures Step(h, c).maxItems == h.maxItems && Step(h, c).maxBytes == h.maxBytes
  {
    hide Validate, Evictions, SnapshotError, TotalBytes, DropFirst, Filter;
  }

  /**
   * Every history that any sequence of commands can reach has unique identifiers and valid
   * records, accounts for its bytes exactly and stays within both budgets; so a record never
   * claims delivery to a peer without authoritative evidence of it.
   */
  lemma ReachableHistory(maxItems: nat, maxBytes: nat, cs: seq<Command>)
    ensures var h := Run(Empty(maxItems, maxBytes), cs);
            && UniqueIds(h.records)
            && (forall i :: 0 <= i < |h.records| ==> Validate(h.records[i]).Ok?)
            && h.bytes == TotalBytes(h.records) <= Empty(maxItems, maxBytes).maxBytes
            && |h.records| <= Empty(maxItems, maxBytes).maxItems
            && forall i :: 0 <= i < |h.records| && h.records[i].state == Delivered ==>
                 exists j :: 0 <= j < |h.records[i].evidence| && ProvesDelivery(h.records[i].evidence[j])
  {
    hide Run, TotalBytes, ProvesDelivery;
    var start := Empty(maxItems, maxBytes);
    EmptyIsValid(maxItems, maxBytes);
    RunKeepsValid(start, cs);
    var h := Run(start, cs);
    forall i | 0 <= i < |h.records| && h.records[i].state == Delivered
      ensures exists j :: 0 <= j < |h.records[i].evidence| && ProvesDelivery(h.records[i].evidence[j])
    {
      assert Validate(h.records[i]).Ok?;
    }
  }

  lemma EmptyIsValid(maxItems: nat, maxBytes: nat)
    ensures Valid(Empty(maxItems, maxBytes))
  {
  }
}
