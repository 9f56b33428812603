/**
 * The directory service (src/directory.rs) as a state machine over its memory and its file:
 * announce ingestion, settings with rollback, pruning, and debounced saving.
 */
module Directory {
  import opened Common
  import opened Ordering
  import opened Seqs
  import opened StableSort

  const ANNOUNCE_STREAM_MAXLENGTH: nat := 256
  const TRANSIENT_ENTRY_RETENTION_SECONDS: real := 21600.0
  const TRANSIENT_ENTRY_MAXCOUNT: nat := 1024
  const DUPLICATE_ANNOUNCE_SAVE_COOLDOWN_SECONDS: real := 300.0
  const LIVE_ANNOUNCE_SAVE_DEBOUNCE_SECONDS: real := 30.0
  const MAX_ENTRIES: nat := 4096
  const MAX_DESTINATION_BYTES: nat := 1024
  const MAX_DISPLAY_NAME_BYTES: nat := 16 * 1024
  const MAX_ASSOCIATED_HASH_BYTES: nat := 1024
  const IDENTITY_HASH_BYTES: nat := 32

  type Hash = Bytes

  datatype Kind = Node | Peer | Propagation | OmenChat | UnknownKind
  datatype Trust = Warning | Untrusted | UnknownTrust | Trusted
  datatype Delivery = Direct | Propagated | DirectOnly | PropagatedOnly
  datatype Fallback = Ask | Automatic

  datatype Entry = Entry(
    destinationHash: Hash,
    identityHash: Option<Hash>,
    displayName: Bytes,
    kind: Kind,
    trusted: bool,
    trustLevel: Trust,
    saved: bool,
    identifyOnConnect: bool,
    preferredDelivery: Option<Delivery>,
    deliveryFallback: Fallback,
    maxAutomaticDirectStampCost: Option<nat>,
    askAboveDirectStampCost: Option<nat>,
    offerReplyTicket: Option<bool>,
    sortRank: Option<int>,
    hostsNode: bool,
    associatedHash: Option<Hash>,
    nodeAssociatedHash: Option<Hash>,
    lxmfStampCost: Option<nat>,
    lastSeen: real)

  function NewEntry(h: Hash, name: Bytes, kind: Kind): Entry
  {
    Entry(h, None, name, kind, false, UnknownTrust, false, false, None, Ask, None, None, None, None,
          kind == Node, None, None, None, 0.0)
  }

  predicate IsPersistent(e: Entry)
  {
    || e.saved || e.trusted || e.identifyOnConnect || e.preferredDelivery.Some?
    || e.deliveryFallback != Ask || e.maxAutomaticDirectStampCost.Some?
    || e.askAboveDirectStampCost.Some? || e.offerReplyTicket.Some?
  }

  /** `directory_entries_match_ignoring_last_seen` */
  predicate SameButLastSeen(a: Entry, b: Entry)
  {
    a.(lastSeen := b.lastSeen) == b
  }

  // ---------- Bounds on stored text ----------

  predicate IsHexDigit(b: byte) { 48 <= b <= 57 || 65 <= b <= 70 || 97 <= b <= 102 }

  predicate ValidStrings(h: Hash, identity: Option<Hash>, name: Bytes, associated: Option<Hash>, node: Option<Hash>)
  {
    && |h| <= MAX_DESTINATION_BYTES
    && |name| <= MAX_DISPLAY_NAME_BYTES
    && (identity.Some? ==>
          && |identity.value| == IDENTITY_HASH_BYTES
          && forall i :: 0 <= i < |identity.value| ==> IsHexDigit(identity.value[i]))
    && (associated.Some? ==> |associated.value| <= MAX_ASSOCIATED_HASH_BYTES)
    && (node.Some? ==> |node.value| <= MAX_ASSOCIATED_HASH_BYTES)
  }

  predicate ValidAnnounce(a: Announce)
  {
    ValidStrings(a.destinationHash, a.identityHash, a.displayName, a.associatedHash, a.nodeAssociatedHash)
  }

  predicate ValidEntry(e: Entry)
  {
    ValidStrings(e.destinationHash, e.identityHash, e.displayName, e.associatedHash, e.nodeAssociatedHash)
  }

  // ---------- Display names (letters and blanks of ASCII) ----------

  predicate IsBlank(b: byte) { b == 32 || 9 <= b <= 13 }

  function TrimStart(s: Bytes): Bytes { if s != [] && IsBlank(s[0]) then TrimStart(s[1..]) else s }

  function TrimEnd(s: Bytes): Bytes { if s != [] && IsBlank(s[|s| - 1]) then TrimEnd(s[..|s| - 1]) else s }

  predicate IsPlaceholderName(name: Bytes, h: Hash)
  {
    var t := TrimEnd(TrimStart(name));
    || t == [] || EqIgnoreCase(t, h) || EqIgnoreCase(t, Take(h, 8))
    || (t[0] == 60 && t[|t| - 1] == 62)
  }

  function PreferredDisplayName(incoming: Bytes, existing: Option<Bytes>, h: Hash): (name: Bytes)
    ensures |incoming| <= MAX_DISPLAY_NAME_BYTES && (existing.Some? ==> |existing.value| <= MAX_DISPLAY_NAME_BYTES) ==>
              |name| <= MAX_DISPLAY_NAME_BYTES
  {
    if IsPlaceholderName(incoming, h) && existing.Some? && !IsPlaceholderName(existing.value, h) then existing.value
    else if incoming != [] then incoming
    else if existing.Some? then existing.value
    else Take(h, 8)
  }

  // ---------- States ----------

  datatype Memory = Memory(entries: map<Hash, Entry>, stream: seq<Entry>, pending: bool, due: real)

  /** The file's contents, by destination. */
  datatype Store = Store(entries: map<Hash, Entry>, stream: seq<Entry>)

  datatype World = World(mem: Memory, disk: Store)

  // ---------- Pruning ----------

  predicate IsStale(e: Entry, now: real)
  {
    now - e.lastSeen > TRANSIENT_ENTRY_RETENTION_SECONDS
  }

  /** What orders transient entries for eviction: how long unseen, then the hash. */
  datatype Key = Key(lastSeen: real, hash: Hash)

  predicate KeyLeq(a: Key, b: Key)
  {
    if a.lastSeen == b.lastSeen then LexLeq(a.hash, b.hash) else a.lastSeen < b.lastSeen
  }

  predicate KeyLess(a: Key, b: Key) { KeyLeq(a, b) && a != b }

  function StaleHashes(m: map<Hash, Entry>, now: real): set<Hash>
  {
    set h | h in m && !IsPersistent(m[h]) && IsStale(m[h], now)
  }

  /** The transient entries that are still fresh. */
  function FreshKeys(m: map<Hash, Entry>, now: real): set<Key>
  {
    set h | h in m && !IsPersistent(m[h]) && !IsStale(m[h], now) :: Key(m[h].lastSeen, h)
  }

  /** The `n` least of `keys`: those with fewer than `n` keys below them. */
  function Least(keys: set<Key>, n: nat): set<Key>
  {
    set k | k in keys && |Below(keys, k)| < n
  }

  function Below(keys: set<Key>, k: Key): set<Key>
  {
    set l | l in keys && KeyLess(l, k)
  }

  function Overflow(m: map<Hash, Entry>, now: real): set<Hash>
  {
    var keys := FreshKeys(m, now);
    var excess := if |keys| > TRANSIENT_ENTRY_MAXCOUNT then |keys| - TRANSIENT_ENTRY_MAXCOUNT else 0;
    set k | k in Least(keys, excess) :: k.hash
  }

  function Removable(m: map<Hash, Entry>, now: real): set<Hash>
  {
    StaleHashes(m, now) + Overflow(m, now)
  }

  function FreshStream(stream: seq<Entry>, now: real): seq<Entry>
  {
    Filter(stream, (e: Entry) => IsPersistent(e) || !IsStale(e, now))
  }

  function Without(stream: seq<Entry>, hashes: set<Hash>): seq<Entry>
  {
    Filter(stream, (e: Entry) => e.destinationHash !in hashes)
  }

  function Prune(m: Memory, now: real): Memory
  {
    var removable := Removable(m.entries, now);
    m.(entries := m.entries - removable,
       stream := Without(Take(FreshStream(m.stream, now), ANNOUNCE_STREAM_MAXLENGTH), removable))
  }

  /** Whether pruning removed anything; cutting an overlong stream does not count. */
  predicate PruneChanges(m: Memory, now: real)
  {
    |FreshStream(m.stream, now)| != |m.stream| || Removable(m.entries, now) != {}
  }

  // ---------- Saving ----------

  predicate ValidStore(s: Store)
  {
    && |s.entries| <= MAX_ENTRIES
    && (forall h :: h in s.entries ==> ValidEntry(s.entries[h]))
    && (forall i :: 0 <= i < |s.stream| ==> ValidEntry(s.stream[i]))
  }

  function Snapshot(m: Memory, now: real): Store
  {
    var pruned := Prune(m, now);
    Store(pruned.entries, Take(pruned.stream, ANNOUNCE_STREAM_MAXLENGTH))
  }

  /** One attempt to save at `now`; `published` says whether the file system takes the new file. */
  datatype Attempt = Attempt(now: real, published: bool)

  predicate Saves(m: Memory, a: Attempt) { a.published && ValidStore(Snapshot(m, a.now)) }

  function Save(w: World, a: Attempt): World
  {
    if Saves(w.mem, a) then World(w.mem.(pending := false, due := 0.0), Snapshot(w.mem, a.now)) else w
  }

  function ScheduleLiveSave(m: Memory, now: real): Memory
  {
    var due := now + LIVE_ANNOUNCE_SAVE_DEBOUNCE_SECONDS;
    if !m.pending || m.due > due then m.(pending := true, due := due) else m
  }

  // ---------- Announces ----------

  datatype Announce = Announce(
    destinationHash: Hash, displayName: Bytes, kind: Kind, identityHash: Option<Hash>,
    associatedHash: Option<Hash>, nodeAssociatedHash: Option<Hash>, lxmfStampCost: Option<nat>)

  /** The clock is read when the entry is stamped, when it prunes and when it schedules. */
  datatype Times = Times(seen: real, prune: real, schedule: real)

  function OrElse<T>(a: Option<T>, b: Option<T>): Option<T> { if a.Some? then a else b }

  function Lookup(m: map<Hash, Entry>, h: Hash): Option<Entry> { if h in m then Some(m[h]) else None }

  predicate IdentityConflict(existing: Option<Entry>, a: Announce)
  {
    && existing.Some? && existing.value.identityHash.Some? && a.identityHash.Some?
    && !EqIgnoreCase(existing.value.identityHash.value, a.identityHash.value)
  }

  predicate Accepts(m: Memory, a: Announce)
  {
    && ValidAnnounce(a)
    && !IdentityConflict(Lookup(m.entries, a.destinationHash), a)
  }

  /** The entry an announce produces.  A known entry keeps its settings, except `offerReplyTicket`. */
  function Announced(existing: Option<Entry>, a: Announce, now: real): Entry
  {
    var name := PreferredDisplayName(a.displayName, if existing.Some? then Some(existing.value.displayName) else None,
                                     a.destinationHash);
    var base := NewEntry(a.destinationHash, name, a.kind);
    var merged :=
      if existing.Some? then
        var known := existing.value;
        base.(identityHash := OrElse(a.identityHash, known.identityHash),
               trustLevel := known.trustLevel, trusted := known.trusted, saved := known.saved,
               identifyOnConnect := known.identifyOnConnect, preferredDelivery := known.preferredDelivery,
               deliveryFallback := known.deliveryFallback,
               maxAutomaticDirectStampCost := known.maxAutomaticDirectStampCost,
               askAboveDirectStampCost := known.askAboveDirectStampCost,
               sortRank := known.sortRank, hostsNode := known.hostsNode || a.kind == Node,
               associatedHash := OrElse(a.associatedHash, known.associatedHash),
               nodeAssociatedHash := OrElse(a.nodeAssociatedHash, known.nodeAssociatedHash),
               lxmfStampCost := OrElse(a.lxmfStampCost, known.lxmfStampCost))
      else
        base.(identityHash := a.identityHash, associatedHash := a.associatedHash,
               nodeAssociatedHash := a.nodeAssociatedHash, lxmfStampCost := a.lxmfStampCost);
    merged.(lastSeen := now, saved := merged.saved || (a.kind == Node && merged.trustLevel == Trusted))
  }

  predicate ShouldSave(existing: Option<Entry>, e: Entry, now: real)
  {
    || existing.None?
    || !SameButLastSeen(existing.value, e)
    || now - existing.value.lastSeen >= DUPLICATE_ANNOUNCE_SAVE_COOLDOWN_SECONDS
  }

  /** Memory with the announced entry in place and at the front of the stream, before pruning. */
  function Entered(m: Memory, a: Announce, now: real): Memory
  {
    var e := Announced(Lookup(m.entries, a.destinationHash), a, now);
    var stream := [e] + Filter(m.stream, (x: Entry) => x.destinationHash != a.destinationHash);
    m.(entries := m.entries[a.destinationHash := e], stream := Take(stream, ANNOUNCE_STREAM_MAXLENGTH))
  }

  function Ingest(m: Memory, a: Announce, t: Times): Memory
  {
    if !Accepts(m, a) then m
    else
      var existing := Lookup(m.entries, a.destinationHash);
      var m1 := Entered(m, a, t.seen);
      var m2 := Prune(m1, t.prune);
      if ShouldSave(existing, m1.entries[a.destinationHash], t.seen) || PruneChanges(m1, t.prune)
      then ScheduleLiveSave(m2, t.schedule) else m2
  }

  // ---------- Settings ----------

  datatype Change =
    | SaveEntry | RemoveSaved | SetTrust(trust: Trust) | SetPreferredDelivery(delivery: Option<Delivery>)
    | SetFallback(fallback: Fallback) | SetMaxStampCost(cost: Option<nat>) | SetAskAboveStampCost(cost: Option<nat>)
    | SetOfferReplyTicket(offer: Option<bool>) | SetIdentifyOnConnect(enabled: bool)

  function Apply(e: Entry, c: Change): Entry
  {
    match c
    case SaveEntry => e.(saved := true)
    case RemoveSaved =>
      e.(saved := false, trusted := false, trustLevel := UnknownTrust, identifyOnConnect := false,
         preferredDelivery := None, deliveryFallback := Ask, maxAutomaticDirectStampCost := None,
         askAboveDirectStampCost := None, offerReplyTicket := None)
    case SetTrust(level) =>
      e.(trusted := level == Trusted, trustLevel := level, saved := e.saved || level == Trusted)
    case SetPreferredDelivery(d) => e.(preferredDelivery := d, saved := true)
    case SetFallback(f) => e.(deliveryFallback := f, saved := true)
    case SetMaxStampCost(n) => e.(maxAutomaticDirectStampCost := n, saved := true)
    case SetAskAboveStampCost(n) => e.(askAboveDirectStampCost := n, saved := true)
    case SetOfferReplyTicket(o) => e.(offerReplyTicket := o, saved := true)
    case SetIdentifyOnConnect(b) => e.(identifyOnConnect := b, saved := true)
  }

  function FindInStream(stream: seq<Entry>, h: Hash): (r: Option<Entry>)
    ensures r.Some? ==> r.value in stream && r.value.destinationHash == h
  {
    if stream == [] then None
    else if stream[0].destinationHash == h then Some(stream[0])
    else FindInStream(stream[1..], h)
  }

  function Find(m: Memory, h: Hash): Option<Entry>
  {
    if h in m.entries then Some(m.entries[h]) else FindInStream(m.stream, h)
  }

  /** A setting is kept only if it reaches the disk. */
  function Update(w: World, h: Hash, c: Change, a: Attempt): World
  {
    match Find(w.mem, h)
    case None => w
    case Some(e) =>
      var changed := w.mem.(entries := w.mem.entries[h := Apply(e, c)]);
      if Saves(changed, a) then Save(w.(mem := changed), a) else w
  }

  function ClearTransientAnnounces(w: World, a: Attempt): World
  {
    var cleared := w.mem.(stream := []);
    if Saves(cleared, a) then Save(w.(mem := cleared), a) else w
  }

  function FlushPendingSave(w: World, a: Attempt): World
  {
    if w.mem.pending then Save(w, a) else w
  }

  function FlushDueSave(w: World, clock: real, a: Attempt): World
  {
    if w.mem.pending && w.mem.due <= clock then Save(w, a) else w
  }

  /**
   * Start-up from a readable file, with the announce stream it holds or one rebuilt from its entries:
   * pruning that removes something must be saved, or start-up fails.
   */
  function Load(file: Store, stream: seq<Entry>, now: real, a: Attempt): Option<World>
  {
    var m := Memory(file.entries, Take(stream, ANNOUNCE_STREAM_MAXLENGTH), false, 0.0);
    var pruned := Prune(m, now);
    if !PruneChanges(m, now) then Some(World(pruned, file))
    else if Saves(pruned, a) then Some(Save(World(pruned, file), a))
    else None
  }
}
