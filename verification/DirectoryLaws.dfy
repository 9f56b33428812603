/**
 * What the directory's settings, names, announces and pruning come to, field by field (src/directory.rs):
 * laws that do not mention the functions that compute them.
 */
module DirectoryLaws {
  import opened Common
  import opened Ordering
  import opened Seqs
  import opened StableSort
  import opened Directory
  import opened DirectoryPruning

  // ---------- Setters ----------

  /** Each setter sets the field it is named after. */
  lemma SetterSets(e: Entry, c: Change)
    ensures var e' := Apply(e, c);
            match c
            case SaveEntry => e'.saved
            case RemoveSaved => !e'.saved && !IsPersistent(e') && !e'.trusted && e'.trustLevel == UnknownTrust
            case SetTrust(level) =>
              && e'.trustLevel == level && (e'.trusted <==> level == Trusted)
              && (e'.saved <==> e.saved || level == Trusted)
            case SetPreferredDelivery(d) => e'.preferredDelivery == d && e'.saved
            case SetFallback(f) => e'.deliveryFallback == f && e'.saved
            case SetMaxStampCost(n) => e'.maxAutomaticDirectStampCost == n && e'.saved
            case SetAskAboveStampCost(n) => e'.askAboveDirectStampCost == n && e'.saved
            case SetOfferReplyTicket(o) => e'.offerReplyTicket == o && e'.saved
            case SetIdentifyOnConnect(b) => e'.identifyOnConnect == b && e'.saved
  {
  }

  /** No setter touches what an entry is known by, and none but removal touches another setter's field. */
  lemma SetterKeeps(e: Entry, c: Change)
    ensures var e' := Apply(e, c);
            && e'.destinationHash == e.destinationHash && e'.identityHash == e.identityHash
            && e'.displayName == e.displayName && e'.kind == e.kind && e'.sortRank == e.sortRank
            && e'.hostsNode == e.hostsNode && e'.associatedHash == e.associatedHash
            && e'.nodeAssociatedHash == e.nodeAssociatedHash && e'.lxmfStampCost == e.lxmfStampCost
            && e'.lastSeen == e.lastSeen
            && (!c.RemoveSaved? ==>
                  && (!c.SetTrust? ==> e'.trusted == e.trusted && e'.trustLevel == e.trustLevel)
                  && (!c.SetPreferredDelivery? ==> e'.preferredDelivery == e.preferredDelivery)
                  && (!c.SetFallback? ==> e'.deliveryFallback == e.deliveryFallback)
                  && (!c.SetMaxStampCost? ==> e'.maxAutomaticDirectStampCost == e.maxAutomaticDirectStampCost)
                  && (!c.SetAskAboveStampCost? ==> e'.askAboveDirectStampCost == e.askAboveDirectStampCost)
                  && (!c.SetOfferReplyTicket? ==> e'.offerReplyTicket == e.offerReplyTicket)
                  && (!c.SetIdentifyOnConnect? ==> e'.identifyOnConnect == e.identifyOnConnect))
  {
  }

  predicate SameSetter(c: Change, d: Change)
  {
    || (c.SaveEntry? && d.SaveEntry?) || (c.SetTrust? && d.SetTrust?)
    || (c.SetPreferredDelivery? && d.SetPreferredDelivery?) || (c.SetFallback? && d.SetFallback?)
    || (c.SetMaxStampCost? && d.SetMaxStampCost?) || (c.SetAskAboveStampCost? && d.SetAskAboveStampCost?)
    || (c.SetOfferReplyTicket? && d.SetOfferReplyTicket?) || (c.SetIdentifyOnConnect? && d.SetIdentifyOnConnect?)
  }

  /** Settings of different fields can be made in either order. */
  lemma SettersCommute(e: Entry, c: Change, d: Change)
    requires !c.RemoveSaved? && !d.RemoveSaved? && !SameSetter(c, d)
    ensures Apply(Apply(e, c), d) == Apply(Apply(e, d), c)
  {
  }

  /** An entry is transient exactly if it has the settings of a new one, whatever is known about it. */
  lemma TransientIff(e: Entry)
    ensures !IsPersistent(e) <==>
            e == NewEntry(e.destinationHash, e.displayName, e.kind).(
                   identityHash := e.identityHash, trustLevel := e.trustLevel, sortRank := e.sortRank,
                   hostsNode := e.hostsNode, associatedHash := e.associatedHash,
                   nodeAssociatedHash := e.nodeAssociatedHash, lxmfStampCost := e.lxmfStampCost, lastSeen := e.lastSeen)
  {
  }

  // ---------- Names ----------

  ghost predicate AllBlank(s: Bytes) { forall i :: 0 <= i < |s| ==> s[i] == 32 || 9 <= s[i] <= 13 }

  /** A name with nothing blank at either end. */
  ghost predicate IsTrimmed(s: Bytes)
  {
    s != [] ==> !AllBlank([s[0]]) && !AllBlank([s[|s| - 1]])
  }

  lemma {:induction false} TrimStartPads(pad: Bytes, s: Bytes)
    requires AllBlank(pad)
    ensures TrimStart(pad + s) == TrimStart(s)
    decreases |pad|
  {
    if pad == [] {
      assert pad + s == s;
    } else {
      TrimStartPads(pad[1..], s);
      assert (pad + s)[1..] == pad[1..] + s;
    }
  }

  lemma {:induction false} TrimEndPads(s: Bytes, pad: Bytes)
    requires AllBlank(pad)
    ensures TrimEnd(s + pad) == TrimEnd(s)
    decreases |pad|
  {
    if pad == [] {
      assert s + pad == s;
    } else {
      TrimEndPads(s, pad[..|pad| - 1]);
      assert (s + pad)[..|s + pad| - 1] == s + pad[..|pad| - 1];
    }
  }

  lemma TrimsTo(x: Bytes, core: Bytes, y: Bytes)
    requires AllBlank(x) && AllBlank(y) && IsTrimmed(core)
    ensures TrimEnd(TrimStart(x + core + y)) == core
  {
    hide TrimStart, TrimEnd;
    assert x + core + y == x + (core + y);
    TrimStartPads(x, core + y);
    TrimmedCore(core, y);
  }

  lemma TrimmedCore(core: Bytes, y: Bytes)
    requires AllBlank(y) && IsTrimmed(core)
    ensures TrimEnd(TrimStart(core + y)) == core
  {
    if core == [] {
      assert core + y == y + [];
      TrimStartPads(y, []);
    } else {
      TrimEndPads(core, y);
    }
  }

  /** A placeholder is a blank name, the hash or its first eight bytes in any case, or anything in angle brackets. */
  lemma PlaceholderIff(x: Bytes, core: Bytes, y: Bytes, h: Hash)
    requires AllBlank(x) && AllBlank(y) && IsTrimmed(core)
    ensures IsPlaceholderName(x + core + y, h) <==>
            || core == []
            || EqIgnoreCase(core, h)
            || EqIgnoreCase(core, if |h| < 8 then h else h[..8])
            || (core[0] == 60 && core[|core| - 1] == 62)
  {
    hide TrimStart, TrimEnd, EqIgnoreCase;
    TrimsTo(x, core, y);
    assert Take(h, 8) == if |h| < 8 then h else h[..8];
  }

  /**
   * A real incoming name is taken; a placeholder never displaces a real one; between placeholders the
   * incoming one is taken unless it is empty, and then what was known, or the start of the hash.
   */
  lemma PreferredNameIs(incoming: Bytes, existing: Option<Bytes>, h: Hash)
    ensures var name := PreferredDisplayName(incoming, existing, h);
            var known := existing.Some? && !IsPlaceholderName(existing.value, h);
            && (!IsPlaceholderName(incoming, h) ==> name == incoming)
            && (IsPlaceholderName(incoming, h) && known ==> name == existing.value)
            && (IsPlaceholderName(incoming, h) && !known ==>
                  name == if incoming != [] then incoming
                          else if existing.Some? then existing.value
                          else if |h| < 8 then h else h[..8])
  {
    EmptyIsPlaceholder(h);
  }

  lemma EmptyIsPlaceholder(h: Hash)
    ensures IsPlaceholderName([], h)
  {
  }

  // ---------- Announces ----------

  /** What an announce brings is taken, and what it leaves out stays as it was known. */
  lemma AnnouncedFields(existing: Option<Entry>, a: Announce, now: real)
    ensures var e := Announced(existing, a, now);
            && e.destinationHash == a.destinationHash && e.kind == a.kind && e.lastSeen == now
            && (a.identityHash.Some? ==> e.identityHash == a.identityHash)
            && (a.associatedHash.Some? ==> e.associatedHash == a.associatedHash)
            && (a.nodeAssociatedHash.Some? ==> e.nodeAssociatedHash == a.nodeAssociatedHash)
            && (a.lxmfStampCost.Some? ==> e.lxmfStampCost == a.lxmfStampCost)
            && (existing.Some? ==>
                  && (a.identityHash.None? ==> e.identityHash == existing.value.identityHash)
                  && (a.associatedHash.None? ==> e.associatedHash == existing.value.associatedHash)
                  && (a.nodeAssociatedHash.None? ==> e.nodeAssociatedHash == existing.value.nodeAssociatedHash)
                  && (a.lxmfStampCost.None? ==> e.lxmfStampCost == existing.value.lxmfStampCost)
                  && (e.hostsNode <==> existing.value.hostsNode || a.kind == Node)
                  && (e.saved <==> existing.value.saved || (a.kind == Node && existing.value.trustLevel == Trusted)))
            && (existing.None? ==>
                  && !e.saved && !e.trusted && e.trustLevel == UnknownTrust && (e.hostsNode <==> a.kind == Node)
                  && (a.identityHash.None? ==> e.identityHash.None?)
                  && (a.associatedHash.None? ==> e.associatedHash.None?)
                  && (a.nodeAssociatedHash.None? ==> e.nodeAssociatedHash.None?)
                  && (a.lxmfStampCost.None? ==> e.lxmfStampCost.None?))
  {
    hide PreferredDisplayName;
  }

  /** A name that is no placeholder is taken over, and a placeholder never displaces one. */
  lemma AnnouncedName(existing: Option<Entry>, a: Announce, now: real)
    ensures var (name, h) := (Announced(existing, a, now).displayName, a.destinationHash);
            && (!IsPlaceholderName(a.displayName, h) ==> name == a.displayName)
            && (IsPlaceholderName(a.displayName, h) && existing.Some? ==>
                  IsPlaceholderName(existing.value.displayName, h) || name == existing.value.displayName)
  {
    hide PreferredDisplayName, IsPlaceholderName;
    var known := if existing.Some? then Some(existing.value.displayName) else None;
    PreferredNameIs(a.displayName, known, a.destinationHash);
  }

  /** An announce is worth saving unless it repeats a known entry less than 300 seconds after the last. */
  lemma WorthSavingIff(existing: Option<Entry>, e: Entry, now: real)
    ensures !ShouldSave(existing, e, now) <==>
            existing.Some? && e == existing.value.(lastSeen := e.lastSeen) && now - existing.value.lastSeen < 300.0
  {
  }

  predicate IsHex(s: Bytes)
  {
    forall i :: 0 <= i < |s| ==>
      48 <= s[i] as int <= 57 || 65 <= s[i] as int <= 70 || 97 <= s[i] as int <= 102
  }

  /** The strings of an announce are accepted exactly within these bounds. */
  lemma AnnounceStringsIff(a: Announce)
    ensures ValidAnnounce(a) <==>
            && |a.destinationHash| <= 1024 && |a.displayName| <= 16384
            && (a.identityHash.Some? ==> |a.identityHash.value| == 32 && IsHex(a.identityHash.value))
            && (a.associatedHash.Some? ==> |a.associatedHash.value| <= 1024)
            && (a.nodeAssociatedHash.Some? ==> |a.nodeAssociatedHash.value| <= 1024)
  {
  }

  /** An announce is refused for its identity iff a known one differs from it in more than the case of letters. */
  lemma ConflictIff(existing: Option<Entry>, a: Announce)
    ensures !IdentityConflict(existing, a) <==>
            || existing.None? || existing.value.identityHash.None? || a.identityHash.None?
            || SameButCase(existing.value.identityHash.value, a.identityHash.value)
  {
    if existing.Some? && existing.value.identityHash.Some? && a.identityHash.Some? {
      EqIgnoreCaseIff(existing.value.identityHash.value, a.identityHash.value);
    }
  }

  predicate SameButCase(a: Bytes, b: Bytes)
  {
    && |a| == |b|
    && forall i :: 0 <= i < |a| ==>
         || a[i] == b[i]
         || (65 <= a[i] as int <= 90 && b[i] as int == a[i] as int + 32)
         || (65 <= b[i] as int <= 90 && a[i] as int == b[i] as int + 32)
  }

  /** So are the strings of a stored entry, and a file of at most 4096 entries within them can be saved. */
  lemma StoreIff(s: Store)
    ensures ValidStore(s) <==>
            && |s.entries| <= 4096
            && (forall h :: h in s.entries ==> WithinBounds(s.entries[h]))
            && (forall e :: e in s.stream ==> WithinBounds(e))
  {
    forall e ensures ValidEntry(e) == WithinBounds(e) {
    }
  }

  predicate WithinBounds(e: Entry)
  {
    && |e.destinationHash| <= 1024 && |e.displayName| <= 16384
    && (e.identityHash.Some? ==> |e.identityHash.value| == 32 && IsHex(e.identityHash.value))
    && (e.associatedHash.Some? ==> |e.associatedHash.value| <= 1024)
    && (e.nodeAssociatedHash.Some? ==> |e.nodeAssociatedHash.value| <= 1024)
  }

  // ---------- Looking up ----------

  /** An entry is found in the map, or else at its first place in the stream. */
  lemma {:induction false} FoundFirst(stream: seq<Entry>, h: Hash)
    ensures var r := FindInStream(stream, h);
            if r.None? then forall i :: 0 <= i < |stream| ==> stream[i].destinationHash != h
            else exists i :: 0 <= i < |stream| && stream[i] == r.value && stream[i].destinationHash == h
                             && forall j :: 0 <= j < i ==> stream[j].destinationHash != h
  {
    if stream != [] && stream[0].destinationHash != h {
      FoundFirst(stream[1..], h);
      if r :| r == FindInStream(stream[1..], h) && r.Some? {
        var i :| 0 <= i < |stream[1..]| && stream[1..][i] == r.value && stream[1..][i].destinationHash == h
                 && forall j :: 0 <= j < i ==> stream[1..][j].destinationHash != h;
        assert stream[i + 1] == r.value;
        assert forall j :: 0 < j < i + 1 ==> stream[j] == stream[1..][j - 1];
      }
    }
  }

  // ---------- Pruning ----------

  /** Fresh transient entries that were seen later than `h`, ties broken by the greater hash. */
  ghost function Ahead(m: map<Hash, Entry>, now: real, h: Hash): set<Hash>
    requires h in m
  {
    set k | k in m && k != h && !IsPersistent(m[k]) && now - m[k].lastSeen <= 21600.0
            && (m[h].lastSeen < m[k].lastSeen || (m[h].lastSeen == m[k].lastSeen && LexLeq(h, k)))
  }

  /**
   * Pruning removes an entry exactly if it is transient and either was not seen for more than six
   * hours or has at least 1024 fresh transient entries ahead of it.
   */
  lemma RemovedIff(m: Memory, now: real, h: Hash)
    requires h in m.entries
    ensures h !in Prune(m, now).entries <==>
            !IsPersistent(m.entries[h])
            && (now - m.entries[h].lastSeen > 21600.0 || |Ahead(m.entries, now, h)| >= 1024)
  {
    hide IsPersistent, LexLeq, FreshStream, Without, Least, Ahead;
    var e, keys := m.entries[h], FreshKeys(m.entries, now);
    if !IsPersistent(e) && !IsStale(e, now) {
      var k := Key(e.lastSeen, h);
      assert k in keys;
      KeyIsRemovable(m.entries, now, k);
      AheadSize(m.entries, now, h);
      LeastIs(keys, Excess(m.entries, now), k);
    } else if !IsPersistent(e) {
      assert h in StaleHashes(m.entries, now);
    } else {
      PruneKeepsPersistent(m, now);
    }
  }

  lemma LeastIs(keys: set<Key>, n: nat, k: Key)
    requires k in keys
    ensures k in Least(keys, n) <==> |Below(keys, k)| < n
  {
  }

  /** A key and those below and above it are all the keys. */
  lemma AheadSize(m: map<Hash, Entry>, now: real, h: Hash)
    requires h in m && !IsPersistent(m[h]) && !IsStale(m[h], now)
    ensures |FreshKeys(m, now)| == |Below(FreshKeys(m, now), Key(m[h].lastSeen, h))| + 1 + |Ahead(m, now, h)|
  {
    hide IsPersistent, LexLeq;
    var keys, k := FreshKeys(m, now), Key(m[h].lastSeen, h);
    var below := Below(keys, k);
    var above := keys - below - {k};
    assert k in keys && k !in below;
    assert keys == below + {k} + above;
    assert Ahead(m, now, h) == set a | a in above :: a.hash by {
      AheadHashes(m, now, h);
    }
    HashesOf(m, now, above);
  }

  lemma AheadHashes(m: map<Hash, Entry>, now: real, h: Hash)
    requires h in m && !IsPersistent(m[h]) && !IsStale(m[h], now)
    ensures var keys, k := FreshKeys(m, now), Key(m[h].lastSeen, h);
            var above := keys - Below(keys, k) - {k};
            Ahead(m, now, h) == set a | a in above :: a.hash
  {
    hide IsPersistent, LexLeq;
    var keys, k := FreshKeys(m, now), Key(m[h].lastSeen, h);
    var above := keys - Below(keys, k) - {k};
    forall x ensures x in Ahead(m, now, h) <==> x in (set a | a in above :: a.hash) {
      if x in m {
        LexTotal(h, x);
        if LexLeq(h, x) && LexLeq(x, h) {
          LexAntisymmetric(h, x);
        }
        var a := Key(m[x].lastSeen, x);
        assert a in above <==> x in Ahead(m, now, h);
      }
    }
  }

  /** Pruning removes no entry under the hash of `e`. */
  predicate StaysListed(m: Memory, now: real, e: Entry)
  {
    e.destinationHash in m.entries ==> e.destinationHash in Prune(m, now).entries
  }

  /** The stream keeps its order and its first 256 entries that are persistent or seen in the last six hours. */
  lemma PrunedStreamIs(m: Memory, now: real)
    ensures var recent := Filter(m.stream, (e: Entry) => IsPersistent(e) || now - e.lastSeen <= 21600.0);
            var front := if |recent| <= 256 then recent else recent[..256];
            Prune(m, now).stream == Filter(front, (e: Entry) => StaysListed(m, now, e))
  {
    hide IsPersistent, Filter;
    var p := (e: Entry) => IsPersistent(e) || now - e.lastSeen <= 21600.0;
    FilterSame(m.stream, p, (e: Entry) => IsPersistent(e) || !IsStale(e, now));
    var front := Take(Filter(m.stream, p), 256);
    forall x | x in Removable(m.entries, now) ensures x in m.entries {
      RemovableIsTransient(m.entries, now, x);
    }
    var stays := (e: Entry) => StaysListed(m, now, e);
    FilterSame(front, stays, (e: Entry) => e.destinationHash !in Removable(m.entries, now));
  }

  /** A restart begins pruned: no transient entry is left that was not seen for more than six hours. */
  lemma RestartIsPruned(file: Store, stream: seq<Entry>, now: real, a: Attempt, h: Hash)
    requires Load(file, stream, now, a).Some?
    ensures var m := Load(file, stream, now, a).value.mem;
            && (h in m.entries ==> h in file.entries && m.entries[h] == file.entries[h])
            && (h in m.entries ==> IsPersistent(m.entries[h]) || now - m.entries[h].lastSeen <= 21600.0)
            && (h in file.entries && IsPersistent(file.entries[h]) ==> h in m.entries)
  {
    hide Prune, PruneChanges, Saves, Snapshot, IsPersistent, Ahead;
    var m := Memory(file.entries, Take(stream, ANNOUNCE_STREAM_MAXLENGTH), false, 0.0);
    PruneKeepsPersistent(m, now);
    if h in file.entries {
      RemovedIff(m, now, h);
    }
  }
}
