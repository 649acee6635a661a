/**
 The durable federation cache: one file per entry and per blob, and the disks a crash between any two file
 operations can leave behind.
 */
module LeasedFiles {
  import opened Text
  import opened Digests
  import opened Records
  import opened Stores
  import opened Evaluation
  import opened Signing
  import opened LeasedCache

  datatype Record = Record(importedAt: Time, retainUntil: Time, manifest: Manifest, receipt: Receipt)

  /** Files are written and replaced as a whole. */
  datatype Disk = Disk(entries: map<Digest, Record>, blobs: map<Digest, Bytes>)

  /** `_validate_federation_result` accepts. */
  ghost predicate FederationResult(m: Manifest) {
    ValidManifest(m) && m.version == ResultV0
  }

  /** `_read_entries` accepts the entry file of digest `d`. */
  ghost predicate ReadableEntry(d: Digest, r: Record) {
    && FederationResult(r.manifest) && ValidSignedReceipt(r.receipt)
    && ManifestDigest(r.manifest) == d && r.receipt.resultDigest == d
  }

  ghost predicate AllReadable(entries: map<Digest, Record>) {
    forall d | d in entries :: ReadableEntry(d, entries[d])
  }

  method ValidateEntry(d: Digest, r: Record) returns (ok: bool)
    ensures ok <==> ReadableEntry(d, r)
  {
    ok := ValidateManifest(r.manifest);
    if !ok || r.manifest.version != ResultV0 || !ValidSignedReceipt(r.receipt) {
      return false;
    }
    ManifestDigestIsCanonical(r.manifest);
    ok := ObjectDigest(ManifestJson(r.manifest)).value == d && r.receipt.resultDigest == d;
  }

  method ReadEntries(entries: map<Digest, Record>) returns (ok: bool)
    ensures ok <==> AllReadable(entries)
  {
    var rest := entries.Keys;
    while rest != {}
      invariant rest <= entries.Keys && forall d | d in entries && d !in rest :: ReadableEntry(d, entries[d])
      decreases |rest|
    {
      var d :| d in rest;
      var valid := ValidateEntry(d, entries[d]);
      if !valid {
        return false;
      }
      rest := rest - {d};
    }
    return true;
  }

  /** Every listed entry has all its artifact blobs intact. */
  ghost predicate SoundDisk(disk: Disk) {
    forall d | d in disk.entries :: Held(disk.entries[d].manifest, disk.blobs)
  }

  function ExpiredEntries(entries: map<Digest, Record>, now: Time): set<Digest> {
    set d | d in entries && entries[d].retainUntil <= now
  }

  function ReferencedBlobs(entries: map<Digest, Record>): set<Digest> {
    set d, x | d in entries && x in entries[d].manifest.artifacts :: x.digest
  }

  function PrunedDisk(disk: Disk, now: Time): Disk {
    var entries := disk.entries - ExpiredEntries(disk.entries, now);
    Disk(entries, Restricted(disk.blobs, ReferencedBlobs(entries)))
  }

  /** The checks `import_bundle` makes before it touches the disk. */
  ghost predicate Importable(b: Bundle, until: Time, now: Time) {
    && ReadableEntry(b.receipt.resultDigest, Record(now, until, b.manifest, b.receipt))
    && NamesMatch(b) && until > now
  }

  /** The blobs stay as they are; any new ones are among the given digests. */
  ghost predicate OnlyAdds(before: map<Digest, Bytes>, after: map<Digest, Bytes>, digests: set<Digest>) {
    (forall d | d in before :: d in after && after[d] == before[d]) && after.Keys <= before.Keys + digests
  }

  /** The first `n` artifacts are intact, in the bundle and on disk, and no other blob came or went. */
  ghost predicate StoredUpTo(b: Bundle, n: nat, start: map<Digest, Bytes>, blobs: map<Digest, Bytes>)
    requires NamesMatch(b) && n <= |b.manifest.artifacts|
  {
    OnlyAdds(start, blobs, DigestsOf(b.manifest)) && forall j | 0 <= j < n :: StoredAt(b, j, blobs)
  }

  ghost predicate StoredAt(b: Bundle, j: nat, blobs: map<Digest, Bytes>)
    requires NamesMatch(b) && j < |b.manifest.artifacts|
  {
    var x := b.manifest.artifacts[j];
    assert x in b.manifest.artifacts;
    && Intact(x, Readable(Some(b.artifacts[x.name])))
    && x.digest in blobs && Intact(x, Readable(Some(blobs[x.digest])))
  }

  lemma AddsCompose(a: map<Digest, Bytes>, b: map<Digest, Bytes>, c: map<Digest, Bytes>, all: set<Digest>, d: Digest)
    requires OnlyAdds(a, b, all) && OnlyAdds(b, c, {d}) && d in all
    ensures OnlyAdds(a, c, all)
  {
  }

  lemma StaysStored(b: Bundle, j: nat, before: map<Digest, Bytes>, after: map<Digest, Bytes>, digests: set<Digest>)
    requires NamesMatch(b) && j < |b.manifest.artifacts| && StoredAt(b, j, before) && OnlyAdds(before, after, digests)
    ensures StoredAt(b, j, after)
  {
  }

  lemma StoredOneMore(b: Bundle, n: nat, start: map<Digest, Bytes>, before: map<Digest, Bytes>, after: map<Digest, Bytes>)
    requires NamesMatch(b) && n < |b.manifest.artifacts| && StoredUpTo(b, n, start, before)
    requires var x := b.manifest.artifacts[n];
      && OnlyAdds(before, after, {x.digest}) && x.name in b.artifacts && Intact(x, Readable(Some(b.artifacts[x.name])))
      && x.digest in after && Intact(x, Readable(Some(after[x.digest])))
    ensures StoredUpTo(b, n + 1, start, after)
  {
    var d := b.manifest.artifacts[n].digest;
    assert d in DigestsOf(b.manifest);
    AddsCompose(start, before, after, DigestsOf(b.manifest), d);
    assert StoredAt(b, n, after);
    forall j | 0 <= j < n ensures StoredAt(b, j, after) {
      StaysStored(b, j, before, after, {d});
    }
  }

  lemma AllStored(b: Bundle, blobs: map<Digest, Bytes>)
    requires NamesMatch(b) && forall j | 0 <= j < |b.manifest.artifacts| :: StoredAt(b, j, blobs)
    ensures ArtifactsIntact(b) && Held(b.manifest, blobs)
  {
    forall x | x in b.manifest.artifacts
      ensures Intact(x, Readable(Some(b.artifacts[x.name])))
      ensures x.digest in blobs && Intact(x, Readable(Some(blobs[x.digest])))
    {
      var j :| 0 <= j < |b.manifest.artifacts| && b.manifest.artifacts[j] == x;
      assert StoredAt(b, j, blobs);
    }
  }

  function DigestsOf(m: Manifest): set<Digest> {
    set x | x in m.artifacts :: x.digest
  }

  class FilesystemFederationCacheStore {
    var disk: Disk
    /** Every disk there has been, one after each file operation. */
    ghost var history: seq<Disk>

    constructor (disk: Disk)
      ensures this.disk == disk && history == [disk]
    {
      this.disk, history := disk, [disk];
    }

    ghost predicate SoundHistory()
      reads this
    {
      disk in history && forall d | d in history :: SoundDisk(d)
    }

    // ---------- file operations ----------

    method WriteBlob(d: Digest, data: Bytes)
      requires d !in disk.blobs
      modifies this
      ensures disk == old(disk).(blobs := old(disk).blobs[d := data]) && history == old(history) + [disk]
    {
      disk := disk.(blobs := disk.blobs[d := data]);
      history := history + [disk];
    }

    method WriteEntry(d: Digest, r: Record)
      modifies this
      ensures disk == old(disk).(entries := old(disk).entries[d := r]) && history == old(history) + [disk]
    {
      disk := disk.(entries := disk.entries[d := r]);
      history := history + [disk];
    }

    method UnlinkEntry(d: Digest)
      modifies this
      ensures disk == old(disk).(entries := old(disk).entries - {d}) && history == old(history) + [disk]
    {
      disk := disk.(entries := disk.entries - {d});
      history := history + [disk];
    }

    method UnlinkBlob(d: Digest)
      modifies this
      ensures disk == old(disk).(blobs := old(disk).blobs - {d}) && history == old(history) + [disk]
    {
      disk := disk.(blobs := disk.blobs - {d});
      history := history + [disk];
    }

    // ---------- the store ----------

    /** Write a blob unless its file exists already; raises for bytes that do not match, here or on disk. */
    method StoreBlob(x: Descriptor, data: Bytes) returns (ok: bool)
      modifies this
      ensures old(SoundHistory()) ==> SoundHistory() && old(history) <= history
      ensures disk.entries == old(disk).entries && OnlyAdds(old(disk).blobs, disk.blobs, {x.digest})
      ensures ok ==> Intact(x, Readable(Some(data)))
      ensures ok ==> x.digest in disk.blobs && Intact(x, Readable(Some(disk.blobs[x.digest])))
    {
      if |data| != x.size || DigestBytes(data) != x.digest {
        return false;
      }
      if x.digest in disk.blobs {
        if DigestBytes(disk.blobs[x.digest]) != x.digest {
          return false;
        }
        DigestBytesInjective(disk.blobs[x.digest], data);
      } else {
        BlobAdded(disk, x.digest, data);
        WriteBlob(x.digest, data);
      }
      return true;
    }

    method StoreBlobs(b: Bundle) returns (ok: bool)
      requires NamesMatch(b)
      modifies this
      ensures old(SoundHistory()) ==> SoundHistory() && old(history) <= history
      ensures disk.entries == old(disk).entries && OnlyAdds(old(disk).blobs, disk.blobs, DigestsOf(b.manifest))
      ensures ok ==> ArtifactsIntact(b) && Held(b.manifest, disk.blobs)
    {
      var xs := b.manifest.artifacts;
      for i := 0 to |xs|
        invariant disk.entries == old(disk).entries && StoredUpTo(b, i, old(disk).blobs, disk.blobs)
        invariant old(SoundHistory()) ==> SoundHistory() && old(history) <= history
      {
        ghost var before := disk.blobs;
        assert xs[i] in xs && xs[i].digest in DigestsOf(b.manifest);
        ok := StoreBlob(xs[i], b.artifacts[xs[i].name]);
        if !ok {
          return false;
        }
        StoredOneMore(b, i, old(disk).blobs, before, disk.blobs);
      }
      AllStored(b, disk.blobs);
      return true;
    }

    /** Blobs first, the entry last; a raise part way leaves blobs without an entry. */
    method ImportBundle(b: Bundle, until: Time, now: Time) returns (ok: bool)
      modifies this
      ensures old(SoundHistory()) ==> SoundHistory() && old(history) <= history
      ensures ok ==> Importable(b, until, now) && ArtifactsIntact(b) && Held(b.manifest, disk.blobs)
      ensures disk.entries ==
              if ok then old(disk).entries[b.receipt.resultDigest := Record(now, until, b.manifest, b.receipt)]
              else old(disk).entries
      ensures OnlyAdds(old(disk).blobs, disk.blobs, DigestsOf(b.manifest))
    {
      var record := Record(now, until, b.manifest, b.receipt);
      ok := ValidateEntry(b.receipt.resultDigest, record);
      if !ok || !NamesMatch(b) || until <= now {
        return false;
      }
      ok := StoreBlobs(b);
      if ok {
        EntryAdded(disk, b.receipt.resultDigest, record);
        WriteEntry(b.receipt.resultDigest, record);
      }
    }

    /** Entries first, then the blobs nothing refers to; `None` where an entry file cannot be read. */
    method Prune(now: Time) returns (count: Option<nat>)
      modifies this
      ensures old(SoundHistory()) ==> SoundHistory() && old(history) <= history
      ensures count.Some? <==> AllReadable(old(disk).entries)
      ensures count.Some? ==> disk == PrunedDisk(old(disk), now) && count.value == |ExpiredEntries(old(disk).entries, now)|
      ensures count.None? ==> disk == old(disk)
    {
      var readable := ReadEntries(disk.entries);
      if !readable {
        return None;
      }
      var expired := ExpiredEntries(disk.entries, now);
      RemoveEntries(expired);
      RemoveUnreferenced(ReferencedBlobs(disk.entries));
      return Some(|expired|);
    }

    method RemoveEntries(expired: set<Digest>)
      modifies this
      ensures old(SoundHistory()) ==> SoundHistory() && old(history) <= history
      ensures disk == old(disk).(entries := old(disk).entries - expired)
    {
      ghost var entries := disk.entries;
      var rest := expired;
      RemoveNone(entries, expired - rest);
      while rest != {}
        invariant rest <= expired && disk == old(disk).(entries := entries - (expired - rest))
        invariant old(SoundHistory()) ==> SoundHistory() && old(history) <= history
        decreases |rest|
      {
        var d :| d in rest;
        RemoveOneMore(entries, expired, rest, d);
        rest := rest - {d};
        EntryRemoved(disk, d);
        UnlinkEntry(d);
      }
      assert expired - rest == expired;
    }

    /** One blob file that no entry refers to. */
    method RemoveGarbage(d: Digest)
      requires d !in ReferencedBlobs(disk.entries)
      modifies this
      ensures old(SoundHistory()) ==> SoundHistory()
      ensures old(history) <= history && disk == old(disk).(blobs := old(disk).blobs - {d})
    {
      BlobRemoved(disk, d);
      UnlinkBlob(d);
    }

    method RemoveUnreferenced(live: set<Digest>)
      requires live == ReferencedBlobs(disk.entries)
      modifies this
      ensures old(SoundHistory()) ==> SoundHistory()
      ensures old(history) <= history && disk == old(disk).(blobs := Restricted(old(disk).blobs, live))
    {
      ghost var blobs, entries := disk.blobs, disk.entries;
      var garbage := disk.blobs.Keys - live;
      var rest := garbage;
      RemoveNone(blobs, garbage - rest);
      while rest != {}
        invariant rest <= garbage && disk == Disk(entries, blobs - (garbage - rest))
        invariant old(SoundHistory()) ==> SoundHistory()
        invariant old(history) <= history
        decreases |rest|
      {
        var d :| d in rest;
        RemoveOneMore(blobs, garbage, rest, d);
        rest := rest - {d};
        RemoveGarbage(d);
      }
      assert garbage - rest == garbage;
      RestrictedByRemoval(blobs, live);
    }
  }

  lemma RemoveNone<K, V>(m: map<K, V>, none: set<K>)
    requires none == {}
    ensures m - none == m
  {
  }

  lemma RemoveOneMore<K, V>(m: map<K, V>, all: set<K>, rest: set<K>, k: K)
    requires k in rest && rest <= all
    ensures m - (all - (rest - {k})) == m - (all - rest) - {k}
  {
  }

  lemma RestrictedByRemoval(blobs: map<Digest, Bytes>, live: set<Digest>)
    ensures blobs - (blobs.Keys - live) == Restricted(blobs, live)
  {
  }

  // ---------- what each file operation keeps ----------

  lemma BlobAdded(disk: Disk, d: Digest, data: Bytes)
    requires d !in disk.blobs
    ensures SoundDisk(disk) ==> SoundDisk(disk.(blobs := disk.blobs[d := data]))
  {
  }

  lemma EntryAdded(disk: Disk, d: Digest, r: Record)
    requires Held(r.manifest, disk.blobs)
    ensures SoundDisk(disk) ==> SoundDisk(disk.(entries := disk.entries[d := r]))
  {
  }

  lemma EntryRemoved(disk: Disk, d: Digest)
    ensures SoundDisk(disk) ==> SoundDisk(disk.(entries := disk.entries - {d}))
  {
  }

  lemma BlobRemoved(disk: Disk, d: Digest)
    requires d !in ReferencedBlobs(disk.entries)
    ensures SoundDisk(disk) ==> SoundDisk(disk.(blobs := disk.blobs - {d}))
  {
  }

  /** Pruning leaves exactly the entries with later leases and exactly the blobs they refer to. */
  lemma PrunedDiskExact(disk: Disk, now: Time)
    ensures var after := PrunedDisk(disk, now);
      && (forall d :: d in after.entries <==> d in disk.entries && disk.entries[d].retainUntil > now)
      && (forall d | d in after.entries :: after.entries[d] == disk.entries[d])
      && (SoundDisk(disk) ==> SoundDisk(after) && after.blobs.Keys == ReferencedBlobs(after.entries))
  {
    var after := PrunedDisk(disk, now);
    if SoundDisk(disk) {
      forall d, x | d in after.entries && x in after.entries[d].manifest.artifacts
        ensures x.digest in after.blobs && after.blobs[x.digest] == disk.blobs[x.digest]
      {
        assert Held(disk.entries[d].manifest, disk.blobs);
        assert x.digest in ReferencedBlobs(after.entries);
      }
    }
  }

  /** Pruning again, at the same or an earlier time, changes nothing. */
  lemma PrunedDiskIdempotent(disk: Disk, now: Time, earlier: Time)
    requires earlier <= now
    ensures PrunedDisk(PrunedDisk(disk, now), earlier) == PrunedDisk(disk, now)
  {
    var after := PrunedDisk(disk, now);
    assert ExpiredEntries(after.entries, earlier) == {};
    assert after.entries - {} == after.entries;
  }
}
