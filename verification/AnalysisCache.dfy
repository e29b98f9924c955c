/** The cache handle: opening a directory, and the four reads and writes, each a run of the cache machine. */
module AnalysisCache {
  import opened CacheKeys
  import opened CacheMachine
  import opened Options
  import Evict
  import Ordering
  import opened Sequences

  /** The directory on disk. */
  class CacheDir {
    var disk: Disk

    constructor (d: Disk)
      ensures disk == d
    {
      disk := d;
    }
  }

  /** What the operating system answers during one open. A failed recursive removal leaves some files. */
  datatype Faults = Faults(
    createRoot: bool,
    markerReadable: bool,
    irSurvivors: Option<set<string>>,
    findingsSurvivors: Option<set<string>>,
    tempWritten: bool,
    renamed: bool,
    createSubdirs: bool)

  /** Whether a temp-file-and-rename write reports success: a failed rename over an existing file does. */
  predicate ReportsSuccess(tempWritten: bool, renamed: bool, exists_: bool) {
    tempWritten && (renamed || exists_)
  }

  function IrPath(file: string): string {
    "ir/" + file + ".json"
  }

  function FindingsPath(file: string): string {
    "findings/" + file + ".json"
  }

  /** Every entry path with its metadata. */
  function Paths(disk: Disk): set<string> {
    (set f | f in disk.ir :: IrPath(f)) + (set f | f in disk.findings :: FindingsPath(f))
  }

  function Listing(disk: Disk, stat: string -> Evict.Meta): Evict.Files {
    map p | p in Paths(disk) :: stat(p)
  }

  /** The disk once the files missing from `left` are gone. */
  function Surviving(disk: Disk, left: Evict.Files): Disk {
    disk.(ir := map f | f in disk.ir && IrPath(f) in left :: disk.ir[f],
          findings := map f | f in disk.findings && FindingsPath(f) in left :: disk.findings[f])
  }

  // ----- removals as runs ------------------------------------------------------------------------

  /** An event of an open under `version`: no put, and no other version begun. */
  predicate OfOpen(version: string, e: Event) {
    !e.PutIr? && !e.PutFindings? && (e.Begin? ==> e.version == version)
  }

  ghost predicate OnlyOpens(version: string, events: seq<Event>) {
    forall e :: e in events ==> OfOpen(version, e)
  }

  lemma RemoveSets(digest: Digest, m: Machine, ir: set<string>, findings: set<string>) returns (events: seq<Event>)
    ensures Runs(digest, m, events, m.(disk := m.disk.(ir := m.disk.ir - ir, findings := m.disk.findings - findings)))
    ensures forall e :: e in events ==> e.RemoveIr? || e.RemoveFindings?
  {
    var a, b := Ordering.Listed(ir), Ordering.Listed(findings);
    forall f ensures f in SetOf(a) <==> f in ir { Ordering.ListedMembers(ir, f); }
    forall f ensures f in SetOf(b) <==> f in findings { Ordering.ListedMembers(findings, f); }
    assert SetOf(a) == ir && SetOf(b) == findings;
    RunRemovals(digest, m, a);
    var k := m.(disk := m.disk.(ir := m.disk.ir - ir));
    RunRemovals(digest, k, b);
    events := IrRemovals(a) + FindingsRemovals(b);
    var n := k.(disk := k.disk.(findings := k.disk.findings - findings));
    RunsConcat(digest, m, IrRemovals(a), k, FindingsRemovals(b), n);
  }

  lemma EvictionRuns(digest: Digest, m: Machine, left: Evict.Files) returns (events: seq<Event>)
    ensures Runs(digest, m, events, m.(disk := Surviving(m.disk, left)))
    ensures forall e :: e in events ==> e.RemoveIr? || e.RemoveFindings?
  {
    var ir := set f | f in m.disk.ir && IrPath(f) !in left;
    var findings := set f | f in m.disk.findings && FindingsPath(f) !in left;
    events := RemoveSets(digest, m, ir, findings);
    assert m.disk.ir - ir == Surviving(m.disk, left).ir;
    assert m.disk.findings - findings == Surviving(m.disk, left).findings;
  }

  // ----- the handle ------------------------------------------------------------------------------

  class Handle {
    const dir: CacheDir
    const digest: Digest
    const evicted: nat
    var rejected: nat

    constructor (d: CacheDir, g: Digest, n: nat)
      ensures dir == d && digest == g && evicted == n && rejected == 0
    {
      dir, digest, evicted, rejected := d, g, n, 0;
    }

    /** Counts an entry refused because its payload does not match its recorded digest. */
    method PayloadVerifies(keyInput: string, payload: string, stored: string) returns (ok: bool)
      modifies this
      ensures ok <==> PayloadDigest(digest, keyInput, payload) == stored
      ensures rejected == old(rejected) + if ok then 0 else 1
    {
      ok := PayloadDigest(digest, keyInput, payload) == stored;
      if !ok {
        rejected := rejected + 1;
      }
    }

    method GetIr(key: CacheKey) returns (hit: Option<string>)
      modifies this
      ensures hit == ReadIr(digest, dir.disk, key)
      ensures rejected == old(rejected) + if RefusedIr(digest, dir.disk, key) then 1 else 0
    {
      var irKey := IrKeyOf(key);
      var file := digest(irKey.DigestInput());
      if file !in dir.disk.ir {
        return None;
      }
      var entry := dir.disk.ir[file];
      if entry.formatVersion != FORMAT_VERSION || entry.key != irKey {
        return None;
      }
      var ok := PayloadVerifies(irKey.DigestInput(), entry.payload, entry.payloadDigest);
      hit := if ok then Some(entry.payload) else None;
    }

    method GetFindings(key: CacheKey) returns (hit: Option<string>)
      modifies this
      ensures hit == ReadFindings(digest, dir.disk, key)
      ensures rejected == old(rejected) + if RefusedFindings(digest, dir.disk, key) then 1 else 0
    {
      var file := digest(key.DigestInput());
      if file !in dir.disk.findings {
        return None;
      }
      var entry := dir.disk.findings[file];
      if entry.formatVersion != FORMAT_VERSION || entry.key != key {
        return None;
      }
      var ok := PayloadVerifies(key.DigestInput(), entry.payload, entry.payloadDigest);
      hit := if ok then Some(entry.payload) else None;
    }

    /** The write lands exactly when the temp file is written and renamed. Success is also reported when the rename
        fails over an existing file, and then the put is read back only if that file already held it. */
    method StoreIr(
        key: CacheKey, payload: string, tempWritten: bool, renamed: bool, ghost version: string) returns (ok: bool)
      modifies dir
      ensures dir.disk == AfterPutIr(digest, old(dir.disk), key, payload, tempWritten && renamed)
      ensures tempWritten && renamed ==>
        dir.disk == Step(digest, Machine(old(dir.disk), Ready(version)), PutIr(version, key, payload)).disk
      ensures ok <==> tempWritten && (renamed || IrFile(digest, IrKeyOf(key)) in old(dir.disk).ir)
      ensures ok ==>
        (ReadIr(digest, dir.disk, key) == Some(payload) <==>
           renamed || old(dir.disk).ir[IrFile(digest, IrKeyOf(key))] == IrEntry(digest, IrKeyOf(key), payload))
    {
      var irKey := IrKeyOf(key);
      var entry := Stored(FORMAT_VERSION, PayloadDigest(digest, irKey.DigestInput(), payload), irKey, payload);
      var file := digest(irKey.DigestInput());
      ok := ReportsSuccess(tempWritten, renamed, file in dir.disk.ir);
      if tempWritten && renamed {
        dir.disk := dir.disk.(ir := dir.disk.ir[file := entry]);
      }
    }

    method StoreFindings(key: CacheKey, payload: string, tempWritten: bool, renamed: bool, ghost version: string)
      returns (ok: bool)
      modifies dir
      ensures dir.disk == AfterPutFindings(digest, old(dir.disk), key, payload, tempWritten && renamed)
      ensures tempWritten && renamed ==>
        dir.disk == Step(digest, Machine(old(dir.disk), Ready(version)), PutFindings(version, key, payload)).disk
      ensures ok <==> tempWritten && (renamed || FindingsFile(digest, key) in old(dir.disk).findings)
      ensures ok ==>
        (ReadFindings(digest, dir.disk, key) == Some(payload) <==>
           renamed || old(dir.disk).findings[FindingsFile(digest, key)] == FindingsEntry(digest, key, payload))
    {
      var entry := Stored(FORMAT_VERSION, PayloadDigest(digest, key.DigestInput(), payload), key, payload);
      var file := digest(key.DigestInput());
      ok := ReportsSuccess(tempWritten, renamed, file in dir.disk.findings);
      if tempWritten && renamed {
        dir.disk := dir.disk.(findings := dir.disk.findings[file := entry]);
      }
    }
  }

  ghost predicate RefusedIr(digest: Digest, disk: Disk, key: CacheKey) {
    var irKey := IrKeyOf(key);
    var file := IrFile(digest, irKey);
    && file in disk.ir && disk.ir[file].formatVersion == FORMAT_VERSION && disk.ir[file].key == irKey
    && PayloadDigest(digest, irKey.DigestInput(), disk.ir[file].payload) != disk.ir[file].payloadDigest
  }

  ghost predicate RefusedFindings(digest: Digest, disk: Disk, key: CacheKey) {
    var file := FindingsFile(digest, key);
    && file in disk.findings && disk.findings[file].formatVersion == FORMAT_VERSION && disk.findings[file].key == key
    && PayloadDigest(digest, key.DigestInput(), disk.findings[file].payload) != disk.findings[file].payloadDigest
  }

  /** No run the cache itself makes ever gets an entry refused. */
  lemma OwnWritesAreNeverRefused(digest: Digest, events: seq<Event>, m: Machine, key: CacheKey)
    requires Runs(digest, FRESH, events, m)
    ensures !RefusedIr(digest, m.disk, key) && !RefusedFindings(digest, m.disk, key)
  {
    RunAgrees(digest, events, m);
    assert IrFileAgrees(digest, events, m.disk, IrFile(digest, IrKeyOf(key)));
    assert FindingsFileAgrees(digest, events, m.disk, FindingsFile(digest, key));
  }

  /** An entry stored for a key and then edited: its payload replaced, its recorded digest as it was. */
  function EditedIr(digest: Digest, disk: Disk, key: CacheKey, payload: string, other: string): Disk {
    var k := IrKeyOf(key);
    var text := key.contentHash + [NUL] + key.parserFingerprint + [NUL] + key.scope + [NUL] + key.vocabularyFingerprint;
    disk.(ir := disk.ir[digest(text) := Stored(1, digest(text + [NUL] + payload), k, other)])
  }

  function EditedFindings(digest: Digest, disk: Disk, key: CacheKey, payload: string, other: string): Disk {
    var text := key.contentHash + [NUL] + key.parserFingerprint + [NUL] + key.scope + [NUL]
                + key.vocabularyFingerprint + [NUL] + key.rulesetFingerprint;
    disk.(findings := disk.findings[digest(text) := Stored(1, digest(text + [NUL] + payload), key, other)])
  }

  /** Such an entry is a miss, and counted, exactly when the digest tells the key's text with the one payload from that
      with the other. */
  lemma EditedEntryIsRefusedIff(digest: Digest, disk: Disk, key: CacheKey, payload: string, other: string)
    ensures var text := key.contentHash + [NUL] + key.parserFingerprint + [NUL] + key.scope + [NUL]
                        + key.vocabularyFingerprint;
      var edited := EditedIr(digest, disk, key, payload, other);
      if digest(text + [NUL] + other) == digest(text + [NUL] + payload)
      then ReadIr(digest, edited, key) == Some(other) && !RefusedIr(digest, edited, key)
      else ReadIr(digest, edited, key) == None && RefusedIr(digest, edited, key)
    ensures var text := key.contentHash + [NUL] + key.parserFingerprint + [NUL] + key.scope + [NUL]
                        + key.vocabularyFingerprint + [NUL] + key.rulesetFingerprint;
      var edited := EditedFindings(digest, disk, key, payload, other);
      if digest(text + [NUL] + other) == digest(text + [NUL] + payload)
      then ReadFindings(digest, edited, key) == Some(other) && !RefusedFindings(digest, edited, key)
      else ReadFindings(digest, edited, key) == None && RefusedFindings(digest, edited, key)
  {
    DigestTexts(key);
    hide CacheKeys.Join;
  }

  // ----- opening ---------------------------------------------------------------------------------

  /** The directory's marker was read and is exactly the version asked for. */
  predicate Matches(disk: Disk, version: string, fs: Faults) {
    fs.markerReadable && disk.marker == Some(version)
  }

  predicate Wipes(fs: Faults) {
    fs.irSurvivors.None? && fs.findingsSurvivors.None?
  }

  /** What a wipe leaves: the marker, nothing else if it succeeds, and otherwise what the failed removal spared and
      all that came after it. */
  function AfterWipe(disk: Disk, fs: Faults): Disk {
    match fs.irSurvivors
    case Some(kept) => disk.(ir := disk.ir - (disk.ir.Keys - kept))
    case None =>
      match fs.findingsSurvivors
      case Some(kept) => disk.(ir := map[], findings := disk.findings - (disk.findings.Keys - kept))
      case None => Disk(disk.marker, map[], map[])
  }

  /** Whether the open gets past its marker. */
  predicate Settles(disk: Disk, version: string, fs: Faults) {
    Matches(disk, version, fs) || (Wipes(fs) && ReportsSuccess(fs.tempWritten, fs.renamed, disk.marker.Some?))
  }

  /** Whether the open reports a marker written that was not. */
  predicate LosesMarker(disk: Disk, version: string, fs: Faults) {
    !Matches(disk, version, fs) && Settles(disk, version, fs) && !fs.renamed
  }

  /** The directory once the marker is settled, or where settling it failed. */
  function AfterSettling(disk: Disk, version: string, fs: Faults): Disk {
    if Matches(disk, version, fs) then disk
    else if Wipes(fs) && fs.tempWritten && fs.renamed then Disk(Some(version), map[], map[])
    else AfterWipe(disk, fs)
  }

  /** Under another version than the marker's: what a failed removal spared is left, with all findings if it was the
      first; a failed write of the marker leaves the old one over no entry, and goes unnoticed exactly if it was the
      rename over an old marker that failed. */
  lemma SettlingByFault(disk: Disk, version: string, fs: Faults)
    requires !(fs.markerReadable && disk.marker == Some(version))
    ensures fs.irSurvivors.Some? ==>
      && !Settles(disk, version, fs) && AfterSettling(disk, version, fs).marker == disk.marker
      && AfterSettling(disk, version, fs).findings == disk.findings
      && AfterSettling(disk, version, fs).ir.Keys == disk.ir.Keys * fs.irSurvivors.value
    ensures fs.irSurvivors.None? && fs.findingsSurvivors.Some? ==>
      && !Settles(disk, version, fs) && AfterSettling(disk, version, fs).marker == disk.marker
      && AfterSettling(disk, version, fs).ir == map[]
      && AfterSettling(disk, version, fs).findings.Keys == disk.findings.Keys * fs.findingsSurvivors.value
    ensures fs.irSurvivors.None? && fs.findingsSurvivors.None? ==>
      && AfterSettling(disk, version, fs)
         == Disk(if fs.tempWritten && fs.renamed then Some(version) else disk.marker, map[], map[])
      && (Settles(disk, version, fs) <==> fs.tempWritten && (fs.renamed || disk.marker.Some?))
      && (LosesMarker(disk, version, fs) <==> fs.tempWritten && !fs.renamed && disk.marker.Some?)
  {
  }

  /** Removes both entry directories; a failure stops with some files left. */
  method WipeEntries(dir: CacheDir, digest: Digest, version: string, fs: Faults)
    returns (ok: bool, ghost events: seq<Event>, ghost stage: Stage)
    modifies dir
    ensures ok <==> Wipes(fs)
    ensures dir.disk == AfterWipe(old(dir.disk), fs)
    ensures Runs(digest, Machine(old(dir.disk), Opening(version, WipeIr)), events,
                 Machine(dir.disk, Opening(version, stage)))
    ensures ok ==> stage == WriteMarker
    ensures OnlyOpens(version, events) && MarkerLost !in events
  {
    ghost var m := Machine(dir.disk, Opening(version, WipeIr));
    var gone := if fs.irSurvivors.None? then dir.disk.ir.Keys else dir.disk.ir.Keys - fs.irSurvivors.value;
    events := RemoveSets(digest, m, gone, {});
    assert m.disk.findings - {} == m.disk.findings;
    dir.disk := dir.disk.(ir := dir.disk.ir - gone);
    ok, stage := false, WipeIr;
    if fs.irSurvivors.Some? {
      return;
    }
    assert dir.disk.ir == map[];
    RunsSnoc(digest, m, events, Machine(dir.disk, Opening(version, WipeIr)), IrWiped);
    events, stage := events + [IrWiped], WipeFindings;
    ghost var k := Machine(dir.disk, Opening(version, WipeFindings));
    gone := dir.disk.findings.Keys - (if fs.findingsSurvivors.None? then {} else fs.findingsSurvivors.value);
    ghost var more := RemoveSets(digest, k, {}, gone);
    assert k.disk.ir - {} == k.disk.ir;
    dir.disk := dir.disk.(findings := dir.disk.findings - gone);
    RunsConcat(digest, m, events, k, more, Machine(dir.disk, Opening(version, WipeFindings)));
    events := events + more;
    if fs.findingsSurvivors.Some? {
      return;
    }
    assert dir.disk.findings == map[];
    RunsSnoc(digest, m, events, Machine(dir.disk, Opening(version, WipeFindings)), FindingsWiped);
    ok, events, stage := true, events + [FindingsWiped], WriteMarker;
  }

  /** Writes the marker; the event is the one that says whether it landed. */
  method WriteMarkerFile(dir: CacheDir, digest: Digest, version: string, fs: Faults)
    returns (ok: bool, ghost events: seq<Event>, ghost stage: Stage)
    modifies dir
    ensures ok <==> fs.tempWritten && (fs.renamed || old(dir.disk).marker.Some?)
    ensures dir.disk == if fs.tempWritten && fs.renamed then old(dir.disk).(marker := Some(version)) else old(dir.disk)
    ensures Runs(digest, Machine(old(dir.disk), Opening(version, WriteMarker)), events,
                 Machine(dir.disk, Opening(version, stage)))
    ensures ok ==> stage == Housekeeping
    ensures OnlyOpens(version, events) && (MarkerLost in events <==> ok && !fs.renamed)
  {
    ghost var m := Machine(dir.disk, Opening(version, WriteMarker));
    ok := ReportsSuccess(fs.tempWritten, fs.renamed, dir.disk.marker.Some?);
    events, stage := [], WriteMarker;
    if fs.tempWritten && fs.renamed {
      RunOne(digest, m, MarkerWritten);
      dir.disk := dir.disk.(marker := Some(version));
      events, stage := [MarkerWritten], Housekeeping;
    } else if ok {
      RunOne(digest, m, MarkerLost);
      events, stage := [MarkerLost], Housekeeping;
    }
  }

  /** From the reading of the marker to the start of housekeeping. */
  method SettleVersion(dir: CacheDir, digest: Digest, version: string, fs: Faults)
    returns (ok: bool, ghost events: seq<Event>, ghost stage: Stage)
    modifies dir
    ensures ok <==> Settles(old(dir.disk), version, fs)
    ensures dir.disk == AfterSettling(old(dir.disk), version, fs)
    ensures Runs(digest, Machine(old(dir.disk), Closed), events, Machine(dir.disk, Opening(version, stage)))
    ensures ok ==> stage == Housekeeping
    ensures OnlyOpens(version, events)
    ensures MarkerLost in events <==> LosesMarker(old(dir.disk), version, fs)
  {
    ghost var m := Machine(dir.disk, Closed);
    RunTwo(digest, m, Begin(version), Compare(fs.markerReadable));
    events := [Begin(version), Compare(fs.markerReadable)];
    var existing := if fs.markerReadable then dir.disk.marker else None;
    if existing == Some(version) {
      ok, stage := true, Housekeeping;
      return;
    }
    ghost var a := Machine(dir.disk, Opening(version, WipeIr));
    ghost var more;
    ok, more, stage := WipeEntries(dir, digest, version, fs);
    ghost var b := Machine(dir.disk, Opening(version, stage));
    RunsConcat(digest, m, events, a, more, b);
    events := events + more;
    if !ok {
      return;
    }
    ok, more, stage := WriteMarkerFile(dir, digest, version, fs);
    RunsConcat(digest, m, events, b, more, Machine(dir.disk, Opening(version, stage)));
    events := events + more;
  }

  lemma ListedSurvives(disk: Disk, stat: string -> Evict.Meta)
    ensures Surviving(disk, Listing(disk, stat)) == disk
  {
    var after := Surviving(disk, Listing(disk, stat));
    assert after.ir == disk.ir;
    assert after.findings == disk.findings;
  }

  lemma AllSurvives(disk: Disk, stat: string -> Evict.Meta, locked: set<string>, cap: nat)
    requires Evict.ByteSize(Listing(disk, stat)) <= cap
    ensures var pass := Evict.EvictOutcome(Listing(disk, stat), locked, cap);
      Surviving(disk, pass.files) == disk && pass.deleted == 0
  {
    hide Evict.EvictOutcome, Evict.ByteSize, Listing, Surviving;
    Evict.WithinCapNothingGoes(Listing(disk, stat), locked, cap);
    ListedSurvives(disk, stat);
  }

  /** What an open leaves, and how much it evicts. */
  ghost predicate Leaves(
      disk: Disk, version: string, fs: Faults, stat: string -> Evict.Meta, locked: set<string>, cap: nat,
      done: bool, after: Disk, evicted: nat)
  {
    var settled := if fs.createRoot then AfterSettling(disk, version, fs) else disk;
    var pass := Evict.EvictOutcome(Listing(settled, stat), locked, cap);
    && (done <==> fs.createRoot && Settles(disk, version, fs) && fs.createSubdirs)
    && (!done ==> after == settled)
    && (done ==> after == Surviving(settled, pass.files) && evicted == pass.deleted)
  }

  /** What that comes to for a marker that is read and is of this version, and for any other. */
  lemma LeavesByCase(
      disk: Disk, version: string, fs: Faults, stat: string -> Evict.Meta, locked: set<string>, cap: nat,
      done: bool, after: Disk, evicted: nat)
    requires Leaves(disk, version, fs, stat, locked, cap, done, after, evicted)
    ensures fs.createRoot && fs.createSubdirs && fs.markerReadable && disk.marker == Some(version) ==>
      && done && !LosesMarker(disk, version, fs) && after.marker == disk.marker
      && var left := Evict.EvictOutcome(Listing(disk, stat), locked, cap).files;
      && (forall f :: f in after.ir <==> f in disk.ir && "ir/" + f + ".json" in left)
      && (forall f :: f in after.findings <==> f in disk.findings && "findings/" + f + ".json" in left)
      && (forall f :: f in after.ir ==> after.ir[f] == disk.ir[f])
      && (forall f :: f in after.findings ==> after.findings[f] == disk.findings[f])
      && (Evict.ByteSize(Listing(disk, stat)) <= cap ==> after == disk && evicted == 0)
    ensures fs.createRoot && fs.createSubdirs && !(fs.markerReadable && disk.marker == Some(version)) ==>
      (fs.irSurvivors.None? && fs.findingsSurvivors.None? && fs.tempWritten && fs.renamed ==>
         done && after == Disk(Some(version), map[], map[]))
    ensures !(fs.markerReadable && disk.marker == Some(version)) ==>
      (fs.irSurvivors.Some? || fs.findingsSurvivors.Some? ==> !done && after.marker == disk.marker)
  {
    hide Evict.EvictOutcome, Evict.ByteSize;
    if Evict.ByteSize(Listing(disk, stat)) <= cap { AllSurvives(disk, stat, locked, cap); }
  }

  /** Opening with a size budget. What happened is a run of the cache machine without a put, under this version only;
      on failure the directory is what settling left, and on success what eviction then left of that. */
  method OpenWithCap(
      dir: CacheDir, digest: Digest, version: string, cap: nat, fs: Faults,
      stat: string -> Evict.Meta, locked: set<string>)
    returns (handle: Option<Handle>, ghost events: seq<Event>)
    modifies dir
    ensures handle.Some? <==> fs.createRoot && Settles(old(dir.disk), version, fs) && fs.createSubdirs
    ensures var settled := if fs.createRoot then AfterSettling(old(dir.disk), version, fs) else old(dir.disk);
      if handle.None? then dir.disk == settled
      else
        var pass := Evict.EvictOutcome(Listing(settled, stat), locked, cap);
        && dir.disk == Surviving(settled, pass.files)
        && fresh(handle.value) && handle.value.dir == dir && handle.value.digest == digest
        && handle.value.evicted == pass.deleted && handle.value.rejected == 0
    ensures Runs(digest, Machine(old(dir.disk), Closed), events,
                 Machine(dir.disk, if handle.Some? then Ready(version) else Closed))
    ensures OnlyOpens(version, events)
    ensures MarkerLost in events <==> fs.createRoot && LosesMarker(old(dir.disk), version, fs)
    // under the version whose marker is read, whatever else fails, nothing goes but what eviction takes
    ensures fs.createRoot && fs.createSubdirs && fs.markerReadable && old(dir.disk).marker == Some(version) ==>
      && handle.Some? && MarkerLost !in events && dir.disk.marker == Some(version)
      && var left := Evict.EvictOutcome(Listing(old(dir.disk), stat), locked, cap).files;
      && (forall f :: f in dir.disk.ir <==> f in old(dir.disk).ir && "ir/" + f + ".json" in left)
      && (forall f :: f in dir.disk.findings <==>
            f in old(dir.disk).findings && "findings/" + f + ".json" in left)
      && (forall f :: f in dir.disk.ir ==> dir.disk.ir[f] == old(dir.disk).ir[f])
      && (forall f :: f in dir.disk.findings ==> dir.disk.findings[f] == old(dir.disk).findings[f])
      && (Evict.ByteSize(Listing(old(dir.disk), stat)) <= cap ==>
            dir.disk == old(dir.disk) && handle.value.evicted == 0)
    // under any other, nothing stays once the entries are removed and the marker is written
    ensures fs.createRoot && fs.createSubdirs && !(fs.markerReadable && old(dir.disk).marker == Some(version)) ==>
      (fs.irSurvivors.None? && fs.findingsSurvivors.None? && fs.tempWritten && fs.renamed ==>
         handle.Some? && dir.disk == Disk(Some(version), map[], map[]))
    // and the open fails with the old marker in place when an entry cannot be removed
    ensures !(fs.markerReadable && old(dir.disk).marker == Some(version)) ==>
      (fs.irSurvivors.Some? || fs.findingsSurvivors.Some? ==>
         handle.None? && dir.disk.marker == old(dir.disk).marker)
  {
    hide AfterSettling, Settles, LosesMarker, Surviving, Runs, Evict.EvictOutcome;
    ghost var m := Machine(dir.disk, Closed);
    handle, events := None, [];
    RunsNothing(digest, m);
    if !fs.createRoot {
      LeavesByCase(m.disk, version, fs, stat, locked, cap, false, dir.disk, 0);
      return;
    }
    var ok;
    ghost var stage;
    ok, events, stage := SettleVersion(dir, digest, version, fs);
    ghost var k := Machine(dir.disk, Opening(version, stage));
    if !ok || !fs.createSubdirs {
      RunsSnoc(digest, m, events, k, Crash);
      events := events + [Crash];
      LeavesByCase(m.disk, version, fs, stat, locked, cap, false, dir.disk, 0);
      return;
    }
    var dirs := new Evict.EntryDirs(Listing(dir.disk, stat), locked);
    var evicted := Evict.EvictToCap(dirs, cap);
    ghost var more := EvictionRuns(digest, k, dirs.files);
    dir.disk := Surviving(dir.disk, dirs.files);
    ghost var n := Machine(dir.disk, Opening(version, Housekeeping));
    RunsConcat(digest, m, events, k, more, n);
    RunsSnoc(digest, m, events + more, n, Opened);
    events := events + more + [Opened];
    LeavesByCase(m.disk, version, fs, stat, locked, cap, true, dir.disk, evicted);
    var h := new Handle(dir, digest, evicted);
    handle := Some(h);
  }

  // ----- what a handle serves ----------------------------------------------------------------------

  /** The marker an open leaves names its version, unless the write was lost over another one. */
  predicate MarkerIsOwn(disk: Disk, version: string, fs: Faults) {
    LosesMarker(disk, version, fs) ==> disk.marker == Some(version)
  }

  /** An open whose marker is its own keeps what the version results need. */
  lemma {:induction false} OpenKeepsMarkers(
      digest: Digest, history: seq<Event>, m: Machine, version: string, events: seq<Event>, n: Machine)
    requires Runs(digest, FRESH, history, m) && MarkersHold(digest, history) && m.phase == Closed
    requires Runs(digest, m, events, n) && OnlyOpens(version, events)
    requires MarkerLost in events ==> m.disk.marker == Some(version)
    ensures Runs(digest, FRESH, history + events, n) && MarkersHold(digest, history + events)
    ensures n.phase.Closed? || n.phase.version == version
    ensures m.disk.marker == Some(version) ==> n.disk.marker == Some(version)
    decreases |events|
  {
    hide MarkersHold, Enabled, Step;
    if events == [] {
      assert history + events == history;
    } else {
      var l, e := |events| - 1, events[|events| - 1];
      assert e in events && events == events[..l] + [e];
      var k := After(digest, m, events[..l]).value;
      OpenKeepsMarkers(digest, history, m, version, events[..l], k);
      OpenStepKeepsMarkers(digest, history + events[..l], k, version, e);
      assert history + events == history + events[..l] + [e];
    }
  }

  lemma OpenStepKeepsMarkers(digest: Digest, history: seq<Event>, k: Machine, version: string, e: Event)
    requires Runs(digest, FRESH, history, k) && MarkersHold(digest, history)
    requires Enabled(k, e) && OfOpen(version, e) && (k.phase.Closed? || k.phase.version == version)
    requires e == MarkerLost ==> k.disk.marker == Some(version)
    ensures Runs(digest, FRESH, history + [e], Step(digest, k, e)) && MarkersHold(digest, history + [e])
    ensures Step(digest, k, e).phase.Closed? || Step(digest, k, e).phase.version == version
    ensures k.disk.marker == Some(version) ==> Step(digest, k, e).disk.marker == Some(version)
  {
    RunsSnoc(digest, FRESH, history, k, e);
    assert (history + [e])[..|history + [e]| - 1] == history;
  }

  /** An open puts nothing, so what was put last before it is still the latest, unless the open wiped it. */
  lemma {:induction false} OpenPutsNothing(history: seq<Event>, version: string, events: seq<Event>, key: CacheKey)
    requires OnlyOpens(version, events)
    ensures var w := LatestIr(history + events, IrKeyOf(key)); w.Some? ==> w == LatestIr(history, IrKeyOf(key))
    ensures var w := LatestFindings(history + events, key); w.Some? ==> w == LatestFindings(history, key)
  {
    if events == [] {
      assert history + events == history;
    } else {
      var l := |events| - 1;
      assert events[l] in events;
      assert (history + events)[..|history + events| - 1] == history + events[..l];
      OpenPutsNothing(history, version, events[..l], key);
    }
  }

  /** Opens a directory with any history in which markers held, and reads: a hit is what a handle of the same version
      put last for exactly that key before the open. */
  method OpenAndRead(
      dir: CacheDir, digest: Digest, ghost history: seq<Event>, version: string, cap: nat, fs: Faults,
      stat: string -> Evict.Meta, locked: set<string>, key: CacheKey)
    returns (ir: Option<string>, findings: Option<string>)
    requires Runs(digest, FRESH, history, Machine(dir.disk, Closed)) && MarkersHold(digest, history)
    modifies dir
    ensures MarkerIsOwn(old(dir.disk), version, fs) && ir.Some? ==>
      LatestIr(history, IrKeyOf(key)) == Some(Written(version, ir.value))
    ensures MarkerIsOwn(old(dir.disk), version, fs) && findings.Some? ==>
      LatestFindings(history, key) == Some(Written(version, findings.value))
    // reopened under the version its marker names, a cache within its budget serves what it served before
    ensures fs.createRoot && fs.createSubdirs && fs.markerReadable && old(dir.disk).marker == Some(version) ==>
      (Evict.ByteSize(Listing(old(dir.disk), stat)) <= cap ==>
         ir == ReadIr(digest, old(dir.disk), key) && findings == ReadFindings(digest, old(dir.disk), key))
  {
    ghost var m := Machine(dir.disk, Closed);
    var handle;
    ghost var events;
    handle, events := OpenWithCap(dir, digest, version, cap, fs, stat, locked);
    if handle.None? {
      return None, None;
    }
    ir := handle.value.GetIr(key);
    findings := handle.value.GetFindings(key);
    if MarkerIsOwn(m.disk, version, fs) {
      ghost var n := Machine(dir.disk, Ready(version));
      OpenKeepsMarkers(digest, history, m, version, events, n);
      HitsAreOfOwnVersion(digest, history + events, n, key);
      OpenPutsNothing(history, version, events, key);
    }
  }
}
