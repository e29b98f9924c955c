/** The on-disk cache as a state machine over every kind of run: opens with any versions, crashes inside an
    open, puts, and files removed at any moment by a wipe, by eviction or by someone else. The digest is an
    arbitrary function throughout, so every collision is covered. */
module CacheMachine {
  import opened CacheKeys
  import opened Options
  import opened Sequences

  const FORMAT_VERSION := 1

  type Digest = string -> string

  /** One entry file: the key is stored beside the payload, and the payload's own digest beside both. */
  datatype Stored<K> = Stored(formatVersion: int, payloadDigest: string, key: K, payload: string)

  /** File names are digests; `marker` is the schema version file. */
  datatype Disk = Disk(marker: Option<string>, ir: map<string, Stored<IrKey>>, findings: map<string, Stored<CacheKey>>)

  function PayloadDigest(digest: Digest, keyInput: string, payload: string): string {
    digest(keyInput + [NUL] + payload)
  }

  function IrFile(digest: Digest, key: IrKey): string {
    digest(key.DigestInput())
  }

  function FindingsFile(digest: Digest, key: CacheKey): string {
    digest(key.DigestInput())
  }

  function IrEntry(digest: Digest, key: IrKey, payload: string): Stored<IrKey> {
    Stored(FORMAT_VERSION, PayloadDigest(digest, key.DigestInput(), payload), key, payload)
  }

  function FindingsEntry(digest: Digest, key: CacheKey, payload: string): Stored<CacheKey> {
    Stored(FORMAT_VERSION, PayloadDigest(digest, key.DigestInput(), payload), key, payload)
  }

  // ----- reads -----------------------------------------------------------------------------------

  function ReadIr(digest: Digest, disk: Disk, key: CacheKey): Option<string> {
    var irKey := IrKeyOf(key);
    var file := IrFile(digest, irKey);
    if file !in disk.ir then None
    else
      var e := disk.ir[file];
      if e.formatVersion != FORMAT_VERSION || e.key != irKey then None
      else if PayloadDigest(digest, irKey.DigestInput(), e.payload) != e.payloadDigest then None
      else Some(e.payload)
  }

  function ReadFindings(digest: Digest, disk: Disk, key: CacheKey): Option<string> {
    var file := FindingsFile(digest, key);
    if file !in disk.findings then None
    else
      var e := disk.findings[file];
      if e.formatVersion != FORMAT_VERSION || e.key != key then None
      else if PayloadDigest(digest, key.DigestInput(), e.payload) != e.payloadDigest then None
      else Some(e.payload)
  }

  // ----- steps -----------------------------------------------------------------------------------

  datatype Stage = ReadMarker | WipeIr | WipeFindings | WriteMarker | Housekeeping

  /** One handle lives at a time. */
  datatype Phase = Closed | Opening(version: string, stage: Stage) | Ready(version: string)

  datatype Machine = Machine(disk: Disk, phase: Phase)

  datatype Event =
    | Begin(version: string)
    | Compare(readable: bool)
    | IrWiped
    | FindingsWiped
    | MarkerWritten
    | MarkerLost
    | Opened
    | Crash
    | PutIr(version: string, key: CacheKey, payload: string)
    | PutFindings(version: string, key: CacheKey, payload: string)
    | RemoveIr(file: string)
    | RemoveFindings(file: string)

  predicate Enabled(m: Machine, e: Event) {
    match e
    case Begin(_) => true
    case Compare(_) => m.phase.Opening? && m.phase.stage == ReadMarker
    case IrWiped => m.phase.Opening? && m.phase.stage == WipeIr && m.disk.ir == map[]
    case FindingsWiped => m.phase.Opening? && m.phase.stage == WipeFindings && m.disk.findings == map[]
    case MarkerWritten => m.phase.Opening? && m.phase.stage == WriteMarker
    // a failed rename over an existing file is reported as success, and the old marker stays
    case MarkerLost => m.phase.Opening? && m.phase.stage == WriteMarker && m.disk.marker.Some?
    case Opened => m.phase.Opening? && m.phase.stage == Housekeeping
    case Crash => true
    case PutIr(v, _, _) => m.phase == Ready(v)
    case PutFindings(v, _, _) => m.phase == Ready(v)
    case RemoveIr(_) => true
    case RemoveFindings(_) => true
  }

  function Step(digest: Digest, m: Machine, e: Event): Machine
    requires Enabled(m, e)
  {
    match e
    case Begin(v) => m.(phase := Opening(v, ReadMarker))
    case Compare(readable) =>
      // the marker is compared for equality only, and an unreadable one counts as different
      var same := readable && m.disk.marker == Some(m.phase.version);
      m.(phase := Opening(m.phase.version, if same then Housekeeping else WipeIr))
    case IrWiped => m.(phase := Opening(m.phase.version, WipeFindings))
    case FindingsWiped => m.(phase := Opening(m.phase.version, WriteMarker))
    case MarkerWritten =>
      Machine(m.disk.(marker := Some(m.phase.version)), Opening(m.phase.version, Housekeeping))
    case MarkerLost => m.(phase := Opening(m.phase.version, Housekeeping))
    case Opened => m.(phase := Ready(m.phase.version))
    case Crash => m.(phase := Closed)
    case PutIr(_, k, p) =>
      var irKey := IrKeyOf(k);
      m.(disk := m.disk.(ir := m.disk.ir[IrFile(digest, irKey) := IrEntry(digest, irKey, p)]))
    case PutFindings(_, k, p) =>
      m.(disk := m.disk.(findings := m.disk.findings[FindingsFile(digest, k) := FindingsEntry(digest, k, p)]))
    case RemoveIr(f) => m.(disk := m.disk.(ir := m.disk.ir - {f}))
    case RemoveFindings(f) => m.(disk := m.disk.(findings := m.disk.findings - {f}))
  }

  /** Where `events` lead from `m`, if each is enabled in its turn. */
  function After(digest: Digest, m: Machine, events: seq<Event>): Option<Machine> {
    if events == [] then Some(m)
    else
      var l := |events| - 1;
      var k := After(digest, m, events[..l]);
      if k.Some? && Enabled(k.value, events[l]) then Some(Step(digest, k.value, events[l])) else None
  }

  ghost predicate Runs(digest: Digest, m: Machine, events: seq<Event>, n: Machine) {
    After(digest, m, events) == Some(n)
  }

  lemma RunsNothing(digest: Digest, m: Machine)
    ensures Runs(digest, m, [], m)
  {
  }

  lemma {:induction false} RunsConcat(digest: Digest, m: Machine, a: seq<Event>, k: Machine, b: seq<Event>, n: Machine)
    requires Runs(digest, m, a, k) && Runs(digest, k, b, n)
    ensures Runs(digest, m, a + b, n)
  {
    if b == [] {
      assert a + b == a;
    } else {
      var l := |b| - 1;
      assert (a + b)[..|a + b| - 1] == a + b[..l];
      RunsConcat(digest, m, a, k, b[..l], After(digest, k, b[..l]).value);
    }
  }

  function IrRemovals(files: seq<string>): seq<Event> {
    seq(|files|, i requires 0 <= i < |files| => RemoveIr(files[i]))
  }

  function FindingsRemovals(files: seq<string>): seq<Event> {
    seq(|files|, i requires 0 <= i < |files| => RemoveFindings(files[i]))
  }

  lemma {:induction false} RunRemovals(digest: Digest, m: Machine, files: seq<string>)
    ensures Runs(digest, m, IrRemovals(files), m.(disk := m.disk.(ir := m.disk.ir - SetOf(files))))
    ensures Runs(digest, m, FindingsRemovals(files), m.(disk := m.disk.(findings := m.disk.findings - SetOf(files))))
  {
    if files == [] {
      assert m.disk.ir - SetOf(files) == m.disk.ir && m.disk.findings - SetOf(files) == m.disk.findings;
    } else {
      var l := |files| - 1;
      RunRemovals(digest, m, files[..l]);
      assert IrRemovals(files)[..l] == IrRemovals(files[..l]);
      assert FindingsRemovals(files)[..l] == FindingsRemovals(files[..l]);
      assert SetOf(files) == SetOf(files[..l]) + {files[l]};
      assert (m.disk.ir - SetOf(files[..l])) - {files[l]} == m.disk.ir - SetOf(files);
      assert (m.disk.findings - SetOf(files[..l])) - {files[l]} == m.disk.findings - SetOf(files);
    }
  }

  const FRESH := Machine(Disk(None, map[], map[]), Closed)

  // ----- what a history says, without any file system --------------------------------------------

  /** A put, with the schema version of the handle that made it. */
  datatype Written = Written(version: string, payload: string)

  predicate EndsWipe(e: Event) {
    e.MarkerWritten? || e.MarkerLost?
  }

  /** The latest put of exactly `key` since the last wipe. */
  function LatestIr(events: seq<Event>, key: IrKey): Option<Written> {
    if events == [] then None
    else
      var e := events[|events| - 1];
      if e.PutIr? && IrKeyOf(e.key) == key then Some(Written(e.version, e.payload))
      else if EndsWipe(e) then None
      else LatestIr(events[..|events| - 1], key)
  }

  function LatestFindings(events: seq<Event>, key: CacheKey): Option<Written> {
    if events == [] then None
    else
      var e := events[|events| - 1];
      if e.PutFindings? && e.key == key then Some(Written(e.version, e.payload))
      else if EndsWipe(e) then None
      else LatestFindings(events[..|events| - 1], key)
  }

  /** The key whose put last landed on `file`, unless the file has been removed or wiped since. */
  function HolderIr(digest: Digest, events: seq<Event>, file: string): Option<IrKey> {
    if events == [] then None
    else
      var e := events[|events| - 1];
      if e.PutIr? && IrFile(digest, IrKeyOf(e.key)) == file then Some(IrKeyOf(e.key))
      else if EndsWipe(e) || e == RemoveIr(file) then None
      else HolderIr(digest, events[..|events| - 1], file)
  }

  function HolderFindings(digest: Digest, events: seq<Event>, file: string): Option<CacheKey> {
    if events == [] then None
    else
      var e := events[|events| - 1];
      if e.PutFindings? && FindingsFile(digest, e.key) == file then Some(e.key)
      else if EndsWipe(e) || e == RemoveFindings(file) then None
      else HolderFindings(digest, events[..|events| - 1], file)
  }

  // ----- the invariant ---------------------------------------------------------------------------

  /** A file is there exactly when the history says some key holds it, and then it stores that key's
      latest put. */
  ghost predicate IrFileAgrees(digest: Digest, events: seq<Event>, disk: Disk, file: string) {
    match HolderIr(digest, events, file)
    case None => file !in disk.ir
    case Some(key) =>
      && file == IrFile(digest, key)
      && var w := LatestIr(events, key);
         w.Some? && file in disk.ir && disk.ir[file] == IrEntry(digest, key, w.value.payload)
  }

  ghost predicate FindingsFileAgrees(digest: Digest, events: seq<Event>, disk: Disk, file: string) {
    match HolderFindings(digest, events, file)
    case None => file !in disk.findings
    case Some(key) =>
      && file == FindingsFile(digest, key)
      && var w := LatestFindings(events, key);
         w.Some? && file in disk.findings && disk.findings[file] == FindingsEntry(digest, key, w.value.payload)
  }

  /** By the time the marker is written both directories are empty. */
  ghost predicate Wiped(m: Machine) {
    m.phase.Opening? ==>
      && (m.phase.stage == WipeFindings || m.phase.stage == WriteMarker ==> m.disk.ir == map[])
      && (m.phase.stage == WriteMarker ==> m.disk.findings == map[])
  }

  ghost predicate Agrees(digest: Digest, events: seq<Event>, m: Machine) {
    && (forall f {:trigger IrFileAgrees(digest, events, m.disk, f)} :: IrFileAgrees(digest, events, m.disk, f))
    && (forall f {:trigger FindingsFileAgrees(digest, events, m.disk, f)} ::
          FindingsFileAgrees(digest, events, m.disk, f))
    && Wiped(m)
  }

  lemma StepKeepsIr(digest: Digest, events: seq<Event>, m: Machine, e: Event, file: string)
    requires IrFileAgrees(digest, events, m.disk, file) && Wiped(m) && Enabled(m, e)
    ensures IrFileAgrees(digest, events + [e], Step(digest, m, e).disk, file)
  {
    assert (events + [e])[..|events|] == events;
  }

  lemma StepKeepsFindings(digest: Digest, events: seq<Event>, m: Machine, e: Event, file: string)
    requires FindingsFileAgrees(digest, events, m.disk, file) && Wiped(m) && Enabled(m, e)
    ensures FindingsFileAgrees(digest, events + [e], Step(digest, m, e).disk, file)
  {
    assert (events + [e])[..|events|] == events;
  }

  lemma {:induction false} RunAgrees(digest: Digest, events: seq<Event>, m: Machine)
    requires Runs(digest, FRESH, events, m)
    ensures Agrees(digest, events, m)
    decreases |events|
  {
    if events == [] {
    } else {
      var l, e := |events| - 1, events[|events| - 1];
      var k := After(digest, FRESH, events[..l]).value;
      RunAgrees(digest, events[..l], k);
      assert events[..l] + [e] == events;
      forall f ensures IrFileAgrees(digest, events, m.disk, f) {
        assert IrFileAgrees(digest, events[..l], k.disk, f);
        StepKeepsIr(digest, events[..l], k, e, f);
      }
      forall f ensures FindingsFileAgrees(digest, events, m.disk, f) {
        assert FindingsFileAgrees(digest, events[..l], k.disk, f);
        StepKeepsFindings(digest, events[..l], k, e, f);
      }
    }
  }

  // ----- what reads return -----------------------------------------------------------------------

  function PayloadOf(w: Option<Written>): Option<string> {
    match w case None => None case Some(x) => Some(x.payload)
  }

  /** A read returns the latest put of exactly its key, when that key holds its file, and misses otherwise:
      for any digest function, whatever its collisions, after any run. */
  lemma ReadIrExact(digest: Digest, events: seq<Event>, m: Machine, key: CacheKey)
    requires Runs(digest, FRESH, events, m)
    ensures var irKey := IrKeyOf(key);
      var held := HolderIr(digest, events, IrFile(digest, irKey)) == Some(irKey);
      && ReadIr(digest, m.disk, key) == PayloadOf(if held then LatestIr(events, irKey) else None)
      && (held ==> LatestIr(events, irKey).Some?)
  {
    RunAgrees(digest, events, m);
    assert IrFileAgrees(digest, events, m.disk, IrFile(digest, IrKeyOf(key)));
  }

  lemma ReadFindingsExact(digest: Digest, events: seq<Event>, m: Machine, key: CacheKey)
    requires Runs(digest, FRESH, events, m)
    ensures var held := HolderFindings(digest, events, FindingsFile(digest, key)) == Some(key);
      && ReadFindings(digest, m.disk, key) == PayloadOf(if held then LatestFindings(events, key) else None)
      && (held ==> LatestFindings(events, key).Some?)
  {
    RunAgrees(digest, events, m);
    assert FindingsFileAgrees(digest, events, m.disk, FindingsFile(digest, key));
  }

  lemma {:induction false} LatestFindingsWasPut(events: seq<Event>, key: CacheKey)
    requires LatestFindings(events, key).Some?
    ensures var w := LatestFindings(events, key).value; PutFindings(w.version, key, w.payload) in events
  {
    var l := |events| - 1;
    assert events == events[..l] + [events[l]];
    if events[l].PutFindings? && events[l].key == key {
    } else {
      LatestFindingsWasPut(events[..l], key);
    }
  }

  /** IR hits survive a change of ruleset; a findings hit needs a put under that very ruleset. */
  lemma RulesetChange(digest: Digest, events: seq<Event>, m: Machine, key: CacheKey, ruleset: string)
    requires Runs(digest, FRESH, events, m)
    ensures var changed := key.(rulesetFingerprint := ruleset);
      && ReadIr(digest, m.disk, changed) == ReadIr(digest, m.disk, key)
      && (ReadFindings(digest, m.disk, changed).Some? ==>
            exists v, p :: PutFindings(v, changed, p) in events && ReadFindings(digest, m.disk, changed) == Some(p))
  {
    var changed := key.(rulesetFingerprint := ruleset);
    ReadFindingsExact(digest, events, m, changed);
    if ReadFindings(digest, m.disk, changed).Some? {
      LatestFindingsWasPut(events, changed);
    }
  }

  /** A put is read back; it displaces another key only if their files coincide, and then that key misses. */
  lemma PutThenRead(digest: Digest, m: Machine, v: string, key: CacheKey, payload: string, other: CacheKey)
    requires m.phase == Ready(v)
    ensures var n := Step(digest, m, PutIr(v, key, payload));
      && ReadIr(digest, n.disk, key) == Some(payload)
      && (IrKeyOf(other) != IrKeyOf(key) ==>
            ReadIr(digest, n.disk, other)
            == if IrFile(digest, IrKeyOf(other)) == IrFile(digest, IrKeyOf(key)) then None
               else ReadIr(digest, m.disk, other))
    ensures var n := Step(digest, m, PutFindings(v, key, payload));
      && ReadFindings(digest, n.disk, key) == Some(payload)
      && (other != key ==>
            ReadFindings(digest, n.disk, other)
            == if FindingsFile(digest, other) == FindingsFile(digest, key) then None
               else ReadFindings(digest, m.disk, other))
  {
  }

  // ----- a write that is lost --------------------------------------------------------------------

  /** What a put leaves behind: the entry if its rename landed, and otherwise the disk it found. */
  function AfterPutIr(digest: Digest, disk: Disk, key: CacheKey, payload: string, landed: bool): Disk {
    if landed then disk.(ir := disk.ir[IrFile(digest, IrKeyOf(key)) := IrEntry(digest, IrKeyOf(key), payload)])
    else disk
  }

  function AfterPutFindings(digest: Digest, disk: Disk, key: CacheKey, payload: string, landed: bool): Disk {
    if landed then disk.(findings := disk.findings[FindingsFile(digest, key) := FindingsEntry(digest, key, payload)])
    else disk
  }

  /** A put reported successful is read back exactly when its rename landed or its file already held that very
      entry; a lost put leaves every read as it was. */
  lemma PutIsReadBackIff(digest: Digest, disk: Disk, key: CacheKey, payload: string, landed: bool, other: CacheKey)
    ensures var file := IrFile(digest, IrKeyOf(key));
      ReadIr(digest, AfterPutIr(digest, disk, key, payload, landed), key) == Some(payload) <==>
        landed || (file in disk.ir && disk.ir[file] == IrEntry(digest, IrKeyOf(key), payload))
    ensures var file := FindingsFile(digest, key);
      ReadFindings(digest, AfterPutFindings(digest, disk, key, payload, landed), key) == Some(payload) <==>
        landed || (file in disk.findings && disk.findings[file] == FindingsEntry(digest, key, payload))
    ensures !landed ==>
      ReadIr(digest, AfterPutIr(digest, disk, key, payload, landed), other) == ReadIr(digest, disk, other)
    ensures !landed ==>
      ReadFindings(digest, AfterPutFindings(digest, disk, key, payload, landed), other)
      == ReadFindings(digest, disk, other)
  {
  }

  /** Over whole runs: after a lost put the key reads as the put before it, so the new payload is missed exactly
      when the key does not hold its file or was last put with another payload. */
  lemma LostPutReadsTheOneBefore(digest: Digest, events: seq<Event>, m: Machine, key: CacheKey, payload: string)
    requires Runs(digest, FRESH, events, m)
    ensures var irKey := IrKeyOf(key);
      ReadIr(digest, AfterPutIr(digest, m.disk, key, payload, false), key) != Some(payload) <==>
        || HolderIr(digest, events, IrFile(digest, irKey)) != Some(irKey)
        || PayloadOf(LatestIr(events, irKey)) != Some(payload)
    ensures
      ReadFindings(digest, AfterPutFindings(digest, m.disk, key, payload, false), key) != Some(payload) <==>
        || HolderFindings(digest, events, FindingsFile(digest, key)) != Some(key)
        || PayloadOf(LatestFindings(events, key)) != Some(payload)
  {
    ReadIrExact(digest, events, m, key);
    ReadFindingsExact(digest, events, m, key);
  }

  // ----- schema versions -------------------------------------------------------------------------

  /** Wherever a marker write was lost, the marker left standing already named the version being opened. */
  ghost predicate MarkersHold(digest: Digest, events: seq<Event>) {
    events == []
    || (var l := |events| - 1;
        && MarkersHold(digest, events[..l])
        && (events[l] == MarkerLost ==>
              var k := After(digest, FRESH, events[..l]);
              k.Some? && k.value.phase.Opening? && k.value.disk.marker == Some(k.value.phase.version)))
  }

  /** Once the open is past its wipe, the marker names the handle's version. */
  ghost predicate MarkerIsHandles(m: Machine) {
    match m.phase
    case Closed => true
    case Ready(v) => m.disk.marker == Some(v)
    case Opening(v, stage) => stage == Housekeeping ==> m.disk.marker == Some(v)
  }

  /** Every stored entry was last written by a handle of the version the marker names. */
  ghost predicate WrittenByMarker(events: seq<Event>, m: Machine) {
    && (forall f :: f in m.disk.ir ==>
          var w := LatestIr(events, m.disk.ir[f].key); w.Some? && m.disk.marker == Some(w.value.version))
    && (forall f :: f in m.disk.findings ==>
          var w := LatestFindings(events, m.disk.findings[f].key); w.Some? && m.disk.marker == Some(w.value.version))
  }

  lemma StepKeepsVersions(digest: Digest, events: seq<Event>, m: Machine, e: Event)
    requires Wiped(m) && MarkerIsHandles(m) && WrittenByMarker(events, m) && Enabled(m, e)
    requires e == MarkerLost ==> m.disk.marker == Some(m.phase.version)
    ensures MarkerIsHandles(Step(digest, m, e)) && WrittenByMarker(events + [e], Step(digest, m, e))
  {
    assert (events + [e])[..|events|] == events;
  }

  /** Whatever versions opened the directory, in whatever order, and wherever an open crashed: while the
      markers hold, every entry is of the marker's version, and a handle's own version is the marker's. */
  lemma {:induction false} MarkerNamesEveryWriter(digest: Digest, events: seq<Event>, m: Machine)
    requires Runs(digest, FRESH, events, m) && MarkersHold(digest, events)
    ensures MarkerIsHandles(m) && WrittenByMarker(events, m)
    decreases |events|
  {
    if events == [] {
    } else {
      var l := |events| - 1;
      var k := After(digest, FRESH, events[..l]).value;
      assert events[..l] + [events[l]] == events;
      RunAgrees(digest, events[..l], k);
      MarkerNamesEveryWriter(digest, events[..l], k);
      StepKeepsVersions(digest, events[..l], k, events[l]);
    }
  }

  /** So a handle never serves what a handle of another version wrote. */
  lemma HitsAreOfOwnVersion(digest: Digest, events: seq<Event>, m: Machine, key: CacheKey)
    requires Runs(digest, FRESH, events, m) && MarkersHold(digest, events) && m.phase.Ready?
    ensures var hit := ReadIr(digest, m.disk, key);
      hit.Some? ==> LatestIr(events, IrKeyOf(key)) == Some(Written(m.phase.version, hit.value))
    ensures var hit := ReadFindings(digest, m.disk, key);
      hit.Some? ==> LatestFindings(events, key) == Some(Written(m.phase.version, hit.value))
  {
    ReadIrExact(digest, events, m, key);
    ReadFindingsExact(digest, events, m, key);
    MarkerNamesEveryWriter(digest, events, m);
  }

  // ----- a lost marker write ---------------------------------------------------------------------

  lemma RunsSnoc(digest: Digest, m: Machine, events: seq<Event>, k: Machine, e: Event)
    requires Runs(digest, m, events, k) && Enabled(k, e)
    ensures Runs(digest, m, events + [e], Step(digest, k, e))
  {
    assert (events + [e])[..|events|] == events;
  }

  /** What a put by the current handle and then a reopening under `w` look like. */
  function PutThenReopen(v: string, w: string, key: CacheKey, payload: string): seq<Event> {
    [PutIr(v, key, payload), Begin(w), Compare(true), Opened]
  }

  lemma {:induction false} LatestAfter(events: seq<Event>, tail: seq<Event>, v: string, key: CacheKey, payload: string)
    requires forall e :: e in tail ==> !e.PutIr? && !EndsWipe(e)
    ensures LatestIr(events + [PutIr(v, key, payload)] + tail, IrKeyOf(key)) == Some(Written(v, payload))
  {
    var all := events + [PutIr(v, key, payload)] + tail;
    if tail == [] {
    } else {
      var l := |tail| - 1;
      assert tail[l] in tail;
      assert all[..|all| - 1] == events + [PutIr(v, key, payload)] + tail[..l];
      LatestAfter(events, tail[..l], v, key, payload);
    }
  }

  /** What a live handle puts is served to the handle of a reopening under the version its marker names,
      whichever version that is. */
  lemma PutSurvivesReopening(digest: Digest, events: seq<Event>, m: Machine, key: CacheKey, payload: string)
    requires Runs(digest, FRESH, events, m) && m.phase.Ready? && m.disk.marker.Some?
    ensures var v, w := m.phase.version, m.disk.marker.value;
      var all := events + PutThenReopen(v, w, key, payload);
      exists n :: Runs(digest, FRESH, all, n) && n.phase == Ready(w) && ReadIr(digest, n.disk, key) == Some(payload)
        && LatestIr(all, IrKeyOf(key)) == Some(Written(v, payload))
  {
    var v, w := m.phase.version, m.disk.marker.value;
    var tail := [Begin(w), Compare(true), Opened];
    RunsSnoc(digest, FRESH, events, m, PutIr(v, key, payload));
    var a := Step(digest, m, PutIr(v, key, payload));
    RunsSnoc(digest, FRESH, events + [PutIr(v, key, payload)], a, Begin(w));
    var b := Step(digest, a, Begin(w));
    RunsSnoc(digest, FRESH, events + [PutIr(v, key, payload)] + [Begin(w)], b, Compare(true));
    var c := Step(digest, b, Compare(true));
    RunsSnoc(digest, FRESH, events + [PutIr(v, key, payload)] + [Begin(w)] + [Compare(true)], c, Opened);
    LatestAfter(events, tail, v, key, payload);
    assert events + [PutIr(v, key, payload)] + tail == events + PutThenReopen(v, w, key, payload);
    assert events + [PutIr(v, key, payload)] + [Begin(w)] + [Compare(true)] + [Opened]
        == events + PutThenReopen(v, w, key, payload);
  }

  /** Opening under `v` with the old marker kept: the wipe, and then everything as if the write had landed. */
  function OpenLosingMarker(v: string, irFiles: seq<string>, findingsFiles: seq<string>): seq<Event> {
    [Begin(v), Compare(true)] + IrRemovals(irFiles) + [IrWiped] + FindingsRemovals(findingsFiles)
    + [FindingsWiped, MarkerLost, Opened]
  }

  lemma RunOne(digest: Digest, m: Machine, e: Event)
    requires Enabled(m, e)
    ensures Runs(digest, m, [e], Step(digest, m, e))
  {
    assert [e][..0] == [];
    assert After(digest, m, [e][..0]) == Some(m);
  }

  lemma RunTwo(digest: Digest, m: Machine, e: Event, f: Event)
    requires Enabled(m, e) && Enabled(Step(digest, m, e), f)
    ensures Runs(digest, m, [e, f], Step(digest, Step(digest, m, e), f))
  {
    RunOne(digest, m, e);
    assert [e, f][..1] == [e];
  }

  /** Any directory marked `w` can be left marked `w` under a live handle of another version `v`. */
  lemma LostMarkerLeavesOldVersion(
      digest: Digest, m: Machine, v: string, irFiles: seq<string>, findingsFiles: seq<string>)
    requires m.disk.marker.Some? && m.disk.marker.value != v
    requires SetOf(irFiles) == m.disk.ir.Keys && SetOf(findingsFiles) == m.disk.findings.Keys
    ensures Runs(digest, m, OpenLosingMarker(v, irFiles, findingsFiles),
                 Machine(Disk(m.disk.marker, map[], map[]), Ready(v)))
  {
    var a := Machine(m.disk, Opening(v, WipeIr));
    RunTwo(digest, m, Begin(v), Compare(true));
    RunRemovals(digest, a, irFiles);
    assert m.disk.ir - SetOf(irFiles) == map[] && m.disk.findings - SetOf(findingsFiles) == map[];
    var b := Machine(m.disk.(ir := map[]), Opening(v, WipeIr));
    RunsConcat(digest, m, [Begin(v), Compare(true)], a, IrRemovals(irFiles), b);
    RunOne(digest, b, IrWiped);
    var c := b.(phase := Opening(v, WipeFindings));
    RunsConcat(digest, m, [Begin(v), Compare(true)] + IrRemovals(irFiles), b, [IrWiped], c);
    RunRemovals(digest, c, findingsFiles);
    var d := Machine(Disk(m.disk.marker, map[], map[]), Opening(v, WipeFindings));
    RunsConcat(digest, m, [Begin(v), Compare(true)] + IrRemovals(irFiles) + [IrWiped], c,
               FindingsRemovals(findingsFiles), d);
    RunTwo(digest, d, FindingsWiped, MarkerLost);
    var f := d.(phase := Opening(v, Housekeeping));
    RunOne(digest, f, Opened);
    RunsConcat(digest, d, [FindingsWiped, MarkerLost], f, [Opened], f.(phase := Ready(v)));
    assert [FindingsWiped, MarkerLost] + [Opened] == [FindingsWiped, MarkerLost, Opened];
    var wiped := [Begin(v), Compare(true)] + IrRemovals(irFiles) + [IrWiped] + FindingsRemovals(findingsFiles);
    RunsConcat(digest, m, wiped, d, [FindingsWiped, MarkerLost, Opened], f.(phase := Ready(v)));
  }

  ghost predicate StaleIrHit(digest: Digest, events: seq<Event>, m: Machine, key: CacheKey)
    requires m.phase.Ready?
  {
    var w := LatestIr(events, IrKeyOf(key));
    ReadIr(digest, m.disk, key).Some? && w.Some? && w.value.version != m.phase.version
  }

  ghost predicate StaleFindingsHit(digest: Digest, events: seq<Event>, m: Machine, key: CacheKey)
    requires m.phase.Ready?
  {
    var w := LatestFindings(events, key);
    ReadFindings(digest, m.disk, key).Some? && w.Some? && w.value.version != m.phase.version
  }

  /** A live handle hits an entry, of either kind, that a handle of another version wrote. */
  ghost predicate StaleHit(digest: Digest, events: seq<Event>, m: Machine) {
    m.phase.Ready? && exists key :: StaleIrHit(digest, events, m, key) || StaleFindingsHit(digest, events, m, key)
  }

  lemma {:induction false} MarkersStillHold(digest: Digest, events: seq<Event>, tail: seq<Event>)
    requires MarkersHold(digest, events) && MarkerLost !in tail
    ensures MarkersHold(digest, events + tail)
  {
    if tail == [] {
      assert events + tail == events;
    } else {
      var l := |tail| - 1;
      assert tail[l] in tail;
      assert (events + tail)[..|events + tail| - 1] == events + tail[..l];
      MarkersStillHold(digest, events, tail[..l]);
    }
  }

  /** Some later run without another lost write ends in a stale hit. */
  ghost predicate LeadsToStaleHit(digest: Digest, events: seq<Event>) {
    exists tail, n :: MarkerLost !in tail && Runs(digest, FRESH, events + tail, n) && StaleHit(digest, events + tail, n)
  }

  /** Losing a marker write is harmful exactly when the marker left standing names another version: the open
      carries on under that marker, and only then can a later handle be served another version's entry. */
  lemma LostMarkerHarmfulIffVersionsDiffer(digest: Digest, events: seq<Event>, m: Machine)
    requires Runs(digest, FRESH, events, m) && MarkersHold(digest, events) && Enabled(m, MarkerLost)
    ensures LeadsToStaleHit(digest, events + [MarkerLost]) <==> m.disk.marker.value != m.phase.version
  {
    var lost, k := events + [MarkerLost], Step(digest, m, MarkerLost);
    RunsSnoc(digest, FRESH, events, m, MarkerLost);
    assert lost[..|events|] == events;
    if m.disk.marker.value == m.phase.version {
      forall tail, n | MarkerLost !in tail && Runs(digest, FRESH, lost + tail, n)
        ensures !StaleHit(digest, lost + tail, n)
      {
        MarkersStillHold(digest, lost, tail);
        NoStaleHit(digest, lost + tail, n);
      }
    } else {
      var key, payload := CacheKey("", "", "", "", ""), "";
      var v, w := m.phase.version, m.disk.marker.value;
      RunsSnoc(digest, FRESH, lost, k, Opened);
      PutSurvivesReopening(digest, lost + [Opened], Step(digest, k, Opened), key, payload);
      var all := lost + [Opened] + PutThenReopen(v, w, key, payload);
      var n :| Runs(digest, FRESH, all, n) && n.phase == Ready(w) && ReadIr(digest, n.disk, key) == Some(payload)
        && LatestIr(all, IrKeyOf(key)) == Some(Written(v, payload));
      assert StaleIrHit(digest, all, n, key);
      var tail := [Opened] + PutThenReopen(v, w, key, payload);
      assert lost + [Opened] + PutThenReopen(v, w, key, payload) == lost + tail;
      assert MarkerLost !in tail;
    }
  }

  lemma NoStaleHit(digest: Digest, events: seq<Event>, m: Machine)
    requires Runs(digest, FRESH, events, m) && MarkersHold(digest, events)
    ensures !StaleHit(digest, events, m)
  {
    if m.phase.Ready? {
      forall key ensures !StaleIrHit(digest, events, m, key) && !StaleFindingsHit(digest, events, m, key) {
        HitsAreOfOwnVersion(digest, events, m, key);
      }
    }
  }
}
