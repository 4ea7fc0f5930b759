/**
 * Numbered save-state slots on disk: find_slot, verified_payload, hash_payload and capture_slot of
 * android/src/save_states.cpp, with pending_file of core/Utilities/File.cpp as the way to replace
 * a file. The disk keeps a history of every state it was in; a crash may happen in any of them.
 */
module SlotStore {
  import opened Integrity

  datatype Option<T> = None | Some(value: T)

  /** The three names a slot may have, in the order find_slot tries them. */
  datatype Extension = Zst | Gz | Plain

  /** The files that matter: payloads and manifests of slots, temporary files, everything else. */
  datatype Path =
    | Payload(title: string, slot: nat, ext: Extension)
    | Manifest(title: string, slot: nat, ext: Extension)
    | Temp(id: nat)
    | Other(name: string)

  type Disk = map<Path, seq<Byte>>

  type Hash = seq<Byte> -> Digest

  const SLOT_COUNT := 10

  predicate ValidTitle(title: string) {
    0 < |title| <= 128 && forall i :: 0 <= i < |title| ==>
      var ch := title[i];
      'A' <= ch <= 'Z' || 'a' <= ch <= 'z' || '0' <= ch <= '9' || ch == '-' || ch == '_'
  }

  function FindSlot(d: Disk, title: string, slot: nat): Option<Extension> {
    if !ValidTitle(title) || slot >= SLOT_COUNT then None
    else if Payload(title, slot, Zst) in d then Some(Zst)
    else if Payload(title, slot, Gz) in d then Some(Gz)
    else if Payload(title, slot, Plain) in d then Some(Plain)
    else None
  }

  /** hash_payload refuses an empty file and the size it uses to signal an error. */
  predicate Hashable(bytes: seq<Byte>) {
    0 < |bytes| < TWO64 - 1
  }

  function RecordOf(sha: Hash, bytes: seq<Byte>): Record {
    Record(|bytes|, sha(bytes))
  }

  /** verified_payload: the manifest beside the payload authenticates its bytes. */
  ghost predicate Verified(sha: Hash, d: Disk, title: string, slot: nat, ext: Extension) {
    && Manifest(title, slot, ext) in d && Payload(title, slot, ext) in d
    && Hashable(d[Payload(title, slot, ext)])
    && RecordOf(sha, d[Payload(title, slot, ext)]) in Parse(d[Manifest(title, slot, ext)])
  }

  /** A load of the slot finds a file and accepts it. */
  ghost predicate Accepted(sha: Hash, d: Disk, title: string, slot: nat) {
    var found := FindSlot(d, title, slot);
    found.Some? && Verified(sha, d, title, slot, found.value)
  }

  /** The bytes a load of the slot would read. */
  ghost function Contents(d: Disk, title: string, slot: nat): seq<Byte> {
    var found := FindSlot(d, title, slot);
    if found.None? || Payload(title, slot, found.value) !in d then [] else d[Payload(title, slot, found.value)]
  }

  // ----- What a capture may do to the slot -----

  /** The slot is as before: same file found, same bytes, same verdict. */
  ghost predicate SameView(sha: Hash, was: Disk, now: Disk, title: string, slot: nat) {
    var found := FindSlot(was, title, slot);
    && FindSlot(now, title, slot) == found
    && (found.Some? ==>
          && Payload(title, slot, found.value) in was && Payload(title, slot, found.value) in now
          && now[Payload(title, slot, found.value)] == was[Payload(title, slot, found.value)]
          && (Verified(sha, now, title, slot, found.value) <==> Verified(sha, was, title, slot, found.value)))
  }

  /** The slot holds exactly the captured bytes, and they are accepted. */
  ghost predicate HasNew(sha: Hash, now: Disk, title: string, slot: nat, source: seq<Byte>) {
    && FindSlot(now, title, slot) == Some(Zst)
    && Verified(sha, now, title, slot, Zst)
    && now[Payload(title, slot, Zst)] == source
  }

  predicate OfSlot(p: Path, title: string, slot: nat) {
    (p.Payload? || p.Manifest?) && p.title == title && p.slot == slot
  }

  /** Nothing but this slot and temporary files changed. */
  ghost predicate ElsewhereSame(was: Disk, now: Disk, title: string, slot: nat) {
    forall p: Path :: !p.Temp? && !OfSlot(p, title, slot) ==>
      (p in now <==> p in was) && (p in was ==> now[p] == was[p])
  }

  ghost predicate Safe(sha: Hash, was: Disk, now: Disk, title: string, slot: nat, source: seq<Byte>) {
    && (SameView(sha, was, now, title, slot) || HasNew(sha, now, title, slot, source))
    && ElsewhereSame(was, now, title, slot)
  }

  /** The two disks differ in temporary files at most. */
  ghost predicate Alike(d: Disk, e: Disk) {
    forall p: Path :: !p.Temp? ==> (p in d <==> p in e) && (p in d ==> d[p] == e[p])
  }

  lemma AlikeDecides(sha: Hash, was: Disk, was': Disk, now: Disk, now': Disk, title: string, slot: nat, source: seq<Byte>)
    requires Alike(was, was') && Alike(now, now')
    requires Safe(sha, was, now, title, slot, source)
    ensures Safe(sha, was', now', title, slot, source)
    ensures HasNew(sha, now, title, slot, source) ==> HasNew(sha, now', title, slot, source)
    ensures SameView(sha, was, now, title, slot) ==> SameView(sha, was', now', title, slot)
  {
  }

  // ----- The stages of a capture -----

  /** The records the new manifest accepts: the payload it replaces, if another one, and the new one. */
  ghost predicate Bridges(sha: Hash, was: Disk, title: string, slot: nat, source: seq<Byte>, records: seq<Record>) {
    && ValidTitle(title) && slot < SLOT_COUNT && Hashable(source)
    && Writable(records) && RecordOf(sha, source) in records
    && (Payload(title, slot, Zst) in was ==>
          Verified(sha, was, title, slot, Zst) && RecordOf(sha, was[Payload(title, slot, Zst)]) in records)
  }

  /** Publishing the manifest alone changes nothing a load could see. */
  lemma ManifestFirst(sha: Hash, was: Disk, title: string, slot: nat, source: seq<Byte>, records: seq<Record>)
    requires Bridges(sha, was, title, slot, source, records)
    ensures var now := was[Manifest(title, slot, Zst) := Serialize(records)];
            SameView(sha, was, now, title, slot) && Safe(sha, was, now, title, slot, source)
  {
    ParseOfSerialize(records);
  }

  /** With the manifest in place, the rename of the payload is the moment of change. */
  lemma PayloadNext(sha: Hash, was: Disk, title: string, slot: nat, source: seq<Byte>, records: seq<Record>)
    requires Bridges(sha, was, title, slot, source, records)
    ensures var now := was[Manifest(title, slot, Zst) := Serialize(records)][Payload(title, slot, Zst) := source];
            HasNew(sha, now, title, slot, source) && Safe(sha, was, now, title, slot, source)
  {
    ParseOfSerialize(records);
  }

  /** Afterwards any manifest that accepts the new payload will do. */
  lemma ThenCompact(sha: Hash, was: Disk, now: Disk, title: string, slot: nat, source: seq<Byte>)
    requires HasNew(sha, now, title, slot, source) && ElsewhereSame(was, now, title, slot)
    ensures var after := now[Manifest(title, slot, Zst) := Serialize([RecordOf(sha, source)])];
            HasNew(sha, after, title, slot, source) && Safe(sha, was, after, title, slot, source)
  {
    ParseOfSerialize([RecordOf(sha, source)]);
  }

  /** And removing the obsolete variants does no harm. */
  lemma ThenRemove(sha: Hash, was: Disk, now: Disk, title: string, slot: nat, source: seq<Byte>, p: Path)
    requires HasNew(sha, now, title, slot, source) && ElsewhereSame(was, now, title, slot)
    requires OfSlot(p, title, slot) && p.ext != Zst
    ensures HasNew(sha, now - {p}, title, slot, source) && Safe(sha, was, now - {p}, title, slot, source)
  {
  }

  lemma NothingYet(sha: Hash, was: Disk, title: string, slot: nat, source: seq<Byte>)
    ensures SameView(sha, was, was, title, slot) && Safe(sha, was, was, title, slot, source)
  {
  }

  /** The stages in order: one has the new manifest, two also the payload. */
  lemma Stages(
    sha: Hash, was: Disk, title: string, slot: nat, source: seq<Byte>, records: seq<Record>, one: Disk, two: Disk)
    requires Bridges(sha, was, title, slot, source, records)
    requires one == was[Manifest(title, slot, Zst) := Serialize(records)]
    requires two == one[Payload(title, slot, Zst) := source]
    ensures Safe(sha, was, was, title, slot, source) && SameView(sha, was, was, title, slot)
    ensures Safe(sha, was, one, title, slot, source) && SameView(sha, was, one, title, slot)
    ensures Safe(sha, was, two, title, slot, source) && HasNew(sha, two, title, slot, source)
  {
    NothingYet(sha, was, title, slot, source);
    ManifestFirst(sha, was, title, slot, source, records);
    PayloadNext(sha, was, title, slot, source, records);
  }

  // ----- Whole runs -----

  predicate SameFile(was: Disk, now: Disk, p: Path) {
    (p in now <==> p in was) && (p in was ==> now[p] == was[p])
  }

  /** The files of the slot are untouched. */
  predicate SlotSame(was: Disk, now: Disk, title: string, slot: nat) {
    && SameFile(was, now, Payload(title, slot, Zst)) && SameFile(was, now, Manifest(title, slot, Zst))
    && SameFile(was, now, Payload(title, slot, Gz)) && SameFile(was, now, Manifest(title, slot, Gz))
    && SameFile(was, now, Payload(title, slot, Plain)) && SameFile(was, now, Manifest(title, slot, Plain))
  }

  /**
   * What happens to the disk: an attempt to capture source into a slot, finished, failed or cut off
   * by a crash; or anything else, such as the emulator writing its own state files.
   */
  datatype Event = Attempt(title: string, slot: nat, source: seq<Byte>) | Outside

  /** One event, from the viewpoint of one slot, whose files nobody but a capture touches. */
  ghost predicate EventStep(sha: Hash, was: Disk, event: Event, now: Disk, title: string, slot: nat) {
    match event
    case Attempt(target, number, source) => Safe(sha, was, now, target, number, source)
    case Outside => SlotSame(was, now, title, slot)
  }

  ghost predicate EventRun(sha: Hash, disks: seq<Disk>, events: seq<Event>, title: string, slot: nat) {
    && |disks| == |events| + 1
    && forall i :: 0 <= i < |events| ==> EventStep(sha, disks[i], events[i], disks[i + 1], title, slot)
  }

  /** The contents of the slot come from one of the first n events. */
  ghost predicate Captured(events: seq<Event>, n: nat, title: string, slot: nat, bytes: seq<Byte>) {
    exists i :: 0 <= i < n && i < |events| && events[i] == Attempt(title, slot, bytes)
  }

  lemma UntouchedIsSame(sha: Hash, was: Disk, now: Disk, title: string, slot: nat)
    requires SlotSame(was, now, title, slot)
    ensures SameView(sha, was, now, title, slot)
  {
  }

  /** A capture into another slot does not touch this one. */
  lemma OtherSlotIsUntouched(was: Disk, now: Disk, target: string, number: nat, title: string, slot: nat)
    requires ElsewhereSame(was, now, target, number) && (target != title || number != slot)
    ensures SlotSame(was, now, title, slot)
  {
  }

  lemma EventKeepsAccepted(sha: Hash, was: Disk, event: Event, now: Disk, title: string, slot: nat)
    requires EventStep(sha, was, event, now, title, slot) && Accepted(sha, was, title, slot)
    ensures Accepted(sha, now, title, slot)
    ensures Contents(now, title, slot) == Contents(was, title, slot)
         || event == Attempt(title, slot, Contents(now, title, slot))
  {
    match event
    case Attempt(target, number, source) =>
      if target != title || number != slot {
        OtherSlotIsUntouched(was, now, target, number, title, slot);
        UntouchedIsSame(sha, was, now, title, slot);
      }
    case Outside => UntouchedIsSame(sha, was, now, title, slot);
  }

  /**
   * Once a slot is accepted it stays accepted through every run of captures into any slots, crashes
   * and outside changes, and what it holds is the first payload or one captured into it, whole.
   */
  lemma {:induction false} AcceptedForever(
    sha: Hash, disks: seq<Disk>, events: seq<Event>, title: string, slot: nat, k: nat)
    requires EventRun(sha, disks, events, title, slot) && k < |disks|
    requires Accepted(sha, disks[0], title, slot)
    ensures Accepted(sha, disks[k], title, slot)
    ensures Contents(disks[k], title, slot) == Contents(disks[0], title, slot)
         || Captured(events, k, title, slot, Contents(disks[k], title, slot))
  {
    if k > 0 {
      AcceptedForever(sha, disks, events, title, slot, k - 1);
      EventKeepsAccepted(sha, disks[k - 1], events[k - 1], disks[k], title, slot);
      assert events[k - 1] == Attempt(title, slot, Contents(disks[k], title, slot)) ==>
        Captured(events, k, title, slot, Contents(disks[k], title, slot));
    }
  }

  lemma RunExtended(
    sha: Hash, disks: seq<Disk>, events: seq<Event>, title: string, slot: nat, event: Event, now: Disk)
    requires EventRun(sha, disks, events, title, slot)
    requires EventStep(sha, disks[|disks| - 1], event, now, title, slot)
    ensures EventRun(sha, disks + [now], events + [event], title, slot)
  {
    var longer, all := disks + [now], events + [event];
    forall i | 0 <= i < |all|
      ensures EventStep(sha, longer[i], all[i], longer[i + 1], title, slot)
    {
      if i < |events| {
        assert EventStep(sha, disks[i], events[i], disks[i + 1], title, slot);
      }
    }
  }

  // ----- History -----

  /** From position n on, every state looks like one of the two given ones, temporary files aside. */
  ghost predicate LooksLike(history: seq<Disk>, n: nat, a: Disk, b: Disk) {
    forall k :: n <= k < |history| ==> Alike(history[k], a) || Alike(history[k], b)
  }

  lemma LookOnce(history: seq<Disk>, n: nat, a: Disk, b: Disk, next: Disk)
    requires LooksLike(history, n, a, b) && (Alike(next, a) || Alike(next, b))
    ensures LooksLike(history + [next], n, a, b)
  {
  }

  ghost predicate SafeSince(
    history: seq<Disk>, n: nat, sha: Hash, was: Disk, title: string, slot: nat, source: seq<Byte>)
  {
    forall k :: n <= k < |history| ==> Safe(sha, was, history[k], title, slot, source)
  }

  lemma StaysSafe(
    before: seq<Disk>, after: seq<Disk>, n: nat, sha: Hash, was: Disk, title: string, slot: nat, source: seq<Byte>,
    a: Disk, b: Disk)
    requires SafeSince(before, n, sha, was, title, slot, source)
    requires before <= after && LooksLike(after, |before|, a, b)
    requires Safe(sha, was, a, title, slot, source) && Safe(sha, was, b, title, slot, source)
    ensures SafeSince(after, n, sha, was, title, slot, source)
  {
    forall k | n <= k < |after| ensures Safe(sha, was, after[k], title, slot, source) {
      if k < |before| {
        assert after[k] == before[k];
      } else if Alike(after[k], a) {
        AlikeDecides(sha, was, was, a, after[k], title, slot, source);
      } else {
        AlikeDecides(sha, was, was, b, after[k], title, slot, source);
      }
    }
  }

  /** Looking the same at the start, two disks make the same later states safe. */
  lemma Rebase(
    history: seq<Disk>, n: nat, sha: Hash, was: Disk, was': Disk, title: string, slot: nat, source: seq<Byte>)
    requires SafeSince(history, n, sha, was, title, slot, source) && Alike(was, was')
    ensures SafeSince(history, n, sha, was', title, slot, source)
  {
    forall k | n <= k < |history| ensures Safe(sha, was', history[k], title, slot, source) {
      AlikeDecides(sha, was, was', history[k], history[k], title, slot, source);
    }
  }

  /** What capture_slot did to the disk, told by its result. */
  ghost predicate CaptureEffect(
    sha: Hash, was: Disk, title: string, slot: nat, source: seq<Byte>, ok: bool, now: Disk)
  {
    && ElsewhereSame(was, now, title, slot)
    && (ok ==> HasNew(sha, now, title, slot, source))
    && (!ok ==> SameView(sha, was, now, title, slot))
  }

  /** A slot that holds new bytes keeps them through a failed capture and outside changes. */
  lemma NewStays(sha: Hash, was: Disk, now: Disk, title: string, slot: nat, bytes: seq<Byte>)
    requires HasNew(sha, was, title, slot, bytes)
    requires SameView(sha, was, now, title, slot) || SlotSame(was, now, title, slot)
    ensures HasNew(sha, now, title, slot, bytes)
  {
  }

  lemma NewIsAccepted(sha: Hash, now: Disk, title: string, slot: nat, bytes: seq<Byte>)
    requires HasNew(sha, now, title, slot, bytes)
    ensures Accepted(sha, now, title, slot) && Contents(now, title, slot) == bytes
  {
  }

  // ----- The code -----

  /** The file a capture copies; a missing one counts as empty. */
  function SourceOf(d: Disk, path: string): seq<Byte> {
    if Other(path) in d then d[Other(path)] else []
  }

  /** The size of the buffer hash_payload copies with. */
  const CHUNK := 65536

  /** What is asked of a device: a capture, or another change of the disk. */
  datatype Request = Capture(title: string, slot: nat, written: bool, path: string) | Modify(next: Disk)

  /** A number no temporary file has yet. */
  lemma UnusedTemp(paths: set<Path>) returns (n: nat)
    ensures forall p :: p in paths && p.Temp? ==> p.id < n
  {
    if paths == {} {
      n := 0;
    } else {
      var p :| p in paths;
      n := UnusedTemp(paths - {p});
      if p.Temp? && n <= p.id {
        n := p.id + 1;
      }
    }
  }

  /** The name of a finished state file: something followed by ".SAVESTAT.zst". */
  ghost predicate StateFile(path: string) {
    exists base: string :: path == base + ".SAVESTAT.zst"
  }

  /** The slot is empty, or its manifest authenticates what would be replaced. */
  ghost predicate Replaceable(sha: Hash, d: Disk, title: string, slot: nat) {
    Payload(title, slot, Zst) in d ==> Verified(sha, d, title, slot, Zst)
  }

  /** What a capture needs besides a system that refuses nothing. */
  ghost predicate Capturable(sha: Hash, d: Disk, title: string, slot: nat, written: bool, path: string) {
    && written && Other(path) in d && StateFile(path) && Hashable(d[Other(path)])
    && Replaceable(sha, d, title, slot)
  }

  /** Only the new payload is left of the slot, and its manifest accepts nothing else. */
  ghost predicate Tidy(sha: Hash, d: Disk, title: string, slot: nat, source: seq<Byte>) {
    && Manifest(title, slot, Zst) in d && d[Manifest(title, slot, Zst)] == Serialize([RecordOf(sha, source)])
    && NoObsolete(d, title, slot)
  }

  ghost predicate NoObsolete(d: Disk, title: string, slot: nat) {
    && Payload(title, slot, Gz) !in d && Manifest(title, slot, Gz) !in d
    && Payload(title, slot, Plain) !in d && Manifest(title, slot, Plain) !in d
  }

  lemma SuffixIs(path: string)
    ensures EndsWith(path, ".SAVESTAT.zst") <==> StateFile(path)
  {
    var suffix := ".SAVESTAT.zst";
    if EndsWith(path, suffix) {
      assert path == path[..|path| - |suffix|] + suffix;
    }
    forall base: string | path == base + suffix
      ensures EndsWith(path, suffix)
    {
      assert path[|path| - |suffix|..] == suffix;
    }
  }

  /** calm says that the system refuses nothing: no read, write, rename or removal fails. */
  class Store {
    const sha256: Hash
    const calm: bool
    var disk: Disk
    var history: seq<Disk>

    constructor (sha256: Hash, calm: bool, disk: Disk)
      ensures this.sha256 == sha256 && this.calm == calm && this.disk == disk && history == [disk]
    {
      this.sha256, this.calm, this.disk, this.history := sha256, calm, disk, [disk];
    }

    /** The answer of the system to one request. */
    method Granted() returns (ok: bool)
      ensures calm ==> ok
    {
      ok := *;
      ok := ok || calm;
    }

    /** How much of a failed write was written. */
    method Part(count: nat) returns (n: nat)
      ensures n <= count
    {
      var k: int := *;
      n := if 0 <= k <= count then k else count;
    }

    /** One atomic change of the disk. */
    method Change(next: Disk)
      modifies this
      ensures disk == next && history == old(history) + [next]
    {
      disk, history := next, history + [next];
    }

    /** pending_file::open: a new temporary file under an unused name, or failure. */
    method OpenTemp() returns (temp: Option<nat>)
      modifies this
      ensures calm ==> temp.Some?
      ensures temp.None? ==> disk == old(disk) && history == old(history)
      ensures temp.Some? ==> Temp(temp.value) !in old(disk) && disk == old(disk)[Temp(temp.value) := []]
      ensures temp.Some? ==> history == old(history) + [disk]
    {
      var created := Granted();
      if !created {
        return None;
      }
      ghost var n := UnusedTemp(disk.Keys);
      assert Temp(n) !in disk;
      var id: nat :| Temp(id) !in disk;
      Change(disk[Temp(id) := []]);
      temp := Some(id);
    }

    /** The destructor of pending_file; the removal may fail. */
    method DropTemp(id: nat)
      modifies this
      ensures history == old(history) || history == old(history) + [disk]
      ensures Alike(disk, old(disk))
      ensures forall t :: t != id && Temp(t) in old(disk) ==> Temp(t) in disk && disk[Temp(t)] == old(disk)[Temp(t)]
    {
      var removed := Granted();
      if removed {
        Change(disk - {Temp(id)});
      }
    }

    /** pending_file::commit: the temporary file takes the place of dest in one step, or nothing happens. */
    method CommitTemp(id: nat, dest: Path) returns (ok: bool)
      requires Temp(id) in disk && !dest.Temp?
      modifies this
      ensures calm ==> ok
      ensures !ok ==> disk == old(disk) && history == old(history)
      ensures ok ==> Alike(disk, old(disk)[dest := old(disk)[Temp(id)]]) && history == old(history) + [disk]
      ensures forall t :: t != id && Temp(t) in old(disk) ==> Temp(t) in disk && disk[Temp(t)] == old(disk)[Temp(t)]
    {
      ok := Granted();
      if ok {
        Change((disk - {Temp(id)})[dest := disk[Temp(id)]]);
      }
    }
  
    /**
     * hash_payload with a copy: reads the source in chunks, hashes it and appends it to the
     * temporary file. Reading, writing and the final size test may fail, a write also half-way.
     */
    method CopyPayload(source: seq<Byte>, id: nat) returns (ok: bool, record: Record)
      requires Temp(id) in disk && disk[Temp(id)] == []
      modifies this
      ensures old(history) <= history && LooksLike(history, |old(history)|, old(disk), old(disk))
      ensures Alike(disk, old(disk)) && Temp(id) in disk
      ensures ok ==> Hashable(source) && disk[Temp(id)] == source && record == RecordOf(sha256, source)
      ensures calm ==> (ok <==> Hashable(source))
    {
      record := Record(0, sha256([]));
      var started := Granted();
      if |source| == 0 || |source| >= TWO64 - 1 || !started {
        return false, record;
      }
      var hashed: seq<Byte> := [];
      while |hashed| < |source|
        invariant hashed <= source && Temp(id) in disk && disk[Temp(id)] == hashed
        invariant old(history) <= history && LooksLike(history, |old(history)|, old(disk), old(disk))
        invariant Alike(disk, old(disk))
        decreases |source| - |hashed|
      {
        var count := if |source| - |hashed| < CHUNK then |source| - |hashed| else CHUNK;
        var chunk := source[|hashed|..|hashed| + count];
        var readOk := Granted();
        if !readOk {
          return false, record;
        }
        var wroteAll := Granted();
        if !wroteAll {
          var wrote := Part(count);
          Change(disk[Temp(id) := disk[Temp(id)] + chunk[..wrote]]);
          return false, record;
        }
        Change(disk[Temp(id) := disk[Temp(id)] + chunk]);
        hashed := hashed + chunk;
      }
      var sameSize := Granted();
      ok, record := sameSize, Record(|source|, sha256(hashed));
    }

    /** verified_payload; without an I/O error the answer is exact. */
    method VerifyPayload(title: string, slot: nat, ext: Extension) returns (ok: bool, record: Record, ioError: bool)
      ensures ok ==> Verified(sha256, disk, title, slot, ext)
      ensures ok ==> record == RecordOf(sha256, disk[Payload(title, slot, ext)])
      ensures calm ==> !ioError
      ensures !ioError ==> (ok <==> Verified(sha256, disk, title, slot, ext))
    {
      var readable := Granted();
      ok, record, ioError := false, Record(0, sha256([])), !readable;
      if ioError || Manifest(title, slot, ext) !in disk {
        return;
      }
      var records := Read(disk[Manifest(title, slot, ext)]);
      if records == [] || Payload(title, slot, ext) !in disk {
        return;
      }
      var bytes := disk[Payload(title, slot, ext)];
      if forall r :: r in records ==> r.size != |bytes| {
        return;
      }
      if |bytes| == 0 || |bytes| >= TWO64 - 1 {
        return;
      }
      var actual := Record(|bytes|, sha256(bytes));
      ok, record := actual in records, actual;
    }

    /** write_integrity: the manifest is replaced in one step, or stays. */
    method WriteIntegrity(title: string, slot: nat, records: seq<Record>) returns (ok: bool)
      requires 1 <= |records| <= 2
      modifies this
      ensures calm ==> ok
      ensures old(history) <= history
      ensures var next := old(disk)[Manifest(title, slot, Zst) := Serialize(records)];
              && LooksLike(history, |old(history)|, old(disk), next)
              && Alike(disk, if ok then next else old(disk))
      ensures forall t :: Temp(t) in old(disk) ==> Temp(t) in disk && disk[Temp(t)] == old(disk)[Temp(t)]
    {
      var built, bytes := Write(records);
      ghost var next := disk[Manifest(title, slot, Zst) := Serialize(records)];
      var temp := OpenTemp();
      if temp.None? {
        return false;
      }
      var id := temp.value;
      LookOnce(old(history), |old(history)|, old(disk), next, disk);
      ghost var h := history;
      ok := FillTemp(id, bytes);
      LookOnce(h, |old(history)|, old(disk), next, disk);
      h := history;
      if ok {
        ok := CommitTemp(id, Manifest(title, slot, Zst));
      }
      if ok {
        LookOnce(h, |old(history)|, old(disk), next, disk);
      } else {
        DropTemp(id);
        LookOnce(h, |old(history)|, old(disk), next, disk);
      }
    }

    /** One write into the temporary file; a short write counts as a failure. */
    method FillTemp(id: nat, bytes: seq<Byte>) returns (ok: bool)
      requires Temp(id) in disk
      modifies this
      ensures calm ==> ok
      ensures history == old(history) + [disk] && Alike(disk, old(disk)) && Temp(id) in disk
      ensures ok ==> disk[Temp(id)] == bytes
      ensures forall t :: t != id && Temp(t) in old(disk) ==> Temp(t) in disk && disk[Temp(t)] == old(disk)[Temp(t)]
    {
      ok := Granted();
      if ok {
        Change(disk[Temp(id) := bytes]);
      } else {
        var wrote := Part(|bytes|);
        Change(disk[Temp(id) := bytes[..wrote]]);
      }
    }

    /** Removes a file; the removal may fail. */
    method Remove(p: Path)
      modifies this
      ensures (history == old(history) && disk == old(disk))
           || (history == old(history) + [disk] && disk == old(disk) - {p})
      ensures calm ==> p !in disk
    {
      var removed := Granted();
      if p in disk && removed {
        Change(disk - {p});
      }
    }

    /** One obsolete file. */
    method RemoveOne(title: string, slot: nat, p: Path, ghost was: Disk, ghost source: seq<Byte>)
      requires HasNew(sha256, disk, title, slot, source) && ElsewhereSame(was, disk, title, slot)
      requires OfSlot(p, title, slot) && p.ext != Zst
      modifies this
      ensures old(history) <= history && SafeSince(history, |old(history)|, sha256, was, title, slot, source)
      ensures HasNew(sha256, disk, title, slot, source) && ElsewhereSame(was, disk, title, slot)
      ensures calm ==> disk == old(disk) - {p}
      ensures SameFile(old(disk), disk, Manifest(title, slot, Zst))
    {
      ThenRemove(sha256, was, disk, title, slot, source, p);
      Remove(p);
    }

    /** The files of the other names of the slot, which the new one makes obsolete. */
    method RemoveObsolete(title: string, slot: nat, ghost was: Disk, ghost source: seq<Byte>)
      requires HasNew(sha256, disk, title, slot, source) && ElsewhereSame(was, disk, title, slot)
      modifies this
      ensures old(history) <= history && SafeSince(history, |old(history)|, sha256, was, title, slot, source)
      ensures HasNew(sha256, disk, title, slot, source) && ElsewhereSame(was, disk, title, slot)
      ensures calm ==> NoObsolete(disk, title, slot)
      ensures SameFile(old(disk), disk, Manifest(title, slot, Zst))
    {
      var obsolete :=
        [Payload(title, slot, Gz), Manifest(title, slot, Gz), Payload(title, slot, Plain), Manifest(title, slot, Plain)];
      for i := 0 to |obsolete|
        invariant old(history) <= history && SafeSince(history, |old(history)|, sha256, was, title, slot, source)
        invariant HasNew(sha256, disk, title, slot, source) && ElsewhereSame(was, disk, title, slot)
        invariant calm ==> forall j :: 0 <= j < i ==> obsolete[j] !in disk
        invariant SameFile(old(disk), disk, Manifest(title, slot, Zst))
      {
        ghost var h := history;
        RemoveOne(title, slot, obsolete[i], was, source);
        SafeJoin(h, history, |old(history)|, sha256, was, title, slot, source);
      }
      assert calm ==> obsolete[0] !in disk && obsolete[1] !in disk && obsolete[2] !in disk && obsolete[3] !in disk;
    }

    /** Which payloads the new manifest must accept; nothing if an existing slot is not authentic. */
    method Records(title: string, slot: nat, ghost source: seq<Byte>, candidate: Record) returns (records: seq<Record>)
      requires ValidTitle(title) && slot < SLOT_COUNT && Hashable(source) && candidate == RecordOf(sha256, source)
      ensures records == [] || Bridges(sha256, disk, title, slot, source, records)
      ensures records != [] ==> candidate == records[|records| - 1]
      ensures !Replaceable(sha256, disk, title, slot) ==> records == []
      ensures calm && Replaceable(sha256, disk, title, slot) ==> records != []
    {
      var statOk := Granted();
      if !statOk {
        return [];
      }
      if Payload(title, slot, Zst) in disk {
        var ok, previous, ioError := VerifyPayload(title, slot, Zst);
        if !ok {
          return [];
        }
        records := if previous != candidate then [previous, candidate] else [candidate];
      } else {
        records := [candidate];
      }
    }

    /** From the copied temporary file to the finished slot. */
    method Publish(title: string, slot: nat, source: seq<Byte>, candidate: Record, id: nat) returns (ok: bool)
      requires ValidTitle(title) && slot < SLOT_COUNT && Hashable(source) && candidate == RecordOf(sha256, source)
      requires Temp(id) in disk && disk[Temp(id)] == source
      modifies this
      ensures old(history) <= history && SafeSince(history, |old(history)|, sha256, old(disk), title, slot, source)
      ensures ok ==> HasNew(sha256, disk, title, slot, source) && ElsewhereSame(old(disk), disk, title, slot)
      ensures !ok ==> SameView(sha256, old(disk), disk, title, slot) && ElsewhereSame(old(disk), disk, title, slot)
      ensures !Replaceable(sha256, old(disk), title, slot) ==> !ok && disk == old(disk) && history == old(history)
      ensures calm && Replaceable(sha256, old(disk), title, slot) ==> ok && Tidy(sha256, disk, title, slot, source)
    {
      NothingYet(sha256, disk, title, slot, source);
      var records := Records(title, slot, source, candidate);
      if records == [] {
        return false;
      }
      ok := PublishRecords(title, slot, source, records, id);
      if ok {
        TidyUp(title, slot, source, records, old(disk), |old(history)|);
      }
    }

    /** What follows the publication: the manifest shrinks to one record and obsolete files go. */
    method TidyUp(
      title: string, slot: nat, source: seq<Byte>, records: seq<Record>, ghost was: Disk, ghost n: nat)
      requires HasNew(sha256, disk, title, slot, source) && ElsewhereSame(was, disk, title, slot)
      requires records != [] && records[|records| - 1] == RecordOf(sha256, source) && |records| <= 2
      requires disk[Manifest(title, slot, Zst)] == Serialize(records)
      requires n <= |history| && SafeSince(history, n, sha256, was, title, slot, source)
      modifies this
      ensures old(history) <= history && SafeSince(history, n, sha256, was, title, slot, source)
      ensures HasNew(sha256, disk, title, slot, source) && ElsewhereSame(was, disk, title, slot)
      ensures calm ==> Tidy(sha256, disk, title, slot, source)
    {
      ghost var h := history;
      if |records| > 1 {
        Compact(title, slot, was, source);
        SafeJoin(h, history, n, sha256, was, title, slot, source);
      }
      h := history;
      assert calm ==> disk[Manifest(title, slot, Zst)] == Serialize([RecordOf(sha256, source)]);
      RemoveObsolete(title, slot, was, source);
      SafeJoin(h, history, n, sha256, was, title, slot, source);
    }

    /** Publish, as a part of a capture that started with the disk was. */
    method PublishFrom(
      title: string, slot: nat, source: seq<Byte>, candidate: Record, id: nat, ghost was: Disk, ghost n: nat)
      returns (ok: bool)
      requires ValidTitle(title) && slot < SLOT_COUNT && Hashable(source) && candidate == RecordOf(sha256, source)
      requires Temp(id) in disk && disk[Temp(id)] == source
      requires Alike(disk, was) && n <= |history| && LooksLike(history, n, was, was)
      requires SafeSince(history, n, sha256, was, title, slot, source)
      modifies this
      ensures old(history) <= history && SafeSince(history, n, sha256, was, title, slot, source)
      ensures Safe(sha256, was, disk, title, slot, source)
      ensures ok ==> HasNew(sha256, disk, title, slot, source)
      ensures !ok ==> SameView(sha256, was, disk, title, slot)
      ensures !Replaceable(sha256, was, title, slot) ==> !ok && Alike(disk, was) && history == old(history)
      ensures calm && Replaceable(sha256, was, title, slot) ==> ok && Tidy(sha256, disk, title, slot, source)
    {
      ghost var h, d := history, disk;
      SameReplaceable(sha256, d, was, title, slot);
      ok := Publish(title, slot, source, candidate, id);
      Rebase(history, |h|, sha256, d, was, title, slot, source);
      SafeJoin(h, history, n, sha256, was, title, slot, source);
      AlikeDecides(sha256, d, was, disk, disk, title, slot, source);
    }

    /** The manifest first, then the payload. */
    method PublishRecords(title: string, slot: nat, source: seq<Byte>, records: seq<Record>, id: nat) returns (ok: bool)
      requires Bridges(sha256, disk, title, slot, source, records)
      requires Temp(id) in disk && disk[Temp(id)] == source
      modifies this
      ensures old(history) <= history && SafeSince(history, |old(history)|, sha256, old(disk), title, slot, source)
      ensures ok ==> HasNew(sha256, disk, title, slot, source) && ElsewhereSame(old(disk), disk, title, slot)
      ensures ok ==> disk[Manifest(title, slot, Zst)] == Serialize(records)
      ensures !ok ==> SameView(sha256, old(disk), disk, title, slot) && ElsewhereSame(old(disk), disk, title, slot)
      ensures calm ==> ok
    {
      ghost var was := disk;
      ghost var one := was[Manifest(title, slot, Zst) := Serialize(records)];
      ghost var two := one[Payload(title, slot, Zst) := source];
      Stages(sha256, was, title, slot, source, records, one, two);
      ok := WriteIntegrity(title, slot, records);
      StaysSafe(old(history), history, |old(history)|, sha256, was, title, slot, source, was, one);
      AlikeDecides(sha256, was, was, if ok then one else was, disk, title, slot, source);
      if !ok {
        return;
      }
      ghost var h := history;
      ok := CommitTemp(id, Payload(title, slot, Zst));
      if ok {
        AlikeDecides(sha256, was, was, two, disk, title, slot, source);
        StaysSafe(h, history, |old(history)|, sha256, was, title, slot, source, two, two);
      }
    }

    /** Publication is complete; a failed compaction only leaves two valid records. */
    method Compact(title: string, slot: nat, ghost was: Disk, source: seq<Byte>)
      requires HasNew(sha256, disk, title, slot, source) && ElsewhereSame(was, disk, title, slot)
      modifies this
      ensures old(history) <= history && SafeSince(history, |old(history)|, sha256, was, title, slot, source)
      ensures HasNew(sha256, disk, title, slot, source) && ElsewhereSame(was, disk, title, slot)
      ensures calm ==> disk[Manifest(title, slot, Zst)] == Serialize([RecordOf(sha256, source)])
    {
      ghost var now := disk;
      ghost var after := now[Manifest(title, slot, Zst) := Serialize([RecordOf(sha256, source)])];
      ThenCompact(sha256, was, now, title, slot, source);
      var ok := WriteIntegrity(title, slot, [RecordOf(sha256, source)]);
      StaysSafe(old(history), history, |old(history)|, sha256, was, title, slot, source, now, after);
      AlikeDecides(sha256, was, was, if ok then after else now, disk, title, slot, source);
    }

    /**
     * capture_slot: copies the file path into the slot. In every state the disk goes through, so
     * after a crash at any moment, the slot is as it was or holds exactly the copied bytes and is
     * accepted, and nothing else has changed. Success means the latter, failure the former. A slot
     * file that its manifest does not authenticate is never replaced and never blessed. When the
     * system refuses nothing, the capture succeeds exactly if it can, and leaves only the new payload.
     */
    method CaptureSlot(title: string, slot: nat, written: bool, path: string) returns (ok: bool)
      requires ValidTitle(title) && slot < SLOT_COUNT
      modifies this
      ensures old(history) <= history
      ensures var source := SourceOf(old(disk), path);
              && SafeSince(history, |old(history)|, sha256, old(disk), title, slot, source)
              && CaptureEffect(sha256, old(disk), title, slot, source, ok, disk)
      ensures ok ==> Capturable(sha256, old(disk), title, slot, written, path)
      ensures !Replaceable(sha256, old(disk), title, slot) ==>
                !ok && LooksLike(history, |old(history)|, old(disk), old(disk))
      ensures calm ==> (ok <==> Capturable(sha256, old(disk), title, slot, written, path))
      ensures calm && ok ==> Tidy(sha256, disk, title, slot, SourceOf(old(disk), path))
    {
      ghost var was, n := disk, |history|;
      NothingYet(sha256, was, title, slot, SourceOf(was, path));
      SuffixIs(path);
      if !written || path == "" || Other(path) !in disk || !EndsWith(path, ".SAVESTAT.zst") {
        return false;
      }
      var source := disk[Other(path)];
      var prepared := Granted();
      if !prepared {
        return false;
      }
      var copied, id, candidate := CopyToTemp(source);
      StaysSafe(old(history), history, n, sha256, was, title, slot, source, was, was);
      AlikeDecides(sha256, was, was, was, disk, title, slot, source);
      if !copied {
        return false;
      }
      ok := PublishOrDrop(title, slot, source, candidate, id, was, n);
    }

    /** The temporary file beside the slot, filled and hashed; on failure it is dropped. */
    method CopyToTemp(source: seq<Byte>) returns (copied: bool, id: nat, candidate: Record)
      modifies this
      ensures old(history) <= history && LooksLike(history, |old(history)|, old(disk), old(disk))
      ensures Alike(disk, old(disk))
      ensures copied ==> Temp(id) in disk && disk[Temp(id)] == source
      ensures copied ==> Hashable(source) && candidate == RecordOf(sha256, source)
      ensures calm ==> (copied <==> Hashable(source))
    {
      ghost var was, n := disk, |history|;
      var output := OpenTemp();
      if output.None? {
        return false, 0, Record(0, sha256([]));
      }
      id := output.value;
      LookOnce(old(history), n, was, was, disk);
      ghost var h, d := history, disk;
      copied, candidate := CopyPayload(source, id);
      LooksJoin(h, history, n, was, d);
      if !copied {
        h := history;
        DropTemp(id);
        LookOnce(h, n, was, was, disk);
      }
    }

    /** PublishFrom, and the destructor of the pending file if that fails. */
    method PublishOrDrop(
      title: string, slot: nat, source: seq<Byte>, candidate: Record, id: nat, ghost was: Disk, ghost n: nat)
      returns (ok: bool)
      requires ValidTitle(title) && slot < SLOT_COUNT && Hashable(source) && candidate == RecordOf(sha256, source)
      requires Temp(id) in disk && disk[Temp(id)] == source
      requires Alike(disk, was) && n <= |history| && LooksLike(history, n, was, was)
      requires SafeSince(history, n, sha256, was, title, slot, source)
      modifies this
      ensures old(history) <= history && SafeSince(history, n, sha256, was, title, slot, source)
      ensures Safe(sha256, was, disk, title, slot, source)
      ensures ok ==> HasNew(sha256, disk, title, slot, source)
      ensures !ok ==> SameView(sha256, was, disk, title, slot)
      ensures !Replaceable(sha256, was, title, slot) ==> !ok && LooksLike(history, n, was, was)
      ensures calm && Replaceable(sha256, was, title, slot) ==> ok && Tidy(sha256, disk, title, slot, source)
    {
      ok := PublishFrom(title, slot, source, candidate, id, was, n);
      if !ok {
        ghost var before, d := history, disk;
        DropTemp(id);
        StaysSafe(before, history, n, sha256, was, title, slot, source, d, d);
        AlikeDecides(sha256, was, was, d, disk, title, slot, source);
        if Alike(d, was) && before == old(history) {
          LookOnce(before, n, was, was, disk);
        }
      }
    }

    /** A capture during which the device may crash: the disk is then left in any state it went through. */
    method CaptureOrCrash(title: string, slot: nat, written: bool, path: string)
      requires ValidTitle(title) && slot < SLOT_COUNT
      modifies this
      ensures Safe(sha256, old(disk), disk, title, slot, SourceOf(old(disk), path))
    {
      var n := |history|;
      ghost var was := disk;
      var ok := CaptureSlot(title, slot, written, path);
      var crash: int := *;
      if n <= crash < |history| {
        disk, history := history[crash], history[..crash + 1];
      }
    }

    /**
     * Any session, watched from one slot: captures into any slots, each of which may crash, and
     * changes that leave the files of the watched slot alone.
     */
    method Session(requests: seq<Request>, title: string, slot: nat)
      returns (ghost disks: seq<Disk>, ghost events: seq<Event>)
      modifies this
      ensures EventRun(sha256, disks, events, title, slot) && disks[0] == old(disk) && disks[|disks| - 1] == disk
      ensures Accepted(sha256, old(disk), title, slot) ==>
                && Accepted(sha256, disk, title, slot)
                && (Contents(disk, title, slot) == Contents(old(disk), title, slot)
                    || Captured(events, |events|, title, slot, Contents(disk, title, slot)))
    {
      disks, events := [disk], [];
      for i := 0 to |requests|
        invariant EventRun(sha256, disks, events, title, slot)
        invariant disks[0] == old(disk) && disks[|disks| - 1] == disk
      {
        ghost var event := Serve(requests[i], title, slot);
        RunExtended(sha256, disks, events, title, slot, event, disk);
        disks, events := disks + [disk], events + [event];
      }
      if Accepted(sha256, old(disk), title, slot) {
        AcceptedForever(sha256, disks, events, title, slot, |events|);
      }
    }

    /** One request; one that is not allowed does nothing. */
    method Serve(request: Request, title: string, slot: nat) returns (ghost event: Event)
      modifies this
      ensures EventStep(sha256, old(disk), event, disk, title, slot)
    {
      event := Outside;
      match request
      case Capture(target, number, written, path) =>
        if ValidTitle(target) && number < SLOT_COUNT {
          event := Attempt(target, number, SourceOf(disk, path));
          CaptureOrCrash(target, number, written, path);
        }
      case Modify(next) =>
        if SlotSame(disk, next, title, slot) {
          Change(next);
        }
    }
  }

  lemma SameReplaceable(sha: Hash, d: Disk, e: Disk, title: string, slot: nat)
    requires Alike(d, e)
    ensures Replaceable(sha, d, title, slot) <==> Replaceable(sha, e, title, slot)
  {
  }

  lemma LooksJoin(before: seq<Disk>, after: seq<Disk>, n: nat, was: Disk, now: Disk)
    requires LooksLike(before, n, was, was) && before <= after && LooksLike(after, |before|, now, now) && Alike(now, was)
    ensures LooksLike(after, n, was, was)
  {
    forall k | n <= k < |after| ensures Alike(after[k], was) {
      if k < |before| {
        assert after[k] == before[k];
      }
    }
  }

  lemma SafeJoin(
    before: seq<Disk>, after: seq<Disk>, n: nat, sha: Hash, was: Disk, title: string, slot: nat, source: seq<Byte>)
    requires SafeSince(before, n, sha, was, title, slot, source) && before <= after
    requires SafeSince(after, |before|, sha, was, title, slot, source)
    ensures SafeSince(after, n, sha, was, title, slot, source)
  {
    forall k | n <= k < |after| ensures Safe(sha, was, after[k], title, slot, source) {
      if k < |before| {
        assert after[k] == before[k];
      }
    }
  }

  predicate EndsWith(s: string, suffix: string) {
    |suffix| <= |s| && s[|s| - |suffix|..] == suffix
  }
}
