// Exporting one recovery generation: scan, copy and scan again until the source stood still, publish
// atomically, and undo everything when any step fails.
module VaultExport {
  import opened Text
  import opened Order
  import opened GenerationIds
  import opened TreeScan
  import opened TreeCopy

  datatype Sources = Sources(gbrain: Tree, vault: Tree)

  datatype Manifest = Manifest(generationId: string, attempts: nat)

  datatype Generation = Generation(trees: Sources, manifest: Option<Manifest>, ready: bool)

  // ----- the pointer file -----

  // text.strip()
  function Strip(text: string): string
    decreases |text|
  {
    if text == "" then ""
    else if IsSpace(text[0]) then Strip(text[1..])
    else if IsSpace(text[|text| - 1]) then Strip(text[..|text| - 1])
    else text
  }

  // Spaces, what is left, spaces; and what is left has none at its ends.
  lemma {:induction false} StripExact(text: string) returns (left: string, right: string)
    ensures text == left + Strip(text) + right
    ensures (forall c | c in left :: IsSpace(c)) && (forall c | c in right :: IsSpace(c))
    ensures Strip(text) != "" ==> !IsSpace(Strip(text)[0]) && !IsSpace(Strip(text)[|Strip(text)| - 1])
    decreases |text|
  {
    hide IsSpace;
    left, right := "", "";
    if text == "" {
    } else if IsSpace(text[0]) {
      left, right := StripExact(text[1..]);
      assert text == [text[0]] + text[1..];
      assert text == ([text[0]] + left) + Strip(text) + right;
      left := [text[0]] + left;
    } else if IsSpace(text[|text| - 1]) {
      left, right := StripExact(text[..|text| - 1]);
      assert text == text[..|text| - 1] + [text[|text| - 1]];
      assert text == left + Strip(text) + (right + [text[|text| - 1]]);
      right := right + [text[|text| - 1]];
    } else {
      assert text == "" + text + "";
    }
  }

  function PointerText(id: string): string { id + "\n" }

  lemma PointerNamesId(id: string)
    requires ValidId(id)
    ensures Strip(PointerText(id)) == id
  {
    var text := PointerText(id);
    assert IsDigit(id[0]) && IsHex(id[30]);
    assert text[0] == id[0] && text[|text| - 1] == '\n';
    assert text[..|text| - 1] == id;
  }

  // ----- what happens around an export; every value is possible -----

  datatype Point = AtScanA | AtCopy | AtScanB | AtStagedScan | AtIndex | AtManifest | AtReady | AtPublish | AtSync | AtPointer | AfterPointer

  // The sources as an attempt meets them: at its first scan, while each record is copied, at its second.
  datatype Attempt = Attempt(atA: Sources, copyingGbrain: nat -> Tree, copyingVault: nat -> Tree, atB: Sources)

  // faults(k, p): in attempt k the step p fails.  removes and restores: the two parts of a rollback work.
  datatype Env = Env(attempts: nat -> Attempt, faults: (nat, Point) -> bool, pointerReads: bool, removes: bool, restores: bool)

  ghost predicate ValidSources(s: Sources) { ValidTree(s.gbrain) && ValidTree(s.vault) }

  ghost predicate ValidEnv(env: Env) {
    forall k: nat :: ValidSources(env.attempts(k).atA) && ValidSources(env.attempts(k).atB)
  }

  // The source holds still during the attempt.
  ghost predicate Still(attempt: Attempt, s: Sources) {
    && attempt.atA == s && attempt.atB == s
    && forall n: nat :: attempt.copyingGbrain(n) == s.gbrain && attempt.copyingVault(n) == s.vault
  }

  // The source holds still while it is scanned and copied, and has changed by the second scan.
  ghost predicate Moved(attempt: Attempt) {
    && attempt.atB != attempt.atA
    && forall n: nat :: attempt.copyingGbrain(n) == attempt.atA.gbrain && attempt.copyingVault(n) == attempt.atA.vault
  }

  ghost predicate NoFaults(env: Env) {
    forall k: nat, p: Point :: !env.faults(k, p)
  }

  // No step of the attempt's scanning and copying fails, and none of its publication.
  ghost predicate ScanWorks(env: Env, k: nat) {
    !env.faults(k, AtScanA) && !env.faults(k, AtCopy) && !env.faults(k, AtScanB) && !env.faults(k, AtStagedScan)
  }

  ghost predicate PublishWorks(env: Env, k: nat) {
    && !env.faults(k, AtIndex) && !env.faults(k, AtManifest) && !env.faults(k, AtReady) && !env.faults(k, AtPublish)
    && !env.faults(k, AtSync) && !env.faults(k, AtPointer) && !env.faults(k, AfterPointer)
  }

  lemma NoFaultsPublish(env: Env, k: nat)
    ensures NoFaults(env) ==> PublishWorks(env, k)
  {
  }

  // The source holds still in attempt k for the first time, having moved in every one before.
  ghost predicate FirstStill(env: Env, k: nat) {
    && k >= 1 && HoldsStill(env.attempts(k))
    && forall j: nat | 1 <= j < k :: Moved(env.attempts(j))
  }

  // Before that attempt the next one has moved, or is it.
  lemma FirstStillNext(env: Env, attempt: nat)
    ensures forall k: nat | FirstStill(env, k) && attempt < k ::
      if attempt + 1 < k then Moved(env.attempts(attempt + 1)) else HoldsStill(env.attempts(attempt + 1))
  {
    hide HoldsStill, Moved;
  }

  ghost predicate HoldsStill(attempt: Attempt) { exists s :: Still(attempt, s) }

  // A directory with READY and the manifest of its own id.
  predicate Finished(generation: Generation, id: string) {
    generation.ready && generation.manifest.Some? && generation.manifest.value.generationId == id
  }

  class Staging {
    var published: map<string, Generation>
    var building: Option<Generation>
    var latest: Option<string>

    constructor ()
      ensures published == map[] && building == None && latest == None
    {
      published, building, latest := map[], None, None;
    }

    // One attempt: the staged trees if the source stood still and the copy matches it.
    method TryOnce(env: Env, attempt: nat) returns (raised: bool, settled: bool)
      requires ValidEnv(env)
      modifies this`building
      ensures settled ==> !raised && building == Some(Generation(env.attempts(attempt).atA, None, false))
      ensures settled ==> env.attempts(attempt).atA == env.attempts(attempt).atB
      ensures !settled && !raised ==> building == None
      ensures !raised ==> !env.faults(attempt, AtScanA) && !env.faults(attempt, AtCopy) && !env.faults(attempt, AtScanB)
      ensures settled ==> !env.faults(attempt, AtStagedScan)
      ensures forall s | Still(env.attempts(attempt), s) && NoFaults(env) :: settled
      ensures Moved(env.attempts(attempt)) && NoFaults(env) ==> !raised && !settled
    {
      hide ValidTree, IsScan, Faithful;
      var a := env.attempts(attempt);
      if env.faults(attempt, AtScanA) { return true, false; }
      var gbrainA := ScanTree(a.atA.gbrain);
      var vaultA := ScanTree(a.atA.vault);
      building := None;
      if env.faults(attempt, AtCopy) { return true, false; }
      StillIsFaithful(a, gbrainA, vaultA);
      MovedIsFaithful(a, gbrainA, vaultA);
      var gbrain := CopyTree(a.copyingGbrain, gbrainA, a.atA.gbrain);
      var vault := CopyTree(a.copyingVault, vaultA, a.atA.vault);
      if gbrain.None? || vault.None? || env.faults(attempt, AtScanB) { return true, false; }
      building := Some(Generation(Sources(gbrain.value, vault.value), None, false));
      var gbrainB := ScanTree(a.atB.gbrain);
      var vaultB := ScanTree(a.atB.vault);
      ScansEqualExact(gbrainA, gbrainB, a.atA.gbrain, a.atB.gbrain);
      ScansEqualExact(vaultA, vaultB, a.atA.vault, a.atB.vault);
      if gbrainA == gbrainB && vaultA == vaultB {
        if env.faults(attempt, AtStagedScan) { return true, false; }
        var stagedGbrain := ScanTree(gbrain.value);
        var stagedVault := ScanTree(vault.value);
        ScansEqualExact(gbrainA, stagedGbrain, a.atA.gbrain, gbrain.value);
        ScansEqualExact(vaultA, stagedVault, a.atA.vault, vault.value);
        if gbrainA == stagedGbrain && vaultA == stagedVault { return false, true; }
      }
      building := None;
      return false, false;
    }

    // The convergence loop.
    method Converge(env: Env, bound: nat) returns (converged: bool, attempt: nat)
      requires ValidEnv(env)
      modifies this`building
      ensures attempt <= bound
      ensures converged ==> 1 <= attempt && building == Some(Generation(env.attempts(attempt).atA, None, false))
      ensures converged ==> env.attempts(attempt).atA == env.attempts(attempt).atB && ScanWorks(env, attempt)
      ensures forall k: nat | NoFaults(env) && FirstStill(env, k) && k <= bound :: converged && attempt == k
      ensures NoFaults(env) && (forall k: nat | 1 <= k <= bound :: Moved(env.attempts(k))) ==> !converged && attempt == bound
    {
      hide Still, Moved, NoFaults, ValidEnv;
      attempt := 0;
      while attempt < bound
        invariant attempt <= bound
        invariant forall k: nat | NoFaults(env) && FirstStill(env, k) && k <= bound :: attempt < k
      {
        FirstStillNext(env, attempt);
        attempt := attempt + 1;
        var raised, settled := TryOnce(env, attempt);
        if raised { return false, attempt; }
        if settled { return true, attempt; }
      }
      return false, attempt;
    }

    // Remove what was built or published under the id and put the pointer back.
    method Rollback(env: Env, id: string, previous: Option<string>)
      modifies this
      ensures env.removes ==> published == old(published) - {id} && building == None
      ensures !env.removes ==> published == old(published)
      ensures env.restores ==> latest == if previous.Some? && ValidId(Strip(previous.value)) then previous else None
      ensures !env.restores ==> latest == old(latest)
    {
      if env.removes {
        building := None;
        published := published - {id};
      }
      if env.restores {
        if previous.Some? && ValidId(Strip(previous.value)) {
          latest := previous;
        } else {
          latest := None;
        }
      }
    }

    // What is on the staging volume when the export ends, and what it returned.
    twostate predicate Exported(id: string, bound: nat, env: Env, new r: Option<Manifest>)
      reads this
    {
      && (r.Some? ==>
            && r.value.generationId == id && 1 <= r.value.attempts <= bound
            && env.attempts(r.value.attempts).atA == env.attempts(r.value.attempts).atB
            && ScanWorks(env, r.value.attempts) && PublishWorks(env, r.value.attempts)
            && published == old(published)[id := Generation(env.attempts(r.value.attempts).atA, r, true)]
            && latest == Some(PointerText(id)) && building == None)
      && (r.None? && env.removes ==> published == old(published) && building == None)
      && (r.None? && env.restores ==> latest == Restored(old(latest), env.pointerReads))
      && (r.None? && !env.restores ==> latest == old(latest) || latest == Some(PointerText(id)))
      && (forall g | g != id :: (g in published <==> g in old(published)) && (g in published ==> published[g] == old(published)[g]))
      && (id in published ==> Finished(published[id], id))
    }

    // Publish a converged build: index, manifest, READY last, then the directory and the pointer.
    method Publish(id: string, attempt: nat, env: Env) returns (r: Option<Manifest>)
      requires building.Some? && building.value.manifest.None? && !building.value.ready && id !in published
      modifies this
      ensures forall g | g != id :: (g in published <==> g in old(published)) && (g in published ==> published[g] == old(published)[g])
      ensures id in published ==> published[id] == Generation(old(building).value.trees, Some(Manifest(id, attempt)), true)
      ensures latest == old(latest) || (latest == Some(PointerText(id)) && id in published)
      ensures r.Some? ==>
        && r.value == Manifest(id, attempt) && latest == Some(PointerText(id)) && building == None
        && published == old(published)[id := Generation(old(building).value.trees, r, true)]
      ensures r.Some? <==> PublishWorks(env, attempt)
    {
      if env.faults(attempt, AtIndex) { return None; }
      var manifest := Manifest(id, attempt);
      if env.faults(attempt, AtManifest) { return None; }
      building := Some(building.value.(manifest := Some(manifest)));
      if env.faults(attempt, AtReady) { return None; }
      building := Some(building.value.(ready := true));
      if env.faults(attempt, AtPublish) { return None; }
      published := published[id := building.value];
      building := None;
      if env.faults(attempt, AtSync) { return None; }
      if env.faults(attempt, AtPointer) { return None; }
      latest := Some(PointerText(id));
      if env.faults(attempt, AfterPointer) { return None; }
      return Some(manifest);
    }

    method ExportGeneration(id: string, bound: nat, env: Env) returns (r: Option<Manifest>)
      requires ValidEnv(env) && id !in published
      modifies this
      ensures Exported(id, bound, env, r)
      ensures forall k: nat | NoFaults(env) && FirstStill(env, k) && k <= bound :: r == Some(Manifest(id, k))
      ensures NoFaults(env) && (forall k: nat | 1 <= k <= bound :: Moved(env.attempts(k))) ==> r == None
    {
      hide ValidEnv, Still, NoFaults, FirstStill, Moved, ScanWorks, PublishWorks;
      var previous := if env.pointerReads then latest else None;
      var converged, attempt := Converge(env, bound);
      if converged {
        NoFaultsPublish(env, attempt);
        r := Publish(id, attempt, env);
        if r.Some? { return; }
      }
      Rollback(env, id, previous);
      return None;
    }

    // read_latest: the manifest of the generation `latest` names, only from a directory with READY.
    function ReadLatest(): (r: Option<Manifest>)
      reads this
      ensures r.Some? ==>
        && r.value.generationId in published && published[r.value.generationId].ready
        && published[r.value.generationId].manifest == r
    {
      if latest.None? then None
      else
        var id := Strip(latest.value);
        if !ValidId(id) || id !in published || !published[id].ready || published[id].manifest.None? then None
        else if published[id].manifest.value.generationId != id then None
        else published[id].manifest
    }

    // A reader sees the new generation after a successful export; after a failed one whose rollback
    // worked it sees what it saw before (unless the old pointer could not be read); and even when the
    // pointer could not be put back it never sees the generation that failed.
    twostate lemma ReadersFailClosed(id: string, bound: nat, env: Env, new r: Option<Manifest>)
      requires ValidId(id) && id !in old(published) && Exported(id, bound, env, r)
      ensures r.Some? ==> ReadLatest() == r
      ensures r.None? && env.removes ==> ReadLatest() == old(ReadLatest()) || ReadLatest() == None
      ensures r.None? && env.removes && env.restores && env.pointerReads ==> ReadLatest() == old(ReadLatest())
    {
      hide ValidId, Strip;
      PointerNamesId(id);
    }

    // Every directory on the volume is a finished generation under its own id.
    ghost predicate AllFinished()
      reads this
    {
      forall g | g in published :: Finished(published[g], g)
    }

    // Kept by every export, even one that fails and cannot be rolled back.
    twostate lemma ExportKeepsFinished(id: string, bound: nat, env: Env, new r: Option<Manifest>)
      requires old(AllFinished()) && Exported(id, bound, env, r)
      ensures AllFinished()
    {
    }

    // Where the rollback falls short: a pointer that exists but could not be read is removed by a failed
    // export, and readers lose a generation that is still there.
    twostate lemma UnreadPointerIsLost(id: string, bound: nat, env: Env, new r: Option<Manifest>)
      requires Exported(id, bound, env, r) && r.None? && env.removes && env.restores && !env.pointerReads
      requires old(ReadLatest()).Some?
      ensures ReadLatest() == None && old(ReadLatest()).value.generationId in published
    {
      hide ValidId, Strip;
    }
  }

  // The pointer a rollback leaves: the previous text if it could be read and names a generation.
  function Restored(latest: Option<string>, pointerReads: bool): Option<string> {
    if pointerReads && latest.Some? && ValidId(Strip(latest.value)) then latest else None
  }

  lemma StillIsFaithful(a: Attempt, gbrain: seq<Record>, vault: seq<Record>)
    requires ValidSources(a.atA) && IsScan(gbrain, a.atA.gbrain) && IsScan(vault, a.atA.vault)
    ensures forall s | Still(a, s) ::
      Faithful(a.copyingGbrain, gbrain, a.atA.gbrain) && Faithful(a.copyingVault, vault, a.atA.vault)
  {
    hide ValidTree, IsScan;
  }

  lemma MovedIsFaithful(a: Attempt, gbrain: seq<Record>, vault: seq<Record>)
    requires ValidSources(a.atA) && IsScan(gbrain, a.atA.gbrain) && IsScan(vault, a.atA.vault)
    ensures Moved(a) ==> Faithful(a.copyingGbrain, gbrain, a.atA.gbrain) && Faithful(a.copyingVault, vault, a.atA.vault)
  {
    hide ValidTree, IsScan;
  }

  const FIRST_ID := "20010101T000000000000Z-00000000"
  const SECOND_ID := "20010101T000000000000Z-00000001"

  lemma IdsAreValid()
    ensures ValidId(FIRST_ID) && ValidId(SECOND_ID) && FIRST_ID != SECOND_ID
  {
    assert FIRST_ID[30] != SECOND_ID[30];
  }

  function EmptyTree(): Tree { map["" := Dir(WORK_MODE)] }

  function EmptyAt(n: nat): Tree { EmptyTree() }

  function EmptyAttempt(k: nat): Attempt {
    Attempt(Sources(EmptyTree(), EmptyTree()), EmptyAt, EmptyAt, Sources(EmptyTree(), EmptyTree()))
  }

  function NeverFails(k: nat, p: Point): bool { false }

  // Nothing fails but the reading of the pointer.
  function UnreadPointer(): Env { Env(EmptyAttempt, NeverFails, false, true, true) }

  lemma UnreadPointerIs()
    ensures ValidEnv(UnreadPointer()) && !UnreadPointer().pointerReads && UnreadPointer().removes && UnreadPointer().restores
  {
    RootAlone();
    hide ValidTree;
  }

  // A volume with one generation, whose pointer cannot be read while an export fails: readers saw the
  // generation before and see none after, though it is still there.
  method UnreadPointerHappens() returns (staging: Staging, seen: Option<Manifest>, r: Option<Manifest>)
    ensures seen == Some(Manifest(FIRST_ID, 1)) && r == None
    ensures staging.ReadLatest() == None && FIRST_ID in staging.published && staging.published[FIRST_ID].ready
  {
    IdsAreValid();
    PointerNamesId(FIRST_ID);
    UnreadPointerIs();
    hide ValidId, Strip, PointerText, ValidEnv, UnreadPointer;
    staging := new Staging();
    staging.published := map[FIRST_ID := Generation(Sources(EmptyTree(), EmptyTree()), Some(Manifest(FIRST_ID, 1)), true)];
    staging.latest := Some(PointerText(FIRST_ID));
    seen := staging.ReadLatest();
    r := ExportWithoutAttempts(staging, SECOND_ID);
  }

  method ExportWithoutAttempts(staging: Staging, id: string) returns (r: Option<Manifest>)
    requires id !in staging.published && staging.ReadLatest().Some?
    modifies staging
    ensures r == None && staging.ReadLatest() == None && staging.published == old(staging.published)
  {
    hide ValidId, Strip, PointerText, ValidEnv, UnreadPointer;
    UnreadPointerIs();
    r := staging.ExportGeneration(id, 0, UnreadPointer());
  }
}
