// Acknowledgement-based pruning of backup generations, over any sequence of exports, acknowledgements and
// prunes.
module BackupPrune {
  import opened Text
  import opened Sets
  import opened Order
  import opened GenerationIds

  type Id = string

  // A line of the uploader's ledger, after strip: empty, a bare id, an object with its id field if that is
  // text, or an object that does not parse.
  datatype Line = Empty | Bare(text: string) | Object(id: Option<string>) | Broken

  function LineId(line: Line): Option<Id> {
    match line
    case Bare(text) => if ValidId(text) then Some(text) else None
    case Object(id) => if id.Some? && ValidId(id.value) then id else None
    case _ => None
  }

  // A ledger: missing, or its lines with the number of them that can be read before an error.
  datatype Ledger = Missing | Lines(lines: seq<Line>, readable: nat)

  function Read(ledger: Ledger): seq<Line> {
    if ledger.Missing? then [] else if ledger.readable < |ledger.lines| then ledger.lines[..ledger.readable] else ledger.lines
  }

  ghost predicate Acknowledged(ledger: Ledger, id: Id) {
    exists line | line in Read(ledger) :: LineId(line) == Some(id)
  }

  method ReadUploadedLedger(ledger: Ledger) returns (acked: set<Id>)
    ensures forall id :: id in acked <==> Acknowledged(ledger, id)
  {
    hide LineId;
    acked := {};
    var lines := Read(ledger);
    for i := 0 to |lines|
      invariant forall id :: id in acked <==> exists line | line in lines[..i] :: LineId(line) == Some(id)
    {
      assert lines[..i + 1] == lines[..i] + [lines[i]];
      var id := LineId(lines[i]);
      if id.Some? { acked := acked + {id.value}; }
    }
    assert lines[..|lines|] == lines;
  }

  // ----- newest first -----

  predicate Newer(a: Id, b: Id) { a != b && LexLe(b, a) }

  ghost predicate NewestFirst(ids: seq<Id>) {
    forall i, j | 0 <= i < j < |ids| :: Newer(ids[i], ids[j])
  }

  lemma NewerTransitive(a: Id, b: Id, c: Id)
    requires Newer(a, b) && Newer(b, c)
    ensures Newer(a, c)
  {
    LexTransitive(c, b, a);
    if a == c { LexAntisymmetric(a, b); }
  }

  function InsertNewest(id: Id, ids: seq<Id>): seq<Id> {
    if |ids| == 0 || Newer(id, ids[0]) then [id] + ids else [ids[0]] + InsertNewest(id, ids[1..])
  }

  lemma {:induction false} InsertKeepsOrder(id: Id, ids: seq<Id>)
    requires NewestFirst(ids) && id !in ids
    ensures NewestFirst(InsertNewest(id, ids))
    ensures forall x :: x in InsertNewest(id, ids) <==> x == id || x in ids
    decreases |ids|
  {
    hide LexLe, Newer;
    if |ids| > 0 {
      assert ids == [ids[0]] + ids[1..];
      NewerTotal(id, ids[0]);
      if Newer(id, ids[0]) {
        forall j | 0 < j < |ids| ensures Newer(id, ids[j]) { NewerTransitive(id, ids[0], ids[j]); }
      } else {
        InsertKeepsOrder(id, ids[1..]);
        var rest := InsertNewest(id, ids[1..]);
        forall j | 0 <= j < |rest| ensures Newer(ids[0], rest[j]) {
          assert rest[j] in rest;
          if rest[j] != id {
            var k :| 0 <= k < |ids[1..]| && ids[1..][k] == rest[j];
            assert ids[k + 1] == rest[j];
          }
        }
      }
    }
  }

  lemma NewerTotal(a: Id, b: Id)
    ensures a != b ==> Newer(a, b) || Newer(b, a)
  {
    LexTotal(a, b);
  }

  // ----- pruning -----

  // How many generations are newer.
  function Rank(gens: set<Id>, id: Id): nat { |set g | g in gens && Newer(g, id)| }

  // What a prune removes: beyond the `keep` newest, acknowledged, and neither the current generation nor
  // the one `latest` names.
  ghost predicate Deletable(gens: set<Id>, id: Id, keep: nat, current: Option<Id>, latest: Option<Id>, ledger: Ledger) {
    id in gens && Rank(gens, id) >= keep && current != Some(id) && latest != Some(id) && Acknowledged(ledger, id)
  }

  // Where an export fails, if it does.
  datatype ExportFault = NoFault | BeforePublish | BeforePointer | BeforePrune

  class Staging {
    var gens: set<Id>          // directories with READY
    var latest: Option<Id>     // the pointer, if it names a valid id

    constructor ()
      ensures gens == {} && latest == None
    {
      gens, latest := {}, None;
    }

    method SortNewestFirst() returns (ids: seq<Id>)
      ensures NewestFirst(ids) && forall id :: id in ids <==> id in gens
    {
      hide Newer, InsertNewest;
      ids := [];
      var todo := gens;
      while todo != {}
        invariant todo <= gens && NewestFirst(ids) && forall id :: id in ids <==> id in gens - todo
        decreases todo
      {
        var id :| id in todo;
        InsertKeepsOrder(id, ids);
        ids := InsertNewest(id, ids);
        todo := todo - {id};
      }
    }

    // The loop over the oldest: remove those that may go.
    method RemoveOldest(oldest: seq<Id>, current: Option<Id>, acked: set<Id>) returns (removed: seq<Id>)
      modifies this`gens
      ensures forall id :: id in removed <==> id in oldest && Goes(id, current, latest, acked)
      ensures forall id :: id in gens <==> id in old(gens) && id !in removed
    {
      removed := [];
      for i := 0 to |oldest|
        invariant forall id :: id in removed <==> id in oldest[..i] && Goes(id, current, latest, acked)
        invariant forall id :: id in gens <==> id in old(gens) && id !in removed
      {
        var id := oldest[i];
        assert oldest[..i + 1] == oldest[..i] + [id];
        if current != Some(id) && latest != Some(id) && id in acked {
          gens := gens - {id};
          removed := removed + [id];
        }
      }
      assert oldest[..|oldest|] == oldest;
    }

    method PruneStaging(keep: int, current: Option<Id>, ledger: Ledger) returns (removed: seq<Id>)
      modifies this`gens
      ensures keep <= 0 ==> removed == [] && gens == old(gens)
      ensures keep > 0 ==> forall id :: id in removed <==> Deletable(old(gens), id, keep, current, latest, ledger)
      ensures keep > 0 ==> forall id :: id in gens <==> id in old(gens) && id !in removed
    {
      hide *;
      if keep <= 0 { return []; }
      var acked := ReadUploadedLedger(ledger);
      var ids := SortNewestFirst();
      OldestFrom(gens, ids, keep);
      GoesIs(gens, ids, keep, current, latest, ledger, acked);
      if |ids| <= keep {
        assert Oldest(ids, keep) == [] by { NoneOldest(ids, keep); }
        return [];
      }
      OldestIs(ids, keep);
      removed := RemoveOldest(ids[keep..], current, acked);
    }

    // Export: publish, move the pointer, copy the manifest beside it, and prune.
    method ExportBackup(id: Id, keep: int, ledger: Ledger, fails: ExportFault) returns (ok: bool)
      requires id !in gens
      modifies this
      ensures ok <==> fails == NoFault
      ensures fails == BeforePublish ==> gens == old(gens) && latest == old(latest)
      ensures fails == BeforePointer ==> gens == old(gens) + {id} && latest == old(latest)
      ensures fails == BeforePrune ==> gens == old(gens) + {id} && latest == Some(id)
      ensures ok ==> id in gens && latest == Some(id)
      ensures ok && keep <= 0 ==> gens == old(gens) + {id}
      ensures ok && keep > 0 ==> forall g :: g in gens <==>
        g in old(gens) + {id} && !Deletable(old(gens) + {id}, g, keep, Some(id), Some(id), ledger)
    {
      hide Acknowledged, Rank;
      if fails == BeforePublish { return false; }
      gens := gens + {id};
      if fails == BeforePointer { return false; }
      latest := Some(id);
      if fails == BeforePrune { return false; }
      var removed := PruneStaging(keep, Some(id), ledger);
      return true;
    }
  }

  predicate Goes(id: Id, current: Option<Id>, latest: Option<Id>, acked: set<Id>) {
    current != Some(id) && latest != Some(id) && id in acked
  }

  function Oldest(ids: seq<Id>, keep: nat): seq<Id> { if keep < |ids| then ids[keep..] else [] }

  lemma NoneOldest(ids: seq<Id>, keep: nat)
    requires |ids| <= keep
    ensures Oldest(ids, keep) == []
  {
  }

  lemma OldestIs(ids: seq<Id>, keep: nat)
    requires keep < |ids|
    ensures Oldest(ids, keep) == ids[keep..]
  {
  }

  function Members(ids: seq<Id>): set<Id> { set id | id in ids }

  // Beyond the first keep are those with at least keep newer ones.
  lemma OldestFrom(gens: set<Id>, ids: seq<Id>, keep: nat)
    requires NewestFirst(ids) && forall id :: id in ids <==> id in gens
    ensures forall id :: id in Oldest(ids, keep) <==> id in gens && Rank(gens, id) >= keep
  {
    hide Newer, Rank;
    RanksOf(gens, ids);
    forall id ensures id in Oldest(ids, keep) <==> id in gens && Rank(gens, id) >= keep {
      if id in gens {
        var k: nat :| k < |ids| && ids[k] == id;
        if keep <= k { assert Oldest(ids, keep)[k - keep] == id; }
      }
      if id in Oldest(ids, keep) {
        var k: nat :| k < |Oldest(ids, keep)| && Oldest(ids, keep)[k] == id;
        assert ids[keep + k] == id && id in ids;
      }
    }
  }

  lemma GoesIs(gens: set<Id>, ids: seq<Id>, keep: nat, current: Option<Id>, latest: Option<Id>, ledger: Ledger, acked: set<Id>)
    requires forall id :: id in acked <==> Acknowledged(ledger, id)
    requires forall id :: id in Oldest(ids, keep) <==> id in gens && Rank(gens, id) >= keep
    ensures forall id :: Deletable(gens, id, keep, current, latest, ledger) <==> id in Oldest(ids, keep) && Goes(id, current, latest, acked)
  {
    hide Acknowledged, Rank, Oldest;
  }

  // In a list newest first, an element's position is its rank.
  lemma RanksOf(gens: set<Id>, ids: seq<Id>)
    requires NewestFirst(ids) && forall id :: id in ids <==> id in gens
    ensures forall k: nat | k < |ids| :: Rank(gens, ids[k]) == k
  {
    hide Newer;
    forall k: nat | k < |ids| ensures Rank(gens, ids[k]) == k {
      PrefixIsNewer(gens, ids, k);
      DistinctPrefix(ids, k);
    }
  }

  lemma PrefixIsNewer(gens: set<Id>, ids: seq<Id>, k: nat)
    requires NewestFirst(ids) && (forall id :: id in ids <==> id in gens) && k < |ids|
    ensures (set g | g in gens && Newer(g, ids[k])) == Members(ids[..k])
  {
    forall g ensures g in gens && Newer(g, ids[k]) <==> g in ids[..k] {
      if g in ids[..k] {
        var i :| 0 <= i < k && ids[..k][i] == g;
        assert g in ids;
      }
      if g in gens && Newer(g, ids[k]) {
        assert g in ids;
        var i :| 0 <= i < |ids| && ids[i] == g;
        if i > k { NotBoth(ids[k], g); }
        assert ids[..k][i] == g;
      }
    }
  }

  lemma NotBoth(a: Id, b: Id)
    ensures !(Newer(a, b) && Newer(b, a))
  {
    if Newer(a, b) && Newer(b, a) { LexAntisymmetric(a, b); }
  }

  lemma LastIsNew(ids: seq<Id>, k: nat)
    requires NewestFirst(ids) && 0 < k <= |ids|
    ensures ids[k - 1] !in ids[..k - 1]
  {
    hide LexLe;
    forall i | 0 <= i < k - 1 ensures ids[i] != ids[k - 1] {
      assert Newer(ids[i], ids[k - 1]);
    }
  }

  lemma {:induction false} DistinctPrefix(ids: seq<Id>, k: nat)
    requires NewestFirst(ids) && k <= |ids|
    ensures |Members(ids[..k])| == k
    decreases k
  {
    hide NewestFirst;
    if k > 0 {
      DistinctPrefix(ids, k - 1);
      assert ids[..k] == ids[..k - 1] + [ids[k - 1]];
      assert Members(ids[..k]) == Members(ids[..k - 1]) + {ids[k - 1]};
      LastIsNew(ids, k);
    }
  }

  // ----- runs -----

  datatype State = State(gens: set<Id>, latest: Option<Id>, ledger: seq<Line>)

  datatype Event =
    | Export(id: Id, keep: int, readable: nat, fault: ExportFault)
    | Prune(keep: int, current: Option<Id>, readable: nat)
    | Acknowledge(line: Line)

  ghost predicate Pruned(was: set<Id>, keep: int, current: Option<Id>, latest: Option<Id>, ledger: Ledger, now: set<Id>) {
    if keep <= 0 then now == was
    else forall g :: g in now <==> g in was && !Deletable(was, g, keep, current, latest, ledger)
  }

  // The uploader only ever adds lines; the exporter reads some of them, or none.
  ghost predicate Step(s: State, e: Event, s': State) {
    match e
    case Acknowledge(line) => s' == s.(ledger := s.ledger + [line])
    case Prune(keep, current, readable) =>
      s'.latest == s.latest && s'.ledger == s.ledger && Pruned(s.gens, keep, current, s.latest, Lines(s.ledger, readable), s'.gens)
    case Export(id, keep, readable, fault) =>
      && s'.ledger == s.ledger && id !in s.gens
      && match fault
         case BeforePublish => s' == s
         case BeforePointer => s' == s.(gens := s.gens + {id})
         case BeforePrune => s' == s.(gens := s.gens + {id}, latest := Some(id))
         case NoFault => s'.latest == Some(id) && Pruned(s.gens + {id}, keep, Some(id), Some(id), Lines(s.ledger, readable), s'.gens)
  }

  ghost predicate Run(ss: seq<State>, es: seq<Event>) {
    && |ss| == |es| + 1 && ss[0] == State({}, None, [])
    && forall i | 0 <= i < |es| :: Step(ss[i], es[i], ss[i + 1])
  }

  ghost predicate Logged(ledger: seq<Line>, id: Id) {
    exists line | line in ledger :: LineId(line) == Some(id)
  }

  lemma StepSafe(s: State, e: Event, s': State, id: Id)
    requires Step(s, e, s') && id in s.gens
    ensures id !in s'.gens ==> Logged(s.ledger, id)
    ensures Logged(s.ledger, id) ==> Logged(s'.ledger, id)
  {
    hide LineId, Rank, ValidId;
  }

  lemma LatestKept(s: State, e: Event, s': State)
    requires Step(s, e, s') && (s.latest.Some? ==> s.latest.value in s.gens)
    ensures s'.latest.Some? ==> s'.latest.value in s'.gens
  {
    hide Acknowledged, Rank;
  }

  // No generation leaves the staging volume before its id is in the ledger.
  lemma {:induction false} RemovedWasLogged(ss: seq<State>, es: seq<Event>, i: nat, j: nat, id: Id)
    requires Run(ss, es) && i <= j < |ss| && id in ss[i].gens && id !in ss[j].gens
    ensures Logged(ss[j].ledger, id)
    decreases j
  {
    hide Step, Logged;
    if id in ss[j - 1].gens {
      assert Step(ss[j - 1], es[j - 1], ss[j]);
      StepSafe(ss[j - 1], es[j - 1], ss[j], id);
    } else {
      RemovedWasLogged(ss, es, i, j - 1, id);
      assert Step(ss[j - 1], es[j - 1], ss[j]);
      LoggedStays(ss[j - 1], es[j - 1], ss[j], id);
    }
  }

  lemma LoggedStays(s: State, e: Event, s': State, id: Id)
    requires Step(s, e, s') && Logged(s.ledger, id)
    ensures Logged(s'.ledger, id)
  {
    hide LineId, Pruned;
  }

  // The generation `latest` names is always on the volume.
  lemma {:induction false} LatestStays(ss: seq<State>, es: seq<Event>, i: nat)
    requires Run(ss, es) && i < |ss|
    ensures ss[i].latest.Some? ==> ss[i].latest.value in ss[i].gens
  {
    hide Step;
    if i > 0 {
      LatestStays(ss, es, i - 1);
      assert Step(ss[i - 1], es[i - 1], ss[i]);
      LatestKept(ss[i - 1], es[i - 1], ss[i]);
    }
  }

  // The generations on the volume that are later than this one: of ids that agree before a position and
  // differ there, the later one has the greater character.
  ghost function LaterThan(gens: set<Id>, id: Id): set<Id> { set g | g in gens && Before(id, g) }

  lemma RankIsLater(gens: set<Id>, id: Id)
    ensures Rank(gens, id) == |LaterThan(gens, id)|
  {
    forall g ensures Newer(g, id) <==> Before(id, g) {
      LexExact(id, g);
      NeverBeforeItself(id);
    }
    assert (set g | g in gens && Newer(g, id)) == LaterThan(gens, id);
  }

  lemma NeverBeforeItself(id: Id)
    ensures !Before(id, id)
  {
  }

  // The generations a prune finds, and those it spares by name.
  ghost function Found(s: State, e: Event): set<Id> { if e.Export? then s.gens + {e.id} else s.gens }

  ghost function Spared(s: State, e: Event): set<Id> {
    match e
    case Export(id, _, _, _) => {id}
    case Prune(_, current, _) => (if current.Some? then {current.value} else {}) + (if s.latest.Some? then {s.latest.value} else {})
    case Acknowledge(_) => {}
  }

  // The uploader logged the id, as a bare line or as an object, in a part of the ledger that is read.
  ghost predicate LoggedWithin(ledger: seq<Line>, readable: nat, id: Id) {
    ValidId(id) && exists k | 0 <= k < |ledger| && k < readable :: ledger[k] == Bare(id) || ledger[k] == Object(Some(id))
  }

  lemma AcknowledgedIs(ledger: seq<Line>, readable: nat, id: Id)
    ensures Acknowledged(Lines(ledger, readable), id) <==> LoggedWithin(ledger, readable, id)
  {
    hide ValidId;
    var lines := Read(Lines(ledger, readable));
    if line :| line in lines && LineId(line) == Some(id) {
      var k :| 0 <= k < |lines| && lines[k] == line;
      assert ledger[k] == line;
    }
    if LoggedWithin(ledger, readable, id) {
      var k :| 0 <= k < |ledger| && k < readable && (ledger[k] == Bare(id) || ledger[k] == Object(Some(id)));
      assert lines[k] in lines;
    }
  }

  predicate Prunes(e: Event) { e.Prune? || (e.Export? && e.fault.NoFault?) }

  // What a prune or an export removes from the volume, exactly: logged generations with at least `keep`
  // later ones, none of them spared by name.
  lemma RemovedExact(ss: seq<State>, es: seq<Event>, i: nat, g: Id)
    requires Run(ss, es) && i < |es| && Prunes(es[i]) && g in Found(ss[i], es[i])
    ensures g !in ss[i + 1].gens <==>
      && es[i].keep > 0 && |LaterThan(Found(ss[i], es[i]), g)| >= es[i].keep
      && g !in Spared(ss[i], es[i]) && LoggedWithin(ss[i].ledger, es[i].readable, g)
  {
    hide Acknowledged, Rank, Before, LoggedWithin;
    assert Step(ss[i], es[i], ss[i + 1]);
    RankIsLater(Found(ss[i], es[i]), g);
    AcknowledgedIs(ss[i].ledger, es[i].readable, g);
  }

  // Nothing but a completed prune or export removes anything, and only an export adds.
  lemma OthersRemoveNothing(ss: seq<State>, es: seq<Event>, i: nat)
    requires Run(ss, es) && i < |es|
    ensures ss[i + 1].gens <= Found(ss[i], es[i])
    ensures !Prunes(es[i]) ==> ss[i].gens <= ss[i + 1].gens
    ensures es[i].Export? && !es[i].fault.BeforePublish? ==> es[i].id in ss[i + 1].gens
  {
    hide Acknowledged, Rank;
    assert Step(ss[i], es[i], ss[i + 1]);
  }

  // The `keep` latest generations survive every prune and every export, at least that many if there are
  // as many, and with nothing acknowledged everything does.
  lemma NewestSurvive(ss: seq<State>, es: seq<Event>, i: nat)
    requires Run(ss, es) && i < |es| && Prunes(es[i])
    ensures forall g | g in Found(ss[i], es[i]) && |LaterThan(Found(ss[i], es[i]), g)| < es[i].keep :: g in ss[i + 1].gens
    ensures (forall g :: !LoggedWithin(ss[i].ledger, es[i].readable, g)) ==> ss[i + 1].gens == Found(ss[i], es[i])
    ensures es[i].keep > 0 && |Found(ss[i], es[i])| >= es[i].keep ==> |ss[i + 1].gens| >= es[i].keep
  {
    hide Acknowledged, Rank, Before, LoggedWithin, Step, LaterThan;
    var was, now := Found(ss[i], es[i]), ss[i + 1].gens;
    OthersRemoveNothing(ss, es, i);
    forall g | g in was ensures |LaterThan(was, g)| < es[i].keep ==> g in now ensures !LoggedWithin(ss[i].ledger, es[i].readable, g) ==> g in now {
      RemovedExact(ss, es, i, g);
    }
    if es[i].keep > 0 && |was| >= es[i].keep {
      forall g | g in was && Rank(was, g) < es[i].keep ensures g in now { RankIsLater(was, g); }
      AtLeastKeep(was, now, es[i].keep);
    }
  }

  lemma AtLeastKeep(was: set<Id>, now: set<Id>, keep: nat)
    requires |was| >= keep && now <= was && forall g | g in was && Rank(was, g) < keep :: g in now
    ensures |now| >= keep
  {
    hide Newer, Rank;
    var ids := ListNewest(was);
    RanksOf(was, ids);
    ListSize(was, ids);
    var top := Members(ids[..keep]);
    DistinctPrefix(ids, keep);
    forall g | g in top ensures g in now {
      var k: nat :| k < keep && ids[..keep][k] == g;
      assert ids[k] == g && g in ids;
    }
    SubsetSize(top, now);
  }

  lemma {:induction false} ListNewest(gens: set<Id>) returns (ids: seq<Id>)
    ensures NewestFirst(ids) && forall id :: id in ids <==> id in gens
    decreases |gens|
  {
    hide Newer;
    if gens == {} {
      ids := [];
    } else {
      var id :| id in gens;
      var rest := ListNewest(gens - {id});
      InsertKeepsOrder(id, rest);
      ids := InsertNewest(id, rest);
    }
  }

  lemma ListSize(gens: set<Id>, ids: seq<Id>)
    requires NewestFirst(ids) && forall id :: id in ids <==> id in gens
    ensures |ids| == |gens|
  {
    DistinctPrefix(ids, |ids|);
    assert ids[..|ids|] == ids;
    assert Members(ids) == gens;
  }
}
