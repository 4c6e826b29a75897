// Merging the state's fallback chain into a runtime chain: each entry keeps the runtime-only fields of an
// existing entry of the same provider, used at most once.
module FallbackMerge {
  import opened Text

  // A configuration value.
  datatype Json = Null | Scalar(text: string) | List(items: seq<Json>) | Dict(fields: map<string, Json>)

  type Entry = map<string, Json>

  const PROVIDER := "provider"
  const MODEL := "model"

  // The keys the state owns.
  predicate Selection(key: string) { key == PROVIDER || key == MODEL }

  // entry.get("provider")
  function Provider(e: Entry): Json { if PROVIDER in e then e[PROVIDER] else Null }

  // The state's own keys over an entry.
  function Overlaid(base: Entry, state: Entry): Entry {
    var withProvider := if PROVIDER in state then base[PROVIDER := state[PROVIDER]] else base;
    if MODEL in state then withProvider[MODEL := state[MODEL]] else withProvider
  }

  // Existing entries still to be used, with their positions.
  type Pool = seq<(nat, Entry)>

  function FindProvider(pool: Pool, provider: Json): (k: nat)
    ensures k <= |pool|
    ensures forall j | 0 <= j < k :: Provider(pool[j].1) != provider
    ensures k < |pool| ==> Provider(pool[k].1) == provider
  {
    if |pool| == 0 || Provider(pool[0].1) == provider then 0
    else
      var rest := FindProvider(pool[1..], provider);
      assert forall j | 1 <= j < rest + 1 :: pool[j] == pool[1..][j - 1];
      rest + 1
  }

  function Remove(pool: Pool, k: nat): Pool {
    if k < |pool| then pool[..k] + pool[k + 1..] else pool
  }

  // Which existing entry each state entry uses: the first one of its provider not used before.
  function Uses(state: seq<Entry>, pool: Pool): (uses: seq<Option<(nat, Entry)>>)
    ensures |uses| == |state|
    decreases |state|
  {
    if |state| == 0 then []
    else
      var k := FindProvider(pool, Provider(state[0]));
      [if k < |pool| then Some(pool[k]) else None] + Uses(state[1..], Remove(pool, k))
  }

  // An entry keeps what it uses, or holds the state's own keys only.
  function Merged(state: Entry, use: Option<(nat, Entry)>): Entry {
    Overlaid(if use.Some? then use.value.1 else map[], state)
  }

  function Merge(state: seq<Entry>, pool: Pool): (r: seq<Entry>)
    ensures |r| == |state|
    ensures forall i | 0 <= i < |state| :: r[i] == Merged(state[i], Uses(state, pool)[i])
  {
    seq(|state|, i requires 0 <= i < |state| => Merged(state[i], Uses(state, pool)[i]))
  }

  // The dictionaries among existing entries, from position n on.
  function Consumable(existing: seq<Json>): Pool
    decreases |existing|
  {
    if |existing| == 0 then []
    else
      var n := |existing| - 1;
      Consumable(existing[..n]) + if existing[n].Dict? then [(n, existing[n].fields)] else []
  }

  lemma UsesStep(state: seq<Entry>, pool: Pool)
    requires |state| > 0
    ensures var k := FindProvider(pool, Provider(state[0]));
      Uses(state, pool) == [if k < |pool| then Some(pool[k]) else None] + Uses(state[1..], Remove(pool, k))
  {
    hide FindProvider, Provider, Remove;
  }

  lemma ConsumableStep(existing: seq<Json>, i: nat)
    requires i < |existing|
    ensures Consumable(existing[..i + 1]) == Consumable(existing[..i]) + if existing[i].Dict? then [(i, existing[i].fields)] else []
  {
    assert existing[..i + 1][..i] == existing[..i];
  }

  lemma MergeIs(state: seq<Entry>, uses: seq<Option<(nat, Entry)>>, pool: Pool, merged: seq<Entry>)
    requires uses == Uses(state, pool) && |merged| == |state|
    requires forall k | 0 <= k < |state| :: merged[k] == Merged(state[k], uses[k])
    ensures merged == Merge(state, pool)
  {
    hide Merged, Uses;
  }

  method MergeFallbackByProvider(state: seq<Entry>, existing: seq<Json>) returns (merged: seq<Entry>)
    ensures merged == Merge(state, Consumable(existing))
  {
    hide *;
    var consumable: Pool := [];
    NoneConsumable();
    assert existing[..0] == [];
    for i := 0 to |existing|
      invariant consumable == Consumable(existing[..i])
    {
      ConsumableStep(existing, i);
      if existing[i].Dict? { consumable := consumable + [(i, existing[i].fields)]; }
    }
    assert existing[..|existing|] == existing;
    ghost var pool, uses := consumable, Uses(state, consumable);
    assert uses[0..] == uses && state[0..] == state;
    merged := [];
    for i := 0 to |state|
      invariant |merged| == i && uses[i..] == Uses(state[i..], consumable)
      invariant forall k | 0 <= k < i :: merged[k] == Merged(state[k], uses[k])
    {
      UsesStep(state[i..], consumable);
      assert state[i..][0] == state[i] && state[i..][1..] == state[i + 1..];
      assert uses[i..][0] == uses[i] && uses[i..][1..] == uses[i + 1..];
      var k := FindProvider(consumable, Provider(state[i]));
      MergedEither(state[i], consumable, k);
      RemoveEither(consumable, k);
      if k < |consumable| {
        merged := merged + [Overlaid(consumable[k].1, state[i])];
        consumable := consumable[..k] + consumable[k + 1..];
      } else {
        merged := merged + [Overlaid(map[], state[i])];
      }
    }
    MergeIs(state, uses, pool, merged);
  }

  lemma NoneConsumable()
    ensures Consumable([]) == []
  {
  }

  lemma MergedEither(state: Entry, pool: Pool, k: nat)
    ensures k < |pool| ==> Merged(state, Some(pool[k])) == Overlaid(pool[k].1, state)
    ensures Merged(state, None) == Overlaid(map[], state)
  {
    hide Overlaid;
  }

  lemma RemoveEither(pool: Pool, k: nat)
    ensures Remove(pool, k) == if k < |pool| then pool[..k] + pool[k + 1..] else pool
  {
  }

  // ----- what a merge is -----

  ghost predicate Distinct(pool: Pool) {
    forall i, j | 0 <= i < j < |pool| :: pool[i].0 != pool[j].0
  }

  lemma {:induction false} ConsumableIs(existing: seq<Json>)
    ensures Distinct(Consumable(existing))
    ensures forall x :: x in Consumable(existing) <==> x.0 < |existing| && existing[x.0] == Dict(x.1)
    decreases |existing|
  {
    hide Consumable;
    if |existing| == 0 {
      NoneConsumable();
      assert existing == [];
    } else {
      var n := |existing| - 1;
      ConsumableIs(existing[..n]);
      ConsumableStep(existing, n);
      assert existing[..n + 1] == existing;
      var init := Consumable(existing[..n]);
      forall i | 0 <= i < |init| ensures init[i].0 < n && existing[init[i].0] == Dict(init[i].1) {
        assert init[i] in init;
      }
    }
  }

  lemma RemoveIs(pool: Pool, k: nat)
    requires Distinct(pool) && k < |pool|
    ensures Distinct(Remove(pool, k))
    ensures forall x :: x in Remove(pool, k) <==> x in pool && x != pool[k]
    ensures forall x | x in Remove(pool, k) :: x.0 != pool[k].0
  {
    var rest := Remove(pool, k);
    assert forall i | 0 <= i < |rest| :: rest[i] == if i < k then pool[i] else pool[i + 1];
    assert pool == pool[..k] + [pool[k]] + pool[k + 1..];
  }

  // Each use is an existing entry of the same provider, no entry is used twice, and an entry goes without
  // only when every existing entry of its provider is used by one before it.
  lemma {:induction false} UsesAreMatches(state: seq<Entry>, pool: Pool)
    requires Distinct(pool)
    ensures forall i | 0 <= i < |state| && Uses(state, pool)[i].Some? ::
      Uses(state, pool)[i].value in pool && Provider(Uses(state, pool)[i].value.1) == Provider(state[i])
    ensures forall i, j | 0 <= i < j < |state| && Uses(state, pool)[i].Some? && Uses(state, pool)[j].Some? ::
      Uses(state, pool)[i].value.0 != Uses(state, pool)[j].value.0
    ensures forall i, x | 0 <= i < |state| && Uses(state, pool)[i].None? && x in pool && Provider(x.1) == Provider(state[i]) ::
      exists k | 0 <= k < i :: Uses(state, pool)[k] == Some(x)
    decreases |state|
  {
    hide Provider, Distinct, Remove;
    if |state| > 0 {
      var k := FindProvider(pool, Provider(state[0]));
      var rest := Remove(pool, k);
      var uses, tail := Uses(state, pool), Uses(state[1..], rest);
      RemoveAny(pool, k);
      UsesAreMatches(state[1..], rest);
      assert forall i | 1 <= i < |state| :: uses[i] == tail[i - 1] && state[i] == state[1..][i - 1];
      forall i, x | 0 <= i < |state| && uses[i].None? && x in pool && Provider(x.1) == Provider(state[i])
        ensures exists j | 0 <= j < i :: uses[j] == Some(x)
      {
        NoneLeft(state, pool, k, i, x);
      }
    }
  }

  lemma RemoveAny(pool: Pool, k: nat)
    requires Distinct(pool) && k <= |pool|
    ensures Distinct(Remove(pool, k))
    ensures forall x :: x in Remove(pool, k) <==> x in pool && (k < |pool| ==> x != pool[k])
    ensures k < |pool| ==> forall x | x in Remove(pool, k) :: x.0 != pool[k].0
  {
    hide Distinct;
    if k < |pool| { RemoveIs(pool, k); }
  }

  lemma NoneLeft(state: seq<Entry>, pool: Pool, k: nat, i: nat, x: (nat, Entry))
    requires Distinct(pool) && i < |state| && k == FindProvider(pool, Provider(state[0]))
    requires Uses(state, pool)[i].None? && x in pool && Provider(x.1) == Provider(state[i])
    requires forall j, y | 0 <= j < |state| - 1 && Uses(state[1..], Remove(pool, k))[j].None? && y in Remove(pool, k) && Provider(y.1) == Provider(state[1..][j]) ::
      exists l | 0 <= l < j :: Uses(state[1..], Remove(pool, k))[l] == Some(y)
    ensures exists j | 0 <= j < i :: Uses(state, pool)[j] == Some(x)
  {
    hide Provider, Remove, Distinct;
    var uses, tail := Uses(state, pool), Uses(state[1..], Remove(pool, k));
    RemoveAny(pool, k);
    assert uses[0] == if k < |pool| then Some(pool[k]) else None;
    assert forall j | 1 <= j < |state| :: uses[j] == tail[j - 1] && state[j] == state[1..][j - 1];
    var at :| 0 <= at < |pool| && pool[at] == x;
    if k < |pool| && x == pool[k] {
      assert uses[0] == Some(x);
    } else if i > 0 {
      assert tail[i - 1].None? && x in Remove(pool, k);
      var l :| 0 <= l < i - 1 && tail[l] == Some(x);
      assert uses[l + 1] == Some(x);
    }
  }

  // The merged chain: the state's selection in the state's order, and every other field from an existing
  // entry of the same provider.
  lemma MergeMeaning(state: seq<Entry>, existing: seq<Json>, i: nat, key: string)
    requires i < |state|
    ensures var r := Merge(state, Consumable(existing));
      && Provider(r[i]) == Provider(state[i])
      && (Selection(key) && key in state[i] ==> key in r[i] && r[i][key] == state[i][key])
      && (key in r[i] && !(Selection(key) && key in state[i]) ==>
            exists j | 0 <= j < |existing| && existing[j].Dict? && Provider(existing[j].fields) == Provider(state[i]) ::
              key in existing[j].fields && existing[j].fields[key] == r[i][key])
  {
    hide *;
    var pool := Consumable(existing);
    ConsumableIs(existing);
    UsesAreMatches(state, pool);
    var use := Uses(state, pool)[i];
    MergedMeaning(state[i], use, key);
  }

  lemma MergedMeaning(state: Entry, use: Option<(nat, Entry)>, key: string)
    requires use.Some? ==> Provider(use.value.1) == Provider(state)
    ensures var r := Merged(state, use);
      && Provider(r) == Provider(state)
      && (Selection(key) && key in state ==> key in r && r[key] == state[key])
      && (key in r && !(Selection(key) && key in state) ==> use.Some? && key in use.value.1 && use.value.1[key] == r[key])
  {
    assert PROVIDER != MODEL by { assert |PROVIDER| != |MODEL|; }
  }

  // An entry that uses an existing one keeps every field of it that the state does not select, and an
  // entry that uses none holds the state's selection only.
  lemma RuntimeFieldsKept(state: seq<Entry>, existing: seq<Json>, i: nat, key: string)
    requires i < |state|
    ensures var r, use := Merge(state, Consumable(existing))[i], Uses(state, Consumable(existing))[i];
      var selected := (key == "provider" || key == "model") && key in state[i];
      && (key in r <==> selected || (use.Some? && key in use.value.1))
      && (key in r ==> r[key] == if selected then state[i][key] else use.value.1[key])
  {
    hide Uses, Consumable;
  }

  // ----- merging twice -----

  function AsJson(entries: seq<Entry>): seq<Json> {
    seq(|entries|, i requires 0 <= i < |entries| => Dict(entries[i]))
  }

  // Entries numbered from n on.
  function Numbered(entries: seq<Entry>, n: nat): Pool {
    seq(|entries|, i requires 0 <= i < |entries| => (n + i, entries[i]))
  }

  lemma {:induction false} ConsumableOfEntries(entries: seq<Entry>)
    ensures Consumable(AsJson(entries)) == Numbered(entries, 0)
    decreases |entries|
  {
    if |entries| > 0 {
      var n := |entries| - 1;
      ConsumableOfEntries(entries[..n]);
      assert AsJson(entries)[..n] == AsJson(entries[..n]);
    }
  }

  // A chain that already has the state's providers, entry by entry, is matched position by position.
  lemma {:induction false} UsesInPlace(state: seq<Entry>, entries: seq<Entry>, n: nat)
    requires |entries| == |state| && forall i | 0 <= i < |state| :: Provider(entries[i]) == Provider(state[i])
    ensures forall i | 0 <= i < |state| :: Uses(state, Numbered(entries, n))[i] == Some((n + i, entries[i]))
    decreases |state|
  {
    hide Provider, Uses, FindProvider, Remove;
    if |state| > 0 {
      var pool := Numbered(entries, n);
      FirstMatches(pool, Provider(state[0]));
      RemoveEither(pool, 0);
      assert pool[..0] + pool[1..] == Numbered(entries[1..], n + 1);
      UsesInPlace(state[1..], entries[1..], n + 1);
      UsesStep(state, pool);
      assert forall i | 1 <= i < |state| :: Uses(state, pool)[i] == Uses(state[1..], Numbered(entries[1..], n + 1))[i - 1];
    }
  }

  lemma FirstMatches(pool: Pool, provider: Json)
    requires |pool| > 0 && Provider(pool[0].1) == provider
    ensures FindProvider(pool, provider) == 0
  {
    hide Provider;
  }

  lemma OverlaidTwice(base: Entry, state: Entry)
    ensures Overlaid(Overlaid(base, state), state) == Overlaid(base, state)
  {
    assert PROVIDER != MODEL by { assert |PROVIDER| != |MODEL|; }
  }

  lemma MergeTwice(state: seq<Entry>, existing: seq<Json>)
    ensures var once := Merge(state, Consumable(existing)); Merge(state, Consumable(AsJson(once))) == once
  {
    hide Merge, Uses, Overlaid, Consumable, Numbered, AsJson;
    var once := Merge(state, Consumable(existing));
    forall i | 0 <= i < |state| ensures Provider(once[i]) == Provider(state[i]) {
      MergeMeaning(state, existing, i, PROVIDER);
    }
    ConsumableOfEntries(once);
    UsesInPlace(state, once, 0);
    var twice := Merge(state, Numbered(once, 0));
    forall i | 0 <= i < |state| ensures twice[i] == once[i] {
      var use := Uses(state, Consumable(existing))[i];
      OverlaidTwice(if use.Some? then use.value.1 else map[], state[i]);
    }
  }
}
