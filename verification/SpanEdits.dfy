// Offset and span editing of one string: the removal-span merge and the edit application that the
// `## Tasks` transformer is built on.
module SpanEdits {

  // Replace body[start..end] by text.  A removal span is an edit with an empty text.
  datatype Edit = Edit(start: nat, end: nat, text: string)

  // Python's order on (start, end) pairs.
  predicate SpanLe(a: Edit, b: Edit) {
    a.start < b.start || (a.start == b.start && a.end <= b.end)
  }

  // ----- sorted(...) : a stable insertion sort on (start, end) -----

  function Insert(x: Edit, xs: seq<Edit>): seq<Edit> {
    if xs == [] || SpanLe(x, xs[0]) then [x] + xs else [xs[0]] + Insert(x, xs[1..])
  }

  function Sort(xs: seq<Edit>): seq<Edit> {
    if xs == [] then [] else Insert(xs[0], Sort(xs[1..]))
  }

  ghost predicate Ordered(xs: seq<Edit>) {
    forall i, j | 0 <= i < j < |xs| :: SpanLe(xs[i], xs[j])
  }

  lemma {:induction false} InsertOrdered(x: Edit, xs: seq<Edit>)
    requires Ordered(xs)
    ensures Ordered(Insert(x, xs))
    ensures forall y :: y in Insert(x, xs) <==> y == x || y in xs
  {
    if xs != [] && !SpanLe(x, xs[0]) {
      var rest := Insert(x, xs[1..]);
      InsertOrdered(x, xs[1..]);
      forall j | 0 <= j < |rest| ensures SpanLe(xs[0], rest[j]) {
        assert rest[j] in rest;
      }
    }
  }

  lemma {:induction false} SortOrdered(xs: seq<Edit>)
    ensures Ordered(Sort(xs))
    ensures forall y :: y in Sort(xs) <==> y in xs
  {
    if xs != [] {
      SortOrdered(xs[1..]);
      InsertOrdered(xs[0], Sort(xs[1..]));
    }
  }

  lemma {:induction false} SortFixesOrdered(xs: seq<Edit>)
    requires Ordered(xs)
    ensures Sort(xs) == xs
  {
    if xs != [] {
      SortFixesOrdered(xs[1..]);
    }
  }

  // ----- which characters a list of removal spans deletes -----

  ghost predicate Covered(spans: seq<Edit>, p: int) {
    exists s | s in spans :: s.start <= p < s.end
  }

  ghost predicate SameCover(a: seq<Edit>, b: seq<Edit>) {
    forall p :: Covered(a, p) <==> Covered(b, p)
  }

  ghost predicate Separated(spans: seq<Edit>) {
    forall i, j | 0 <= i < j < |spans| :: spans[i].end < spans[j].start
  }

  ghost predicate RemovalsWithin(spans: seq<Edit>, lo: nat, hi: nat) {
    forall s | s in spans :: lo <= s.start <= s.end <= hi && s.text == ""
  }

  // Merge overlapping or touching removal spans.  The result deletes exactly the positions the input
  // deletes, and its spans are increasing with a gap between any two.
  method MergeRemovalSpans(spans: seq<Edit>, ghost lo: nat, ghost hi: nat) returns (merged: seq<Edit>)
    requires RemovalsWithin(spans, lo, hi)
    ensures SameCover(merged, spans)
    ensures Separated(merged)
    ensures RemovalsWithin(merged, lo, hi)
  {
    hide *;
    NoneMerged(lo, hi);
    var ordered := Sort(spans);
    SortOrdered(spans);
    OrderedWithin(spans, ordered, lo, hi);
    merged := [];
    SameElementsSameCover(merged, ordered[..0]);
    for i := 0 to |ordered|
      invariant Separated(merged)
      invariant RemovalsWithin(merged, lo, hi)
      invariant merged != [] ==> i > 0 && merged[|merged| - 1].start <= ordered[i - 1].start
      invariant SameCover(merged, ordered[..i])
    {
      var s := ordered[i];
      assert ordered[..i + 1] == ordered[..i] + [s];
      StartsGrow(ordered, i, lo, hi);
      if merged != [] && s.start <= merged[|merged| - 1].end {
        var last := merged[|merged| - 1];
        ghost var init := merged[..|merged| - 1];
        assert merged == init + [last];
        GrowLast(init, last, s, ordered[..i]);
        GrowKeeps(init, last, s, lo, hi);
        merged := merged[..|merged| - 1] + [Edit(last.start, if last.end >= s.end then last.end else s.end, "")];
      } else {
        AppendSpan(merged, s, ordered[..i]);
        AppendKeeps(merged, s, lo, hi);
        merged := merged + [s];
      }
    }
    assert ordered[..|ordered|] == ordered;
    SameElementsSameCover(ordered, spans);
    SameCoverTransitive(merged, ordered, spans);
  }

  lemma NoneMerged(lo: nat, hi: nat)
    ensures Separated([]) && RemovalsWithin([], lo, hi)
  {
  }

  lemma OrderedWithin(spans: seq<Edit>, ordered: seq<Edit>, lo: nat, hi: nat)
    requires RemovalsWithin(spans, lo, hi) && forall s :: s in ordered <==> s in spans
    ensures RemovalsWithin(ordered, lo, hi)
  {
  }

  lemma StartsGrow(ordered: seq<Edit>, i: nat, lo: nat, hi: nat)
    requires Ordered(ordered) && RemovalsWithin(ordered, lo, hi) && i < |ordered|
    ensures i > 0 ==> ordered[i - 1].start <= ordered[i].start
    ensures lo <= ordered[i].start <= ordered[i].end <= hi && ordered[i].text == ""
  {
    assert ordered[i] in ordered;
    assert i > 0 ==> SpanLe(ordered[i - 1], ordered[i]);
  }

  lemma GrowKeeps(init: seq<Edit>, last: Edit, s: Edit, lo: nat, hi: nat)
    requires Separated(init + [last]) && RemovalsWithin(init + [last], lo, hi)
    requires lo <= s.start <= s.end <= hi
    ensures var grown := init + [Edit(last.start, if last.end >= s.end then last.end else s.end, "")];
      Separated(grown) && RemovalsWithin(grown, lo, hi)
  {
    assert (init + [last])[|init|] == last && last in init + [last];
    assert forall i | 0 <= i < |init| :: (init + [last])[i] == init[i];
    assert forall x | x in init :: x in init + [last];
  }

  lemma AppendKeeps(merged: seq<Edit>, s: Edit, lo: nat, hi: nat)
    requires Separated(merged) && RemovalsWithin(merged, lo, hi) && lo <= s.start <= s.end <= hi && s.text == ""
    requires merged != [] ==> merged[|merged| - 1].end < s.start
    ensures Separated(merged + [s]) && RemovalsWithin(merged + [s], lo, hi)
  {
    forall i | 0 <= i < |merged| ensures merged[i].end < s.start {
      assert merged[|merged| - 1] in merged;
      if i < |merged| - 1 { assert merged[i].end < merged[|merged| - 1].start; }
    }
  }

  lemma SameCoverTransitive(a: seq<Edit>, b: seq<Edit>, c: seq<Edit>)
    requires SameCover(a, b) && SameCover(b, c)
    ensures SameCover(a, c)
  {
  }

  lemma GrowLast(init: seq<Edit>, last: Edit, s: Edit, seen: seq<Edit>)
    requires SameCover(init + [last], seen)
    requires last.start <= s.start <= last.end && s.start <= s.end
    ensures SameCover(init + [Edit(last.start, if last.end >= s.end then last.end else s.end, "")], seen + [s])
  {
    var grown := Edit(last.start, if last.end >= s.end then last.end else s.end, "");
    forall p ensures Covered(init + [grown], p) <==> Covered(seen + [s], p) {
      assert Covered(init + [last], p) <==> Covered(seen, p);
      CoveredAppend(init, last, p);
      CoveredAppend(init, grown, p);
      CoveredAppend(seen, s, p);
    }
  }

  lemma AppendSpan(merged: seq<Edit>, s: Edit, seen: seq<Edit>)
    requires SameCover(merged, seen)
    ensures SameCover(merged + [s], seen + [s])
  {
    forall p ensures Covered(merged + [s], p) <==> Covered(seen + [s], p) {
      assert Covered(merged, p) <==> Covered(seen, p);
      CoveredAppend(merged, s, p);
      CoveredAppend(seen, s, p);
    }
  }

  lemma SameElementsSameCover(a: seq<Edit>, b: seq<Edit>)
    requires forall s :: s in a <==> s in b
    ensures SameCover(a, b)
  {
  }

  lemma CoveredAppend(spans: seq<Edit>, s: Edit, p: int)
    ensures Covered(spans + [s], p) <==> Covered(spans, p) || s.start <= p < s.end
  {
    assert forall x :: x in spans + [s] <==> x in spans || x == s;
  }

  // ----- applying edits -----

  // Python's clamped slice body[a:b].
  function Slice(body: string, a: nat, b: nat): string {
    var hi := if b <= |body| then b else |body|;
    if a <= hi then body[a..hi] else ""
  }

  // "".join(parts)
  function Concat(parts: seq<string>): string {
    if parts == [] then "" else parts[0] + Concat(parts[1..])
  }

  lemma {:induction false} ConcatSnoc(parts: seq<string>, last: string)
    ensures Concat(parts + [last]) == Concat(parts) + last
  {
    if parts == [] {
      assert parts + [last] == [last];
      assert Concat([last]) == last + Concat([]);
    } else {
      assert (parts + [last])[1..] == parts[1..] + [last];
      ConcatSnoc(parts[1..], last);
    }
  }

  // Copy from `cursor`, replacing each edited span by its text.
  ghost function Splice(body: string, cursor: nat, edits: seq<Edit>): string
    decreases |edits|
  {
    if edits == [] then Slice(body, cursor, |body|)
    else Slice(body, cursor, edits[0].start) + (edits[0].text + Splice(body, edits[0].end, edits[1..]))
  }

  // Apply the edits from left to right.
  method ApplyEdits(body: string, edits: seq<Edit>) returns (result: string)
    ensures result == Splice(body, 0, Sort(edits))
  {
    var ordered := Sort(edits);
    ghost var whole := Splice(body, 0, ordered);
    var parts: seq<string> := [];
    var cursor: nat := 0;
    assert ordered[0..] == ordered;
    for i := 0 to |ordered|
      invariant whole == Concat(parts) + Splice(body, cursor, ordered[i..])
    {
      var e := ordered[i];
      SpliceStep(body, cursor, ordered, i, parts);
      parts := parts + [Slice(body, cursor, e.start)] + [e.text];
      cursor := e.end;
    }
    ConcatSnoc(parts, Slice(body, cursor, |body|));
    parts := parts + [Slice(body, cursor, |body|)];
    result := Concat(parts);
  }

  lemma SpliceStep(body: string, cursor: nat, edits: seq<Edit>, i: nat, parts: seq<string>)
    requires i < |edits|
    ensures Concat(parts) + Splice(body, cursor, edits[i..])
         == Concat(parts + [Slice(body, cursor, edits[i].start)] + [edits[i].text]) + Splice(body, edits[i].end, edits[i + 1..])
  {
    hide Slice, Concat;
    var e := edits[i];
    var copied := Slice(body, cursor, e.start);
    assert edits[i..][1..] == edits[i + 1..];
    ConcatSnoc(parts, copied);
    ConcatSnoc(parts + [copied], e.text);
  }

  // ----- deletion seen position by position -----

  // The characters of body[lo..hi] that no span covers, in order.
  ghost function Keep(body: string, spans: seq<Edit>, lo: nat, hi: nat): string
    requires lo <= hi <= |body|
    decreases hi - lo
  {
    if lo == hi then "" else (if Covered(spans, lo) then "" else [body[lo]]) + Keep(body, spans, lo + 1, hi)
  }

  lemma {:induction false} KeepSplit(body: string, spans: seq<Edit>, lo: nat, mid: nat, hi: nat)
    requires lo <= mid <= hi <= |body|
    ensures Keep(body, spans, lo, hi) == Keep(body, spans, lo, mid) + Keep(body, spans, mid, hi)
    decreases mid - lo
  {
    if lo < mid {
      KeepSplit(body, spans, lo + 1, mid, hi);
    }
  }

  lemma {:induction false} KeepUncovered(body: string, spans: seq<Edit>, lo: nat, hi: nat)
    requires lo <= hi <= |body|
    requires forall p | lo <= p < hi :: !Covered(spans, p)
    ensures Keep(body, spans, lo, hi) == body[lo..hi]
    decreases hi - lo
  {
    if lo < hi {
      KeepUncovered(body, spans, lo + 1, hi);
    }
  }

  lemma {:induction false} KeepCovered(body: string, spans: seq<Edit>, lo: nat, hi: nat)
    requires lo <= hi <= |body|
    requires forall p | lo <= p < hi :: Covered(spans, p)
    ensures Keep(body, spans, lo, hi) == ""
    decreases hi - lo
  {
    if lo < hi {
      KeepCovered(body, spans, lo + 1, hi);
    }
  }

  lemma {:induction false} KeepSameCover(body: string, a: seq<Edit>, b: seq<Edit>, lo: nat, hi: nat)
    requires lo <= hi <= |body|
    requires forall p | lo <= p < hi :: Covered(a, p) <==> Covered(b, p)
    ensures Keep(body, a, lo, hi) == Keep(body, b, lo, hi)
    decreases hi - lo
  {
    if lo < hi {
      KeepSameCover(body, a, b, lo + 1, hi);
    }
  }

  // What the first of several separated removal spans leaves to the others.
  lemma FirstSpan(spans: seq<Edit>, cursor: nat, hi: nat)
    requires spans != [] && Separated(spans) && RemovalsWithin(spans, cursor, hi)
    ensures cursor <= spans[0].start <= spans[0].end <= hi && spans[0].text == ""
    ensures Separated(spans[1..]) && RemovalsWithin(spans[1..], spans[0].end, hi)
    ensures StartsAfter(spans[1..], spans[0].end)
  {
    assert spans[0] in spans;
    forall x | x in spans[1..] ensures x in spans && spans[0].end < x.start {
      var i :| 0 <= i < |spans[1..]| && spans[1..][i] == x;
      assert spans[i + 1] == x;
    }
  }

  ghost predicate StartsAfter(spans: seq<Edit>, q: nat) {
    forall x | x in spans :: q < x.start
  }

  lemma KeepFirstSpan(body: string, s: Edit, rest: seq<Edit>, cursor: nat)
    requires cursor <= s.start <= s.end <= |body|
    requires StartsAfter(rest, s.end)
    ensures Keep(body, [s] + rest, cursor, |body|) == body[cursor..s.start] + Keep(body, rest, s.end, |body|)
  {
    hide Keep;
    var spans := [s] + rest;
    assert s in spans;
    assert forall x :: x in spans <==> x == s || x in rest;
    KeepSplit(body, spans, cursor, s.start, |body|);
    KeepSplit(body, spans, s.start, s.end, |body|);
    KeepUncovered(body, spans, cursor, s.start);
    KeepCovered(body, spans, s.start, s.end);
    KeepSameCover(body, spans, rest, s.end, |body|);
  }

  // Splicing out separated removal spans keeps exactly the uncovered characters.
  lemma {:induction false} SpliceDeletes(body: string, cursor: nat, spans: seq<Edit>)
    requires cursor <= |body|
    requires Separated(spans) && RemovalsWithin(spans, cursor, |body|)
    ensures Splice(body, cursor, spans) == Keep(body, spans, cursor, |body|)
    decreases |spans|
  {
    hide Covered, Keep, Separated, RemovalsWithin, StartsAfter;
    if spans == [] {
      NoSpans(body, cursor);
    } else {
      FirstSpan(spans, cursor, |body|);
      SpliceDeletes(body, spans[0].end, spans[1..]);
      KeepFirstSpan(body, spans[0], spans[1..], cursor);
      assert [spans[0]] + spans[1..] == spans;
    }
  }

  lemma NoSpans(body: string, cursor: nat)
    requires cursor <= |body|
    ensures Keep(body, [], cursor, |body|) == body[cursor..]
  {
    KeepUncovered(body, [], cursor, |body|);
  }
}
