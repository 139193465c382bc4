/** The selection sequence of the monitoring script: region, point of use and
    course are chosen by select id, each failure only clearing its flag; if
    any of the three failed, every target is chosen again by scanning all
    selects in document order. */
module Selection {
  import opened Optional
  import opened OptionMatcher
  import opened FormPage

  const RegionId := "ddl_reg"
  const PouId := "ddl_pou"
  const CourseId := "ddl_course"

  const RegionTarget := "Southern"
  const PouTarget := "HYDERABAD"
  const CourseTarget := "Advanced (ICITSS) MCS"

  /** One `selectByLabel` call as it happened: the selector, the target and
      the boolean it returned. */
  datatype Call = Call(sel: SelectorRef, target: string, ok: bool)

  /** The three id-addressed calls: their flags, the calls in the order made,
      and the page after them. */
  datatype IdResult = IdResult(foundRegion: bool, foundPou: bool, foundCourse: bool,
                               calls: seq<Call>, page: Page)

  /** The inner loop of the fallback for one target: the select that took
      it, if any, the calls made and the page after them. */
  datatype ScanResult = ScanResult(hit: Option<nat>, calls: seq<Call>, page: Page)

  /** The outer loop of the fallback: for each desired target, the select
      that took it, if any; the calls made; the page after them. */
  datatype FallbackResult = FallbackResult(hits: seq<Option<nat>>, calls: seq<Call>, page: Page)

  /** The whole selection sequence: the id flags, the fallback's hits when the
      fallback ran, every call in order, and the final page. */
  datatype RunResult = RunResult(foundRegion: bool, foundPou: bool, foundCourse: bool,
                                 fallback: Option<seq<Option<nat>>>, calls: seq<Call>, page: Page)

  /** The targets the fallback tries, in order (check_icai.js:45-49). */
  const Desired: seq<string> := [RegionTarget, PouTarget, CourseTarget]

  /** The write a call makes: at the select it addressed when it succeeded,
      nowhere when it failed. */
  function WriteOf(page: Page, sel: SelectorRef, target: string, ok: bool): Write {
    Write(if ok then Resolve(page, sel) else None, target)
  }

  /** The writes of the id-addressed phase, in call order. */
  function IdWrites(page: Page, foundRegion: bool, foundPou: bool, foundCourse: bool): seq<Write> {
    [ WriteOf(page, ById(RegionId), RegionTarget, foundRegion),
      WriteOf(page, ById(PouId), PouTarget, foundPou),
      WriteOf(page, ById(CourseId), CourseTarget, foundCourse) ]
  }

  /** The writes of the fallback phase, one per target in order. */
  function FallbackWrites(targets: seq<string>, hits: seq<Option<nat>>): (ws: seq<Write>)
    requires |hits| == |targets|
    ensures |ws| == |targets|
    ensures forall i :: 0 <= i < |targets| ==> ws[i] == Write(hits[i], targets[i])
  {
    if |targets| == 0 then []
    else FallbackWrites(targets[..|targets| - 1], hits[..|hits| - 1]) + [Write(hits[|hits| - 1], targets[|targets| - 1])]
  }

  /** The select at position `k` can take `target`: `selectByLabel` on
      `select:nth-of-type(k + 1)` would succeed. */
  predicate Takes(page: Page, k: nat, target: string) {
    CanSelect(page, ByIndex(k), target)
  }

  /** `hit` is the first select on which `target` can be selected, or nothing
      when there is none. */
  ghost predicate IsFirstSelect(page: Page, target: string, hit: Option<nat>) {
    match hit
    case None => forall j :: 0 <= j < |page.selects| ==> !Takes(page, j, target)
    case Some(k) =>
      && k < |page.selects|
      && Takes(page, k, target)
      && forall j :: 0 <= j < k ==> !Takes(page, j, target)
  }

  /** The calls a scan for `target` over `n` selects makes when `hit` is where
      it succeeds: every position up to and including the hit, or all `n`
      positions when there is none; only the call at the hit answers true.
      This is the sequence the fallback concatenates; `IsScanTrace` states
      the same trace position by position, which is the form the scan's loop
      keeps and the verifier handles cheaply, and `ScanTraceIsScanCalls`
      joins the two. */
  ghost function ScanCalls(target: string, hit: Option<nat>, n: nat): seq<Call> {
    var len := if hit.Some? && hit.value < n then hit.value + 1 else n;
    seq(len, t requires 0 <= t < len => Call(ByIndex(t), target, hit == Some(t)))
  }

  /** `calls` is the trace of a scan for `target` over `n` selects that hit
      `hit`: one call per position from 0, ending at the hit or at `n`, and
      only the call at the hit answered true. */
  ghost predicate IsScanTrace(calls: seq<Call>, target: string, hit: Option<nat>, n: nat) {
    && |calls| == (if hit.Some? && hit.value < n then hit.value + 1 else n)
    && forall t :: 0 <= t < |calls| ==> calls[t] == Call(ByIndex(t), target, hit == Some(t))
  }

  /** The calls of the fallback: one scan per target, in target order. */
  ghost function FallbackCalls(targets: seq<string>, hits: seq<Option<nat>>, n: nat): seq<Call>
    requires |hits| == |targets|
  {
    if |targets| == 0 then []
    else FallbackCalls(targets[..|targets| - 1], hits[..|hits| - 1], n)
         + ScanCalls(targets[|targets| - 1], hits[|hits| - 1], n)
  }

  /** Either outcome of `selectByLabel` is the single write `WriteOf`
      describes, and the page keeps its shape. */
  lemma StepEffect(page: Page, sel: SelectorRef, target: string)
    ensures Effect(page, SelectByLabel(page, sel, target).page,
                   [WriteOf(page, sel, target, SelectByLabel(page, sel, target).ok)])
  {
    var s := SelectByLabel(page, sel, target);
    SelectByLabelWrites(page, sel, target);
    if !s.ok {
      var ws := [Write(None, target)];
      forall k | 0 <= k < |page.selects|
        ensures EffectAt(page, s.page, ws, k)
      {
        assert LastWrite(ws, k) == LastWrite([], k);
      }
    }
  }

  /** One more `selectByLabel` on a page reached from `page0` by the writes
      `ws`: it succeeds exactly when it would have on `page0`, and adds its
      write to `ws`. */
  lemma ChainStep(page0: Page, cur: Page, ws: seq<Write>, sel: SelectorRef, target: string)
    requires Effect(page0, cur, ws)
    ensures SelectByLabel(cur, sel, target).ok == CanSelect(page0, sel, target)
    ensures Effect(page0, SelectByLabel(cur, sel, target).page,
                   ws + [WriteOf(page0, sel, target, CanSelect(page0, sel, target))])
  {
    StepEffect(cur, sel, target);
    CanSelectDependsOnShape(page0, cur, sel, target);
    EffectCompose(page0, cur, SelectByLabel(cur, sel, target).page, ws,
                  [WriteOf(cur, sel, target, SelectByLabel(cur, sel, target).ok)]);
  }

  /** Whether a select can take a target depends only on the page's shape,
      so the first such select is the same on pages of the same shape. */
  lemma FirstSelectDependsOnShape(p: Page, q: Page, target: string, hit: Option<nat>)
    requires SameShape(p, q)
    requires IsFirstSelect(q, target, hit)
    ensures IsFirstSelect(p, target, hit)
  {
    forall j | 0 <= j < |p.selects|
      ensures Takes(p, j, target) == Takes(q, j, target)
    {
      CanSelectDependsOnShape(p, q, ByIndex(j), target);
    }
  }

  /** check_icai.js:17-37: the three id-addressed calls, always all three and always
      in the order region, POU, course; each flag only records its own call's
      result, which depends on the original page alone. */
  method IdPhase(page: Page) returns (r: IdResult)
    ensures r.foundRegion <==> CanSelect(page, ById(RegionId), RegionTarget)
    ensures r.foundPou <==> CanSelect(page, ById(PouId), PouTarget)
    ensures r.foundCourse <==> CanSelect(page, ById(CourseId), CourseTarget)
    ensures r.calls == [ Call(ById(RegionId), RegionTarget, r.foundRegion),
                         Call(ById(PouId), PouTarget, r.foundPou),
                         Call(ById(CourseId), CourseTarget, r.foundCourse) ]
    ensures Effect(page, r.page, IdWrites(page, r.foundRegion, r.foundPou, r.foundCourse))
  {
    NoWritesEffect(page);
    var s1 := SelectByLabel(page, ById(RegionId), RegionTarget);
    ChainStep(page, page, [], ById(RegionId), RegionTarget);
    var w1 := WriteOf(page, ById(RegionId), RegionTarget, s1.ok);
    assert [] + [w1] == [w1];

    var s2 := SelectByLabel(s1.page, ById(PouId), PouTarget);
    ChainStep(page, s1.page, [w1], ById(PouId), PouTarget);
    var w2 := WriteOf(page, ById(PouId), PouTarget, s2.ok);
    assert [w1] + [w2] == [w1, w2];

    var s3 := SelectByLabel(s2.page, ById(CourseId), CourseTarget);
    ChainStep(page, s2.page, [w1, w2], ById(CourseId), CourseTarget);
    var w3 := WriteOf(page, ById(CourseId), CourseTarget, s3.ok);
    assert [w1, w2] + [w3] == IdWrites(page, s1.ok, s2.ok, s3.ok);

    r := IdResult(s1.ok, s2.ok, s3.ok,
                  [Call(ById(RegionId), RegionTarget, s1.ok),
                   Call(ById(PouId), PouTarget, s2.ok),
                   Call(ById(CourseId), CourseTarget, s3.ok)],
                  s3.page);
  }

  /** check_icai.js:51-56: the inner loop for one target. Selects are tried in
      increasing position and the loop stops at the first success, so at
      most one select changes and none after it is tried. */
  method Scan(page: Page, target: string) returns (r: ScanResult)
    ensures IsFirstSelect(page, target, r.hit)
    ensures IsScanTrace(r.calls, target, r.hit, |page.selects|)
    ensures Effect(page, r.page, [Write(r.hit, target)])
  {
    var calls: seq<Call> := [];
    var idx := 0;
    while idx < |page.selects|
      invariant idx <= |page.selects|
      invariant forall j :: 0 <= j < idx ==> !Takes(page, j, target)
      invariant IsScanTrace(calls, target, None, idx)
    {
      var step := SelectByLabel(page, ByIndex(idx), target);
      ScanTraceExtend(calls, target, idx, |page.selects|);
      calls := calls + [Call(ByIndex(idx), target, step.ok)];
      if step.ok {
        ScanHit(page, target, idx);
        return ScanResult(Some(idx), calls, step.page);
      }
      idx := idx + 1;
    }
    ScanMiss(page, target);
    r := ScanResult(None, calls, page);
  }

  /** A select that takes the target after every earlier one refused it is
      the first select for the target, and the call on it is the scan's
      only write. */
  lemma ScanHit(page: Page, target: string, idx: nat)
    requires idx < |page.selects|
    requires forall j :: 0 <= j < idx ==> !Takes(page, j, target)
    requires CanSelect(page, ByIndex(idx), target)
    ensures IsFirstSelect(page, target, Some(idx))
    ensures Effect(page, SelectByLabel(page, ByIndex(idx), target).page, [Write(Some(idx), target)])
  {
    StepEffect(page, ByIndex(idx), target);
  }

  /** When every select refuses the target, the scan finds none and the page
      stays as it was. */
  lemma ScanMiss(page: Page, target: string)
    requires forall j :: 0 <= j < |page.selects| ==> !Takes(page, j, target)
    ensures IsFirstSelect(page, target, None)
    ensures Effect(page, page, [Write(None, target)])
  {
    var ws := [Write(None, target)];
    forall k | 0 <= k < |page.selects|
      ensures EffectAt(page, page, ws, k)
    {
      assert LastWrite(ws, k) == LastWrite([], k);
    }
  }

  /** A failed call extends a trace of misses by one position, and a
      successful one turns it into the trace of a hit there. */
  lemma ScanTraceExtend(calls: seq<Call>, target: string, idx: nat, n: nat)
    requires idx < n
    requires IsScanTrace(calls, target, None, idx)
    ensures IsScanTrace(calls + [Call(ByIndex(idx), target, false)], target, None, idx + 1)
    ensures IsScanTrace(calls + [Call(ByIndex(idx), target, true)], target, Some(idx), n)
  {
  }

  /** A scan trace is the call sequence `ScanCalls` lists. */
  lemma ScanTraceIsScanCalls(calls: seq<Call>, target: string, hit: Option<nat>, n: nat)
    requires IsScanTrace(calls, target, hit, n)
    ensures calls == ScanCalls(target, hit, n)
  {
  }

  /** check_icai.js:39-58: the fallback runs the inner scan once per desired target,
      in order, whatever the id phase achieved. Each scan finds the select it
      would have found on the page the fallback started from. */
  method Fallback(page: Page) returns (r: FallbackResult)
    ensures |r.hits| == |Desired|
    ensures forall i :: 0 <= i < |Desired| ==> IsFirstSelect(page, Desired[i], r.hits[i])
    ensures r.calls == FallbackCalls(Desired, r.hits, |page.selects|)
    ensures Effect(page, r.page, FallbackWrites(Desired, r.hits))
  {
    var cur := page;
    var hits: seq<Option<nat>> := [];
    var calls: seq<Call> := [];
    NoWritesEffect(page);
    var i := 0;
    while i < |Desired|
      invariant i <= |Desired| && |hits| == i
      invariant forall i' :: 0 <= i' < i ==> IsFirstSelect(page, Desired[i'], hits[i'])
      invariant calls == FallbackCalls(Desired[..i], hits, |page.selects|)
      invariant Effect(page, cur, FallbackWrites(Desired[..i], hits))
    {
      var sc := Scan(cur, Desired[i]);
      ScanTraceIsScanCalls(sc.calls, Desired[i], sc.hit, |cur.selects|);
      FirstSelectDependsOnShape(page, cur, Desired[i], sc.hit);
      EffectCompose(page, cur, sc.page, FallbackWrites(Desired[..i], hits), [Write(sc.hit, Desired[i])]);
      FallbackExtend(Desired, i, hits, sc.hit, |page.selects|);
      calls := calls + sc.calls;
      hits := hits + [sc.hit];
      cur := sc.page;
      i := i + 1;
    }
    assert Desired[..i] == Desired;
    r := FallbackResult(hits, calls, cur);
  }

  /** One more scan extends the fallback's writes and calls by that scan's. */
  lemma FallbackExtend(targets: seq<string>, i: nat, hits: seq<Option<nat>>, hit: Option<nat>, n: nat)
    requires i < |targets| && |hits| == i
    ensures FallbackWrites(targets[..i + 1], hits + [hit])
         == FallbackWrites(targets[..i], hits) + [Write(hit, targets[i])]
    ensures FallbackCalls(targets[..i + 1], hits + [hit], n)
         == FallbackCalls(targets[..i], hits, n) + ScanCalls(targets[i], hit, n)
    ensures forall i' :: 0 <= i' < i ==> (hits + [hit])[i'] == hits[i']
  {
    assert targets[..i + 1][..i] == targets[..i];
    assert (hits + [hit])[..i] == hits;
  }

  /** check_icai.js:15-58 as a whole: the id phase, then the fallback exactly when a
      flag is false. A target the id phase already set is scanned for again,
      and the scan takes the first select that can hold it, which is never
      later than the select the id addressed. */
  method Run(page: Page) returns (r: RunResult)
    ensures r.foundRegion <==> CanSelect(page, ById(RegionId), RegionTarget)
    ensures r.foundPou <==> CanSelect(page, ById(PouId), PouTarget)
    ensures r.foundCourse <==> CanSelect(page, ById(CourseId), CourseTarget)
    ensures |r.calls| >= 3
    ensures r.calls[..3] == [ Call(ById(RegionId), RegionTarget, r.foundRegion),
                              Call(ById(PouId), PouTarget, r.foundPou),
                              Call(ById(CourseId), CourseTarget, r.foundCourse) ]
    ensures r.fallback.Some? <==> !(r.foundRegion && r.foundPou && r.foundCourse)
    ensures r.fallback.None? ==> |r.calls| == 3
    ensures r.fallback.None? ==> Effect(page, r.page, IdWrites(page, r.foundRegion, r.foundPou, r.foundCourse))
    ensures r.fallback.Some? ==>
      && |r.fallback.value| == |Desired|
      && (forall i :: 0 <= i < |Desired| ==> IsFirstSelect(page, Desired[i], r.fallback.value[i]))
      && r.calls[3..] == FallbackCalls(Desired, r.fallback.value, |page.selects|)
      && Effect(page, r.page, IdWrites(page, r.foundRegion, r.foundPou, r.foundCourse)
                              + FallbackWrites(Desired, r.fallback.value))
    ensures r.fallback.Some? && r.foundRegion ==>
      && r.fallback.value[0].Some?
      && r.fallback.value[0].value <= Resolve(page, ById(RegionId)).value
    ensures r.fallback.Some? && r.foundPou ==>
      && r.fallback.value[1].Some?
      && r.fallback.value[1].value <= Resolve(page, ById(PouId)).value
    ensures r.fallback.Some? && r.foundCourse ==>
      && r.fallback.value[2].Some?
      && r.fallback.value[2].value <= Resolve(page, ById(CourseId)).value
  {
    var id := IdPhase(page);
    if id.foundRegion && id.foundPou && id.foundCourse {
      return RunResult(id.foundRegion, id.foundPou, id.foundCourse, None, id.calls, id.page);
    }
    var fb := Fallback(id.page);
    forall i | 0 <= i < |Desired|
      ensures IsFirstSelect(page, Desired[i], fb.hits[i])
    {
      FirstSelectDependsOnShape(page, id.page, Desired[i], fb.hits[i]);
    }
    EffectCompose(page, id.page, fb.page, IdWrites(page, id.foundRegion, id.foundPou, id.foundCourse),
                  FallbackWrites(Desired, fb.hits));
    if id.foundRegion {
      IdTargetBoundsScan(page, RegionId, Desired[0], fb.hits[0]);
    }
    if id.foundPou {
      IdTargetBoundsScan(page, PouId, Desired[1], fb.hits[1]);
    }
    if id.foundCourse {
      IdTargetBoundsScan(page, CourseId, Desired[2], fb.hits[2]);
    }
    var calls := id.calls + fb.calls;
    assert calls[..3] == id.calls && calls[3..] == fb.calls;
    r := RunResult(id.foundRegion, id.foundPou, id.foundCourse, Some(fb.hits), calls, fb.page);
  }

  /** When the select with a given id can take a target, a scan over all
      selects for the same target succeeds, at that select or an earlier one. */
  lemma IdTargetBoundsScan(page: Page, id: string, target: string, hit: Option<nat>)
    requires CanSelect(page, ById(id), target)
    requires IsFirstSelect(page, target, hit)
    ensures hit.Some? && hit.value <= Resolve(page, ById(id)).value
  {
    var k := Resolve(page, ById(id)).value;
    assert ChoicesAt(page, ByIndex(k)) == ChoicesAt(page, ById(id));
    assert Takes(page, k, target);
  }
}
