/** The page as the selection logic sees it: an ordered list of `<select>`
    controls, each with fixed options and a current value, and `selectByLabel`
    as a pure step from one page to the next. */
module FormPage {
  import opened Optional
  import opened Ascii
  import opened OptionMatcher

  /** A `<select>` control: its id attribute, its options in document order
      and the value currently selected. */
  datatype Select = Select(id: string, options: seq<SelectOption>, value: string)

  /** The selects of the page in document order. */
  datatype Page = Page(selects: seq<Select>)

  /** How a call addresses a select: by CSS id (`#ddl_reg`) or by position
      (`select:nth-of-type(i + 1)`, taken here as the i-th select of the page). */
  datatype SelectorRef = ById(id: string) | ByIndex(index: nat)

  /** The outcome of one `selectByLabel` call: its boolean result and the page
      after it. */
  datatype Step = Step(ok: bool, page: Page)

  /** The position of the first select at or after `from` whose id is `id`. */
  function FindId(selects: seq<Select>, id: string, from: nat): (r: Option<nat>)
    requires from <= |selects|
    ensures r.None? <==> forall k :: from <= k < |selects| ==> selects[k].id != id
    ensures r.Some? ==> from <= r.value < |selects| && selects[r.value].id == id
    ensures r.Some? ==> forall k :: from <= k < r.value ==> selects[k].id != id
    decreases |selects| - from
  {
    if from == |selects| then None
    else if selects[from].id == id then Some(from)
    else FindId(selects, id, from + 1)
  }

  /** The select a selector addresses, if the page has one. An id selects the
      first control carrying it; a position selects the control at it. */
  function Resolve(page: Page, sel: SelectorRef): (r: Option<nat>)
    ensures r.Some? ==> r.value < |page.selects|
    ensures sel.ByIndex? ==> (r.Some? <==> sel.index < |page.selects|)
    ensures sel.ByIndex? && r.Some? ==> r.value == sel.index
    ensures sel.ById? ==> (r.None? <==> forall k :: 0 <= k < |page.selects| ==> page.selects[k].id != sel.id)
    ensures sel.ById? && r.Some? ==> page.selects[r.value].id == sel.id
    ensures sel.ById? && r.Some? ==> forall k :: 0 <= k < r.value ==> page.selects[k].id != sel.id
  {
    match sel
    case ById(id) => FindId(page.selects, id, 0)
    case ByIndex(i) => if i < |page.selects| then Some(i) else None
  }

  /** What `$$eval(selector + ' option', ...)` returns: the read choices of the
      addressed select, or nothing when no select matches the selector. */
  function ChoicesAt(page: Page, sel: SelectorRef): seq<Choice> {
    match Resolve(page, sel)
    case None => []
    case Some(k) => ReadOptions(page.selects[k].options)
  }

  /** `selectByLabel` finds an option for `target` behind `sel`. */
  predicate CanSelect(page: Page, sel: SelectorRef, target: string) {
    HasMatch(ChoicesAt(page, sel), target)
  }

  /** Both pages have the same selects with the same ids and options; only
      current values may differ. */
  ghost predicate SameShape(p: Page, q: Page) {
    && |p.selects| == |q.selects|
    && forall k :: 0 <= k < |p.selects| ==>
         p.selects[k].id == q.selects[k].id && p.selects[k].options == q.selects[k].options
  }

  /** `v` is the value of the first option of `opts` whose read text matches
      `target`. */
  ghost predicate IsFirstMatchValue(opts: seq<SelectOption>, target: string, v: string) {
    exists j :: IsFirstMatch(ReadOptions(opts), target, j) && opts[j].value == v
  }

  /** A value assignment made by a successful `selectByLabel`: which select it
      changed (none for a failed call) and the target it matched. */
  datatype Write = Write(at: Option<nat>, target: string)

  /** The target of the last write in `ws` that changed select `k`, if any. */
  function LastWrite(ws: seq<Write>, k: nat): Option<string>
    decreases |ws|
  {
    if |ws| == 0 then None
    else if ws[|ws| - 1].at == Some(k) then Some(ws[|ws| - 1].target)
    else LastWrite(ws[..|ws| - 1], k)
  }

  /** Select `k` of `after` is what the writes `ws`, applied in order to
      `before`, leave there. */
  ghost predicate EffectAt(before: Page, after: Page, ws: seq<Write>, k: nat)
    requires k < |before.selects| && k < |after.selects|
  {
    match LastWrite(ws, k)
    case None => after.selects[k] == before.selects[k]
    case Some(t) => IsFirstMatchValue(before.selects[k].options, t, after.selects[k].value)
  }

  /** `after` is `before` with the writes `ws` applied in order: no select
      appears or disappears, no option changes, every select that no write
      touched keeps its value, and every other holds the value of the first
      option matching the last target written to it. */
  ghost predicate Effect(before: Page, after: Page, ws: seq<Write>) {
    && SameShape(before, after)
    && forall k :: 0 <= k < |before.selects| ==> EffectAt(before, after, ws, k)
  }

  /** Sets the current value of select `k`, as `page.selectOption` does. */
  function SetValue(page: Page, k: nat, v: string): (r: Page)
    requires k < |page.selects|
    ensures SameShape(page, r)
    ensures r.selects[k].value == v
    ensures forall i :: 0 <= i < |page.selects| && i != k ==> r.selects[i] == page.selects[i]
  {
    page.(selects := page.selects[k := page.selects[k].(value := v)])
  }

  /** `selectByLabel(selector, target)`: reads the options behind the
      selector, takes the first whose trimmed text contains the target (both
      lower-cased), sets the select to that option's value and answers true;
      answers false and changes nothing when no option matches, including
      when the selector finds no select. What a successful call writes is
      stated by `SelectByLabelWrites`. */
  function SelectByLabel(page: Page, sel: SelectorRef, target: string): (r: Step)
    ensures r.ok <==> CanSelect(page, sel, target)
    ensures !r.ok ==> r.page == page
  {
    var choices := ChoicesAt(page, sel);
    match FindMatch(choices, target)
    case None => Step(false, page)
    case Some(j) => Step(true, SetValue(page, Resolve(page, sel).value, choices[j].value))
  }

  /** A successful `selectByLabel` changes only the addressed select, which
      takes the value of its first option matching the target. */
  lemma SelectByLabelWrites(page: Page, sel: SelectorRef, target: string)
    ensures SelectByLabel(page, sel, target).ok ==>
              Effect(page, SelectByLabel(page, sel, target).page, [Write(Resolve(page, sel), target)])
  {
    var choices := ChoicesAt(page, sel);
    match FindMatch(choices, target)
    case None =>
    case Some(j) =>
      SetValueEffect(page, Resolve(page, sel).value, target, j);
  }

  /** Setting select `k` to the value of its first option matching `target`
      is the single write of `target` at `k`. */
  lemma SetValueEffect(page: Page, k: nat, target: string, j: nat)
    requires k < |page.selects|
    requires IsFirstMatch(ReadOptions(page.selects[k].options), target, j)
    ensures Effect(page, SetValue(page, k, page.selects[k].options[j].value), [Write(Some(k), target)])
  {
    var r := SetValue(page, k, page.selects[k].options[j].value);
    var ws := [Write(Some(k), target)];
    forall i | 0 <= i < |page.selects|
      ensures EffectAt(page, r, ws, i)
    {
      if i == k {
        assert LastWrite(ws, i) == Some(target);
      } else {
        assert LastWrite(ws, i) == LastWrite([], i);
      }
    }
  }

  /** Selection only changes values, so whether a selector finds a match is
      the same on any page of the same shape. */
  lemma CanSelectDependsOnShape(p: Page, q: Page, sel: SelectorRef, target: string)
    requires SameShape(p, q)
    ensures Resolve(p, sel) == Resolve(q, sel)
    ensures CanSelect(p, sel, target) == CanSelect(q, sel, target)
  {
  }

  /** The last write to a select in `w1 + w2` is the last in `w2` when `w2`
      touches it, and the last in `w1` otherwise. */
  lemma {:induction false} LastWriteAppend(w1: seq<Write>, w2: seq<Write>, k: nat)
    ensures LastWrite(w1 + w2, k) == if LastWrite(w2, k).Some? then LastWrite(w2, k) else LastWrite(w1, k)
    decreases |w2|
  {
    if |w2| == 0 {
      assert w1 + w2 == w1;
    } else {
      assert (w1 + w2)[..|w1 + w2| - 1] == w1 + w2[..|w2| - 1];
      LastWriteAppend(w1, w2[..|w2| - 1], k);
    }
  }

  /** No writes leave the page as it is. */
  lemma NoWritesEffect(page: Page)
    ensures Effect(page, page, [])
  {
  }

  /** Applying `w1` and then `w2` has the effect of applying `w1 + w2`. */
  lemma EffectCompose(a: Page, b: Page, c: Page, w1: seq<Write>, w2: seq<Write>)
    requires Effect(a, b, w1) && Effect(b, c, w2)
    ensures Effect(a, c, w1 + w2)
  {
    forall k | 0 <= k < |a.selects|
      ensures EffectAt(a, c, w1 + w2, k)
    {
      LastWriteAppend(w1, w2, k);
      assert EffectAt(a, b, w1, k) && EffectAt(b, c, w2, k);
    }
  }

  /** Running the same `selectByLabel` twice has the effect of running it once. */
  lemma SelectByLabelIdempotent(page: Page, sel: SelectorRef, target: string)
    ensures SelectByLabel(SelectByLabel(page, sel, target).page, sel, target) == SelectByLabel(page, sel, target)
  {
    var first := SelectByLabel(page, sel, target);
    SelectByLabelWrites(page, sel, target);
    CanSelectDependsOnShape(page, first.page, sel, target);
  }

  /** Changing the case of the target's letters never changes the outcome. */
  lemma SelectByLabelIgnoresTargetCase(page: Page, sel: SelectorRef, a: string, b: string)
    requires SameUpToCase(a, b)
    ensures SelectByLabel(page, sel, a) == SelectByLabel(page, sel, b)
  {
    FindMatchIgnoresTargetCase(ChoicesAt(page, sel), a, b);
  }
}
