/** The matching rule inside `selectByLabel`: read every option of a select as
    a (value, trimmed text) pair and take the first one whose lower-cased text
    contains the lower-cased target label. */
module OptionMatcher {
  import opened Optional
  import opened Ascii

  /** One `<option>` element: the value it submits and its rendered text,
      whitespace included. */
  datatype SelectOption = SelectOption(value: string, text: string)

  /** What the page evaluation reads from one option: its value and its
      text with surrounding whitespace trimmed. It has the same fields as
      `SelectOption`, but a separate type, so that only text that went
      through `ReadOption` can reach `Matches`; the type marks the trim. */
  datatype Choice = Choice(value: string, text: string)

  function ReadOption(o: SelectOption): (c: Choice)
    ensures c.value == o.value
  {
    Choice(o.value, Trim(o.text))
  }

  /** The `$$eval` over a select's options: one choice per option, in
      document order. */
  function ReadOptions(opts: seq<SelectOption>): (cs: seq<Choice>)
    ensures |cs| == |opts|
    ensures forall j :: 0 <= j < |opts| ==> cs[j] == ReadOption(opts[j])
  {
    seq(|opts|, j requires 0 <= j < |opts| => ReadOption(opts[j]))
  }

  /** The predicate handed to `find`: the read (already trimmed) text,
      lower-cased, contains the lower-cased target. The target is not trimmed. */
  predicate Matches(c: Choice, target: string) {
    Contains(Lower(c.text), Lower(target))
  }

  predicate HasMatch(opts: seq<Choice>, target: string) {
    exists j :: 0 <= j < |opts| && Matches(opts[j], target)
  }

  /** `k` is the position of the first matching option in document order. */
  ghost predicate IsFirstMatch(opts: seq<Choice>, target: string, k: int) {
    && 0 <= k < |opts|
    && Matches(opts[k], target)
    && forall j :: 0 <= j < k ==> !Matches(opts[j], target)
  }

  /** `Array.prototype.find` with `Matches`: the index of the first matching
      option, or nothing when no option matches. */
  function FindMatch(opts: seq<Choice>, target: string): (r: Option<nat>)
    ensures r.None? <==> !HasMatch(opts, target)
    ensures r.Some? ==> IsFirstMatch(opts, target, r.value)
  {
    FindMatchFrom(opts, target, 0)
  }

  /** The search of `FindMatch` resumed at position `from`. */
  function FindMatchFrom(opts: seq<Choice>, target: string, from: nat): (r: Option<nat>)
    requires from <= |opts|
    requires forall j :: 0 <= j < from ==> !Matches(opts[j], target)
    ensures r.None? <==> !HasMatch(opts, target)
    ensures r.Some? ==> IsFirstMatch(opts, target, r.value)
    decreases |opts| - from
  {
    if from == |opts| then None
    else if Matches(opts[from], target) then Some(from)
    else FindMatchFrom(opts, target, from + 1)
  }

  /** Changing the case of the target's letters never changes whether an
      option matches. */
  lemma MatchIgnoresTargetCase(c: Choice, a: string, b: string)
    requires SameUpToCase(a, b)
    ensures Matches(c, a) == Matches(c, b)
  {
    LowerCollapsesCase(a, b);
  }

  /** Changing the case of the target's letters never changes which option is
      chosen. */
  lemma FindMatchIgnoresTargetCase(opts: seq<Choice>, a: string, b: string)
    requires SameUpToCase(a, b)
    ensures FindMatch(opts, a) == FindMatch(opts, b)
  {
    FindMatchFromIgnoresTargetCase(opts, a, b, 0);
  }

  lemma {:induction false} FindMatchFromIgnoresTargetCase(opts: seq<Choice>, a: string, b: string, from: nat)
    requires SameUpToCase(a, b)
    requires from <= |opts|
    requires forall j :: 0 <= j < from ==> !Matches(opts[j], a)
    ensures forall j :: 0 <= j < from ==> !Matches(opts[j], b)
    ensures FindMatchFrom(opts, a, from) == FindMatchFrom(opts, b, from)
    decreases |opts| - from
  {
    forall j | 0 <= j < from
      ensures !Matches(opts[j], b)
    {
      MatchIgnoresTargetCase(opts[j], a, b);
    }
    if from < |opts| {
      MatchIgnoresTargetCase(opts[from], a, b);
      if !Matches(opts[from], a) {
        FindMatchFromIgnoresTargetCase(opts, a, b, from + 1);
      }
    }
  }

  /** An upper-case target finds its name inside mixed-case option text. */
  lemma UpperCaseTargetMatches()
    ensures Matches(Choice("HYD", "Southern - hyderabad"), "HYDERABAD")
  {
    var needle := Lower("HYDERABAD");
    assert needle == "hyderabad";
    var low := Lower("Southern - hyderabad");
    assert low[11..20] == needle;
    assert OccursAt(low, needle, 11);
    ContainsSpec(low, needle);
  }

  /** Of the regions "Eastern" and "Southern - HYDERABAD", the target
      "HYDERABAD" picks the second. */
  lemma FindMatchPicksMatchingRegion()
    ensures FindMatch([Choice("E", "Eastern"), Choice("HYD", "Southern - HYDERABAD")], "HYDERABAD") == Some(1)
  {
    var opts := [Choice("E", "Eastern"), Choice("HYD", "Southern - HYDERABAD")];
    var needle := Lower("HYDERABAD");
    assert needle == "hyderabad";
    var low := Lower(opts[1].text);
    assert low[11..20] == needle;
    assert OccursAt(low, needle, 11);
    ContainsSpec(low, needle);
    assert |Lower(opts[0].text)| < |needle|;
  }

  /** Whitespace around an option's text never blocks or creates a match:
      the option reads exactly as the unpadded one. */
  lemma OptionPaddingIsIgnored(v: string, w1: string, t: string, w2: string, target: string)
    requires AllWhitespace(w1) && AllWhitespace(w2)
    ensures ReadOption(SelectOption(v, w1 + t + w2)) == ReadOption(SelectOption(v, t))
    ensures Matches(ReadOption(SelectOption(v, w1 + t + w2)), target) == Matches(ReadOption(SelectOption(v, t)), target)
  {
    TrimIgnoresPadding(w1, t, w2);
  }

  /** Whitespace around the target is kept: an option whose trimmed text is
      exactly the target matches it, but not the same target with whitespace
      added at either end. */
  lemma TargetPaddingBlocks(o: SelectOption, w: string)
    requires AllWhitespace(w) && |w| > 0
    ensures Matches(ReadOption(o), Trim(o.text))
    ensures !Matches(ReadOption(o), w + Trim(o.text))
    ensures !Matches(ReadOption(o), Trim(o.text) + w)
  {
    var t := Trim(o.text);
    assert OccursAt(Lower(t), Lower(t), 0);
    assert |Lower(w + t)| > |Lower(t)|;
    assert |Lower(t + w)| > |Lower(t)|;
  }

  /** The empty target is contained in every text, so it picks the first option. */
  lemma EmptyTargetPicksFirst(opts: seq<Choice>)
    requires |opts| > 0
    ensures FindMatch(opts, "") == Some(0)
  {
    assert OccursAt(Lower(opts[0].text), Lower(""), 0);
  }
}
