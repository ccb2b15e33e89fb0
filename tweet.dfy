/**
  The `Tweet` class of lib/tweet_compressor/tweet.rb: the original text, the
  working text and the list of preserved URLs, and `compress`, which saves
  the URLs, runs the stages in a fixed order while the count is over the
  limit, and puts the URLs back.
 */
module TweetCompressor {
  import opened Wrappers
  import opened Text
  import R = Rewrite
  import C = Compress
  import U = Urls

  /** `MAX_LENGTH`: the budget of a tweet. */
  const MaxLength: nat := 140

  /** The stages `compress` may run, by the names of the methods it sends. */
  datatype Stage =
    | UrlPreserve | Whitespace | CorrectGrammar | Contractions | DedupePunct
    | Abbr | RemoveVowels | DedupeConsonants | Apostrophes | Sentences

  /** The stage list of `compress`, in its order. */
  const Stages: seq<Stage> :=
    [UrlPreserve, Whitespace, CorrectGrammar, Contractions, DedupePunct,
     Abbr, RemoveVowels, DedupeConsonants, Apostrophes, Sentences]

  /** The part of a tweet the stages change: `@compressed` and `@urls`. */
  datatype State = State(text: string, urls: seq<string>)

  /** `char_count` of a state. */
  function Count(st: State): int
  {
    C.CharCount(st.text, st.urls)
  }

  /** `url_preserve`: the URLs of the text, and the text with each of them masked. */
  function Preserve(text: string): State
  {
    var us := U.ScanUrls(text);
    State(U.MaskAll(us, text), us)
  }

  /** `url_restore`: each URL in turn takes the place of the first remaining placeholder. */
  function Restore(st: State): State
  {
    State(U.RestoreAll(st.urls, st.text), st.urls)
  }

  /** One stage. */
  function Step(stage: Stage, st: State): State
  {
    match stage
    case UrlPreserve => Preserve(st.text)
    case Whitespace => State(C.Whitespace(st.text), st.urls)
    case CorrectGrammar => State(C.CorrectGrammar(st.text), st.urls)
    case Contractions => State(C.Contractions(st.text), st.urls)
    case DedupePunct => State(C.DedupePunct(st.text), st.urls)
    case Abbr => State(C.Abbr(st.text), st.urls)
    case RemoveVowels => State(C.RemoveVowels(st.text), st.urls)
    case DedupeConsonants => State(C.DedupeConsonants(st.text), st.urls)
    case Apostrophes => State(C.Apostrophes(st.text), st.urls)
    case Sentences => State(C.Sentences(st.text), st.urls)
  }

  /**
    The `stages.each` loop, for a given meaning `step` of each stage: before
    each stage, stop once the count is within the budget.
   */
  function RunStages(step: (Stage, State) -> State, stages: seq<Stage>, st: State): State
    decreases |stages|
  {
    if stages == [] || Count(st) <= MaxLength then st else RunStages(step, stages[1..], step(stages[0], st))
  }

  /** How many stages that loop runs. */
  function Ran(step: (Stage, State) -> State, stages: seq<Stage>, st: State): (n: nat)
    ensures n <= |stages|
    decreases |stages|
  {
    if stages == [] || Count(st) <= MaxLength then 0 else 1 + Ran(step, stages[1..], step(stages[0], st))
  }

  /** Stages applied one after the other, with no check in between. */
  function ApplyStages(step: (Stage, State) -> State, stages: seq<Stage>, st: State): State
    decreases |stages|
  {
    if stages == [] then st else ApplyStages(step, stages[1..], step(stages[0], st))
  }

  /** What `compress` makes of a working text. */
  function CompressText(s: string): State
  {
    Restore(RunStages(Step, Stages, Preserve(s)))
  }

  /** The integer nearest to `y`, halves upwards. */
  function RoundHalfUp(y: real): (n: int)
    ensures y - 0.5 < n as real <= y + 0.5
  {
    (y + 0.5).Floor
  }

  lemma FloorOfInt(n: int)
    ensures (n as real).Floor == n
  {
  }

  /**
    `round(2)` on an exact value: to the nearest hundredth, halves away from
    zero.
   */
  function Round2(x: real): (r: real)
    ensures -0.005 <= r - x <= 0.005
    ensures (r * 100.0).Floor as real == r * 100.0
    ensures x >= 0.0 ==> r >= 0.0
  {
    var n := if x >= 0.0 then RoundHalfUp(x * 100.0) else -RoundHalfUp(-x * 100.0);
    assert (n as real / 100.0) * 100.0 == n as real;
    FloorOfInt(n);
    n as real / 100.0
  }

  /** `compression_level` from a count and the length of the original; None where Ruby divides by zero. */
  function Level(count: int, size: nat): (o: Option<real>)
    ensures o.None? <==> size == 0
    ensures o.Some? ==> -0.005 <= o.value - (100.0 - (count as real / size as real) * 100.0) <= 0.005
    ensures o.Some? && 0 <= count <= size ==> 0.0 <= o.value <= 100.0
  {
    if size == 0 then None
    else
      var x := 100.0 - (count as real / size as real) * 100.0;
      LevelBounds(count, size);
      Some(Round2(x))
  }

  lemma LevelBounds(count: int, size: nat)
    requires size > 0
    ensures 0 <= count <= size ==> 0.0 <= 100.0 - (count as real / size as real) * 100.0 <= 100.0
    ensures 0 <= count <= size ==> 0.0 <= Round2(100.0 - (count as real / size as real) * 100.0) <= 100.0
  {
    if 0 <= count <= size {
      var q := count as real / size as real;
      assert 0.0 <= q <= 1.0 by {
        assert q * size as real == count as real;
      }
      var x := 100.0 - q * 100.0;
      assert RoundHalfUp(x * 100.0) <= 10000;
    }
  }

  class Tweet {
    /** `@original`: never changed here (the source's aliasing is not modelled). */
    const original: string
    /** `@compressed`. */
    var compressed: string
    /** `@urls`. */
    var urls: seq<string>

    /** `initialize`: both texts are the tweet, no URL is saved. */
    constructor (tweet: string := "")
      ensures original == tweet && compressed == tweet && urls == []
    {
      original, compressed := tweet, tweet;
      urls := [];
    }

    function Current(): State
      reads this
    {
      State(compressed, urls)
    }

    /** `char_count`. */
    function CharCount(): (n: int)
      reads this
      ensures n == |compressed| - SumLengths(urls) + C.UrlLength * |urls|
    {
      C.CharCount(compressed, urls)
    }

    /** Consecutive `gsub!` calls on `@compressed`. */
    method Substitute(rules: seq<R.Rule>)
      modifies this
      ensures compressed == R.ApplyAll(rules, old(compressed)) && urls == old(urls)
    {
      for i := 0 to |rules|
        invariant compressed == R.ApplyAll(rules[..i], old(compressed)) && urls == old(urls)
      {
        assert rules[..i + 1] == rules[..i] + [rules[i]];
        R.ApplyAllSnoc(rules[..i], rules[i], old(compressed));
        compressed := R.ReplaceAll(rules[i], compressed);
      }
      assert rules[..|rules|] == rules;
    }

    /** `url_preserve`: save the URLs, then mask every occurrence of each, one URL at a time. */
    method UrlPreserve()
      modifies this
      ensures urls == U.ScanUrls(old(compressed)) && compressed == U.MaskAll(urls, old(compressed))
    {
      urls := U.ScanUrls(compressed);
      for i := 0 to |urls|
        invariant urls == U.ScanUrls(old(compressed))
        invariant compressed == U.MaskAll(urls[..i], old(compressed))
      {
        U.MaskAllStep(urls, i, old(compressed));
        compressed := R.ReplaceAll(R.Literal(urls[i], C.UrlHolder), compressed);
      }
      assert urls[..|urls|] == urls;
    }

    /** `url_restore`: for each saved URL in turn, the first placeholder becomes it. */
    method UrlRestore()
      modifies this
      ensures compressed == U.RestoreAll(urls, old(compressed)) && urls == old(urls)
    {
      for i := 0 to |urls|
        invariant urls == old(urls)
        invariant compressed == U.RestoreAll(urls[..i], old(compressed))
      {
        U.RestoreAllStep(urls, i, old(compressed));
        compressed := R.ReplaceFirst(R.Literal(C.UrlHolder, urls[i]), compressed);
      }
      assert urls[..|urls|] == urls;
    }

    /** `whitespace`. */
    method Whitespace()
      modifies this
      ensures compressed == C.Whitespace(old(compressed)) && urls == old(urls)
    {
      compressed := C.Whitespace(compressed);
    }

    /** `correct_grammar`. */
    method CorrectGrammar()
      modifies this
      ensures compressed == C.CorrectGrammar(old(compressed)) && urls == old(urls)
    {
      compressed := R.ReplaceAll(R.Alts(["s's"], true, "'"), compressed);
    }

    /** `contractions`: its `gsub!` calls in their order. */
    method Contractions()
      modifies this
      ensures compressed == C.Contractions(old(compressed)) && urls == old(urls)
    {
      Substitute(C.ContractionRules);
    }

    /** `dedupe_punct`. */
    method DedupePunct()
      modifies this
      ensures compressed == C.DedupePunct(old(compressed)) && urls == old(urls)
    {
      compressed := C.DedupePunct(compressed);
    }

    /** `abbr`: the word table, then its `gsub!` calls. */
    method Abbr()
      modifies this
      ensures compressed == C.Abbr(old(compressed)) && urls == old(urls)
    {
      compressed := C.MapWords(C.AbbrWord, compressed);
      Substitute(C.AbbrRules);
    }

    /** `remove_vowels`. */
    method RemoveVowels()
      modifies this
      ensures compressed == C.RemoveVowels(old(compressed)) && urls == old(urls)
    {
      compressed := C.RemoveVowels(compressed);
    }

    /** `dedupe_consonants`. */
    method DedupeConsonants()
      modifies this
      ensures compressed == C.DedupeConsonants(old(compressed)) && urls == old(urls)
    {
      compressed := C.DedupeConsonants(compressed);
    }

    /** `apostrophes`. */
    method Apostrophes()
      modifies this
      ensures compressed == C.Apostrophes(old(compressed)) && urls == old(urls)
    {
      compressed := R.ReplaceAll(R.Alts(["n't"], true, "nt"), compressed);
    }

    /** `sentences`. */
    method Sentences()
      modifies this
      ensures compressed == C.Sentences(old(compressed)) && urls == old(urls)
    {
      compressed := R.ReplaceAll(R.PunctSpace, compressed);
    }

    /** `ing`, which `compress` never runs. */
    method Ing()
      modifies this
      ensures compressed == C.Ing(old(compressed)) && urls == old(urls)
    {
      compressed := C.Ing(compressed);
    }

    /** `texting`, which `compress` never runs: its `gsub!` calls in their order. */
    method Texting()
      modifies this
      ensures compressed == C.Texting(old(compressed)) && urls == old(urls)
    {
      Substitute(C.TextingRules);
    }

    /** `self.send stage`. */
    method RunStage(stage: Stage)
      modifies this
      ensures Current() == Step(stage, old(Current()))
    {
      match stage
      case UrlPreserve => UrlPreserve();
      case Whitespace => Whitespace();
      case CorrectGrammar => CorrectGrammar();
      case Contractions => Contractions();
      case DedupePunct => DedupePunct();
      case Abbr => Abbr();
      case RemoveVowels => RemoveVowels();
      case DedupeConsonants => DedupeConsonants();
      case Apostrophes => Apostrophes();
      case Sentences => Sentences();
    }

    /**
      The `stages.each` loop of `compress`: before each stage, stop once the
      count is within the budget.
     */
    method RunStagesLoop()
      modifies this
      ensures Current() == RunStages(Step, Stages, old(Current()))
    {
      ghost var goal := RunStages(Step, Stages, Current());
      var i := 0;
      while i < |Stages|
        invariant 0 <= i <= |Stages|
        invariant RunStages(Step, Stages[i..], Current()) == goal
      {
        ghost var st := Current();
        if CharCount() <= MaxLength {
          break;
        }
        RunStagesNext(Stages, i, st);
        RunStage(Stages[i]);
        i := i + 1;
      }
    }

    /**
      `compress`: `url_preserve`, then each stage in turn unless the count is
      already within the budget, then `url_restore`; returns the final text.
     */
    method Compress() returns (r: string)
      modifies this
      ensures Current() == CompressText(old(compressed)) && r == compressed
    {
      UrlPreserve();
      RunStagesLoop();
      UrlRestore();
      r := compressed;
    }

    /** `compression_level`: how much shorter, in percent, the count is than the original. */
    function CompressionLevel(): (o: Option<real>)
      reads this
      ensures o.None? <==> |original| == 0
      ensures o.Some? ==> -0.005 <= o.value - (100.0 - (CharCount() as real / |original| as real) * 100.0) <= 0.005
    {
      Level(CharCount(), |original|)
    }
  }

  // ---------------------------------------------------------------------
  // The loop.
  // ---------------------------------------------------------------------

  /**
    The loop applies, in order, the first `Ran` stages and no other; every
    check before them found the count over the budget; and when it stops
    before the last stage, the count is within the budget.
   */
  lemma RunStagesSpec(step: (Stage, State) -> State, stages: seq<Stage>, st: State)
    ensures RunStages(step, stages, st) == ApplyStages(step, stages[..Ran(step, stages, st)], st)
    ensures forall j :: 0 <= j < Ran(step, stages, st) ==> Count(ApplyStages(step, stages[..j], st)) > MaxLength
    ensures Ran(step, stages, st) == |stages| || Count(RunStages(step, stages, st)) <= MaxLength
  {
    RunStagesPrefix(step, stages, st);
    RunStagesChecks(step, stages, st);
    RunStagesExit(step, stages, st);
  }

  /** One turn of the loop over the budget: run stage `i`, go on from the next. */
  lemma RunStagesNext(stages: seq<Stage>, i: nat, st: State)
    requires i < |stages| && Count(st) > MaxLength
    ensures RunStages(Step, stages[i..], st) == RunStages(Step, stages[i + 1..], Step(stages[i], st))
  {
    assert stages[i..][1..] == stages[i + 1..];
  }

  lemma {:induction false} RunStagesPrefix(step: (Stage, State) -> State, stages: seq<Stage>, st: State)
    ensures RunStages(step, stages, st) == ApplyStages(step, stages[..Ran(step, stages, st)], st)
    decreases |stages|
  {
    var n := Ran(step, stages, st);
    if n == 0 {
      assert stages[..0] == [];
    } else {
      RunStagesPrefix(step, stages[1..], step(stages[0], st));
      assert stages[..n] == [stages[0]] + stages[1..][..n - 1];
    }
  }

  lemma {:induction false} RunStagesChecks(step: (Stage, State) -> State, stages: seq<Stage>, st: State)
    ensures forall j :: 0 <= j < Ran(step, stages, st) ==> Count(ApplyStages(step, stages[..j], st)) > MaxLength
    decreases |stages|
  {
    var n := Ran(step, stages, st);
    if n > 0 {
      var st', rest := step(stages[0], st), stages[1..];
      RunStagesChecks(step, rest, st');
      assert Ran(step, rest, st') == n - 1;
      forall j | 0 <= j < n ensures Count(ApplyStages(step, stages[..j], st)) > MaxLength {
        if j == 0 {
          assert stages[..0] == [];
        } else {
          assert stages[..j] == [stages[0]] + rest[..j - 1];
        }
      }
    }
  }

  lemma {:induction false} RunStagesExit(step: (Stage, State) -> State, stages: seq<Stage>, st: State)
    ensures Ran(step, stages, st) == |stages| || Count(RunStages(step, stages, st)) <= MaxLength
    decreases |stages|
  {
    if stages != [] && Count(st) > MaxLength {
      RunStagesExit(step, stages[1..], step(stages[0], st));
    }
  }

  /** `compress` runs `url_preserve` first and `url_restore` last, whatever the loop does. */
  lemma CompressFrame(s: string)
    ensures var st := RunStages(Step, Stages, Preserve(s));
      CompressText(s) == State(U.RestoreAll(st.urls, st.text), st.urls)
    ensures Count(Preserve(s)) <= MaxLength ==> RunStages(Step, Stages, Preserve(s)) == Preserve(s)
  {
  }

  /** A single stage: which of the ten it is decides what it changes. */
  lemma StepKeepsUrls(stage: Stage, st: State)
    ensures stage != UrlPreserve ==> Step(stage, st).urls == st.urls
    ensures stage == UrlPreserve ==> Step(stage, st).urls == U.ScanUrls(st.text)
  {
  }

  /** A text with no URL, already within the budget, comes back from `compress` unchanged. */
  lemma ShortTextUnchanged(s: string)
    requires U.ScanUrls(s) == [] && |s| <= MaxLength
    ensures CompressText(s) == State(s, [])
    ensures Ran(Step, Stages, Preserve(s)) == 0
  {
    assert Preserve(s) == State(s, []);
    assert Count(State(s, [])) == |s|;
  }

  /**
    Within the budget right after `url_preserve`, `compress` gives the text
    back exactly, URLs included (under the conditions of the round trip).
   */
  lemma WithinBudgetRoundTrip(ws: seq<string>)
    requires U.RoundTrips(ws) && Count(Preserve(JoinSpace(ws))) <= MaxLength
    ensures CompressText(JoinSpace(ws)).text == JoinSpace(ws)
  {
    U.RoundTrip(ws);
  }

  /** Stages other than `url_preserve` never bring URLs back. */
  lemma {:induction false} NoUrlsAfter(stages: seq<Stage>, t: string)
    requires forall i :: 0 <= i < |stages| ==> stages[i] != UrlPreserve
    ensures RunStages(Step, stages, State(t, [])).urls == []
    decreases |stages|
  {
    if stages != [] && Count(State(t, [])) > MaxLength {
      assert Step(stages[0], State(t, [])).urls == [];
      NoUrlsAfter(stages[1..], Step(stages[0], State(t, [])).text);
    }
  }

  /**
    Over the budget right after `url_preserve`, the loop's own first stage
    runs `url_preserve` again on the masked text; it finds no URL, so the
    list is empty and `url_restore` puts none of them back: the result is
    what the later stages made of the masked text.
   */
  lemma UrlsLostOverBudget(ws: seq<string>)
    requires U.RoundTrips(ws) && Count(Preserve(JoinSpace(ws))) > MaxLength
    ensures var masked := Preserve(JoinSpace(ws)).text;
      CompressText(JoinSpace(ws)) == RunStages(Step, Stages[1..], State(masked, []))
  {
    var st := Preserve(JoinSpace(ws));
    var masked := st.text;
    U.UrlsLost(ws);
    assert Preserve(masked) == State(masked, []) by {
      assert U.MaskAll([], masked) == masked;
    }
    LaterStages();
    assert RunStages(Step, Stages, st) == RunStages(Step, Stages[1..], State(masked, []));
    NoUrlsAfter(Stages[1..], masked);
    RestoreNothing(RunStages(Step, Stages[1..], State(masked, [])));
  }

  /** The loop's first stage is `url_preserve`, and no later one is. */
  lemma LaterStages()
    ensures Stages[0] == UrlPreserve
    ensures forall i :: 0 <= i < |Stages[1..]| ==> Stages[1..][i] != UrlPreserve
  {
  }

  /** With no URL saved, `url_restore` changes nothing. */
  lemma RestoreNothing(st: State)
    requires st.urls == []
    ensures Restore(st) == st
  {
  }

  /**
    `compression_level` for the state the source's own example ends in:
    a count of 22 against an original of 168 characters gives 86.9.
   */
  lemma LevelExample()
    ensures Level(22, 168) == Some(86.9)
  {
    var x := 100.0 - (22 as real / 168 as real) * 100.0;
    assert RoundHalfUp(x * 100.0) == 8690;
  }
}
