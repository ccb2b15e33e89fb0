/**
  The compression stages of `Compress` (lib/tweet_compressor/compress.rb), each
  as a function from the text before the stage to the text after it. Stages
  that `split` the text and rebuild it with `join(' ')` go through `MapWords`;
  stages made of consecutive `gsub!` calls go through `ApplyAll` over a list of
  `Rule`s. The constants and `char_count` are here too; the URL stages are in
  module `Urls`.
 */
module Compress {
  import opened Wrappers
  import opened Text
  import opened Rewrite

  /** The text that stands in for a URL while the other stages run. */
  const UrlHolder: string := "__PLACEHOLDER4URLS__"

  /** The number of characters a URL counts for once shortened. */
  const UrlLength: nat := 20

  /**
    `char_count`: the length of the text, where each stored URL counts
    `UrlLength` characters instead of its own length.
   */
  function CharCount(text: string, urls: seq<string>): (n: int)
    ensures n == |text| - SumLengths(urls) + UrlLength * |urls|
  {
    ConcatLength(urls);
    |text| - |Concat(urls)| + UrlLength * |urls|
  }

  // ---------------------------------------------------------------------
  // Word stages: `split.map { |word| ... }.join(' ')`.
  // ---------------------------------------------------------------------

  /** A function applied to every element of a list. */
  function Map(f: string -> string, ws: seq<string>): (r: seq<string>)
    ensures |r| == |ws|
    ensures forall i :: 0 <= i < |ws| ==> r[i] == f(ws[i])
  {
    if ws == [] then [] else [f(ws[0])] + Map(f, ws[1..])
  }

  /** The text split at whitespace, each word rewritten by `f`, joined by single spaces. */
  function MapWords(f: string -> string, s: string): string
  {
    JoinSpace(Map(f, Words(s)))
  }

  /** `whitespace`. */
  function Whitespace(s: string): string
  {
    JoinSpace(Words(s))
  }

  /**
    The word table of `abbr`, keyed by the down-cased word. (The source maps
    "sixteen" to "15"; the model keeps that.)
   */
  function AbbrOf(k: string): (v: Option<string>)
    ensures v.Some? ==> IsWord(v.value) && |v.value| < |k|
    ensures v.Some? ==> forall i :: 0 <= i < |k| ==> IsLower(k[i])
  {
    if k == "and" then Some("&")
    else if k == "javascript" then Some("JS")
    else if k == "string" then Some("str")
    else NumberAbbr(k)
  }

  /** The number words of the table, "one" to "ten". */
  function NumberAbbr(k: string): (v: Option<string>)
    ensures v.Some? ==> IsWord(v.value) && |v.value| < |k|
    ensures v.Some? ==> forall i :: 0 <= i < |k| ==> IsLower(k[i])
  {
    if k == "one" then Some("1")
    else if k == "two" then Some("2")
    else if k == "three" then Some("3")
    else if k == "four" then Some("4")
    else if k == "five" then Some("5")
    else if k == "six" then Some("6")
    else if k == "seven" then Some("7")
    else if k == "eight" then Some("8")
    else if k == "nine" then Some("9")
    else if k == "ten" then Some("10")
    else TeenAbbr(k)
  }

  /** The number words of the table, "eleven" to "twenty". */
  function TeenAbbr(k: string): (v: Option<string>)
    ensures v.Some? ==> IsWord(v.value) && |v.value| < |k|
    ensures v.Some? ==> forall i :: 0 <= i < |k| ==> IsLower(k[i])
  {
    if k == "eleven" then Some("11")
    else if k == "twelve" then Some("12")
    else if k == "thirteen" then Some("13")
    else if k == "fourteen" then Some("14")
    else if k == "fifteen" then Some("15")
    else if k == "sixteen" then Some("15")
    else if k == "seventeen" then Some("17")
    else if k == "eighteen" then Some("18")
    else if k == "nineteen" then Some("19")
    else if k == "twenty" then Some("20")
    else None
  }

  /** The `case word.downcase` of `abbr`: a word of the table becomes its abbreviation. */
  function AbbrWord(w: string): string
  {
    match AbbrOf(Downcase(w))
    case Some(v) => v
    case None => w
  }

  /** `/is (?:an?|the)/` replaced by "=". */
  const IsArticle: Rule := Alts(["is an", "is a", "is the"], false, "=")

  /**
    The alternatives of `/(in|with)? regards? (to)?/` in the order the
    backtracking matcher tries them: optional parts present before absent.
   */
  const RegardsAlts: seq<string> :=
    ["in regards to", "in regards ", "in regard to", "in regard ",
     "with regards to", "with regards ", "with regard to", "with regard ",
     " regards to", " regards ", " regard to", " regard "]

  /** `/about|regarding|related( to)?|(in response to)/`, case-insensitive when `fold` is set. */
  function About(fold: bool): Rule
  {
    Alts(["about", "regarding", "related to", "related", "in response to"], fold, "re")
  }

  /** The three `gsub!` calls that end `abbr`. */
  const AbbrRules: seq<Rule> := [IsArticle, Alts(RegardsAlts, true, "re"), About(false)]

  /** `abbr`. */
  function Abbr(s: string): string
  {
    ApplyAll(AbbrRules, MapWords(AbbrWord, s))
  }

  /** `apostrophes`: every "n't", in any case, becomes "nt". */
  function Apostrophes(s: string): string
  {
    ReplaceAll(Alts(["n't"], true, "nt"), s)
  }

  /** The nine `gsub!` calls of `contractions`, in their order. */
  const ContractionRules: seq<Rule> :=
    [Alts(["I would"], true, "I'd"),
     IWill,
     Cap('i', ["t is"], "t's"),
     Cap('i', ["s not"], "sn't"),
     Cap('w', ["ill not"], "on't"),
     Cap('c', ["an not", "annot"], "an't"),
     DoNot,
     Cap('s', ["hould not"], "houldn't"),
     Cap('m', ["ust not"], "usn't")]

  /** `contractions`. */
  function Contractions(s: string): string
  {
    ApplyAll(ContractionRules, s)
  }

  /** `correct_grammar`: every "s's", in any case, becomes "'". */
  function CorrectGrammar(s: string): string
  {
    ReplaceAll(Alts(["s's"], true, "'"), s)
  }

  /**
    The word rewrite of `dedupe_consonants`. The `=~` test records the first
    repeated character as `$1`, and the `gsub!` then replaces every run the
    pattern matches by that one character.
   */
  function DedupeConsonantsWord(w: string): string
  {
    match Search(ConsRun(""), None, w)
    case None => w
    case Some(k) => ReplaceAll(ConsRun([w[k]]), w)
  }

  /** `dedupe_consonants`. */
  function DedupeConsonants(s: string): string
  {
    MapWords(DedupeConsonantsWord, s)
  }

  /** The word rewrite of `dedupe_punct`. */
  function DedupePunctWord(w: string): string
  {
    var a := ReplaceAll(Run('-', 3, "--"), ReplaceAll(Run('.', 4, "..."), w));
    if Contains(a, "...") || Contains(a, "--") then a
    else if !Found(PunctRun, None, a) then a
    else ReplaceAll(PunctRun, a)
  }

  /** `dedupe_punct`. */
  function DedupePunct(s: string): string
  {
    MapWords(DedupePunctWord, s)
  }

  /** `w` ends with `x`. */
  predicate EndsWith(w: string, x: string)
  {
    |x| <= |w| && w[|w| - |x|..] == x
  }

  /** The word rewrite of `ing`: the final "ing" of a longer word becomes "g". */
  function IngWord(w: string): string
  {
    if !EndsWith(w, "ing") then w
    else if w[0] == '#' then w
    else if |w| <= 4 then w
    else if w == "fling" then w
    else w[..|w| - 3] + "g"
  }

  /** `ing`, which is not one of the stages `compress` runs. */
  function Ing(s: string): string
  {
    MapWords(IngWord, s)
  }

  /** The word rewrite of `remove_vowels`. */
  function RemoveVowelsWord(w: string): string
  {
    if w != [] && w[0] == '#' then w
    else if |w| >= 4 then ReplaceAll(InnerVowel, w)
    else w
  }

  /** `remove_vowels`. */
  function RemoveVowels(s: string): string
  {
    MapWords(RemoveVowelsWord, s)
  }

  /** `sentences`: the whitespace between a punctuation character and the next non-space is removed. */
  function Sentences(s: string): string
  {
    ReplaceAll(PunctSpace, s)
  }

  /** The ten `gsub!` calls of `texting`, in their order. */
  const TextingRules: seq<Rule> :=
    [IsArticle,
     Emoticon,
     Alts(RegardsAlts, true, "re"),
     About(true),
     Retweet,
     Bounded("are", true, "r"),
     Bounded("for", true, "4"),
     Bounded("to", false, "2"),
     Literal("why", "y"),
     Literal("you", "u")]

  /** `texting`, which is not one of the stages `compress` runs. */
  function Texting(s: string): string
  {
    ApplyAll(TextingRules, s)
  }

  // ---------------------------------------------------------------------
  // What the stages promise.
  // ---------------------------------------------------------------------

  /** In "abc <url> def" with the URL stored, the URL counts 20 whatever its length. */
  lemma CharCountOneUrl(a: string, u: string, b: string)
    ensures CharCount(a + u + b, [u]) == |a| + UrlLength + |b|
  {
    assert SumLengths([u]) == |u|;
  }

  /** `whitespace` keeps the words and leaves them in normal form. */
  lemma WhitespaceNormal(s: string)
    ensures Normalized(Whitespace(s))
    ensures Words(Whitespace(s)) == Words(s)
    ensures NonSpace(Whitespace(s)) == NonSpace(s)
    ensures |Whitespace(s)| <= |s|
  {
    NormalizedJoin(Words(s));
    WordsOfJoin(Words(s));
    NonSpaceJoin(Words(s));
    ConcatWords(s);
    JoinWordsLength(s);
  }

  /** `whitespace` changes exactly the texts that are not in normal form. */
  lemma WhitespaceFixed(s: string)
    ensures Whitespace(s) == s <==> Normalized(s)
  {
    if Normalized(s) {
      JoinOfNormalized(s);
    } else {
      NormalizedJoin(Words(s));
    }
  }

  /** `whitespace` is idempotent. */
  lemma WhitespaceIdempotent(s: string)
    ensures Whitespace(Whitespace(s)) == Whitespace(s)
  {
    WhitespaceNormal(s);
    WhitespaceFixed(Whitespace(s));
  }

  /** A word function that maps words to words: the shape every word stage needs. */
  ghost predicate KeepsWords(f: string -> string)
  {
    forall w :: IsWord(w) ==> IsWord(f(w))
  }

  /** A word function that never lengthens a word. */
  ghost predicate NoLongerWords(f: string -> string)
  {
    forall w :: IsWord(w) ==> |f(w)| <= |w|
  }

  lemma MapAllWords(f: string -> string, ws: seq<string>)
    requires KeepsWords(f) && AllWords(ws)
    ensures AllWords(Map(f, ws))
  {
  }

  /**
    A `split.map.join(' ')` stage whose word function keeps words leaves the
    text in normal form, with the rewritten words in order.
   */
  lemma MapWordsNormal(f: string -> string, s: string)
    requires KeepsWords(f)
    ensures Normalized(MapWords(f, s))
    ensures Words(MapWords(f, s)) == Map(f, Words(s))
  {
    MapAllWords(f, Words(s));
    NormalizedJoin(Map(f, Words(s)));
    WordsOfJoin(Map(f, Words(s)));
  }

  /** The word stages see the words a text was joined from. */
  lemma MapWordsOfJoin(f: string -> string, ws: seq<string>)
    requires AllWords(ws)
    ensures MapWords(f, JoinSpace(ws)) == JoinSpace(Map(f, ws))
  {
    WordsOfJoin(ws);
  }

  lemma {:induction false} MapSumLengths(f: string -> string, ws: seq<string>)
    requires NoLongerWords(f) && AllWords(ws)
    ensures SumLengths(Map(f, ws)) <= SumLengths(ws)
  {
    if ws != [] {
      assert Map(f, ws)[1..] == Map(f, ws[1..]);
      MapSumLengths(f, ws[1..]);
    }
  }

  /** A word stage whose word function never lengthens a word never lengthens the text. */
  lemma MapWordsLength(f: string -> string, s: string)
    requires NoLongerWords(f)
    ensures |MapWords(f, s)| <= |s|
  {
    var ws := Words(s);
    if ws != [] {
      MapSumLengths(f, ws);
      JoinSpaceLength(ws);
      JoinSpaceLength(Map(f, ws));
    }
    JoinWordsLength(s);
  }

  /** A word of the `abbr` table: its down-cased form is a table key. */
  lemma AbbrWordSpec(w: string)
    ensures AbbrWord(w) != w ==> AbbrOf(Downcase(w)).Some?
    ensures |AbbrWord(w)| <= |w|
    ensures IsWord(w) ==> IsWord(AbbrWord(w))
    ensures w != [] && !IsUpper(w[0]) && !IsLower(w[0]) ==> AbbrWord(w) == w
  {
  }

  /** Words outside the table, such as "#"-prefixed ones, are unchanged, whatever their case. */
  lemma AbbrHash(w: string)
    requires w != [] && w[0] == '#'
    ensures AbbrWord(w) == w
  {
    assert Downcase(w)[0] == '#';
  }

  /** `abbr` looks words up by their down-cased form only. */
  lemma AbbrCaseBlind(w: string, v: string)
    requires Downcase(w) == Downcase(v) && AbbrOf(Downcase(w)).Some?
    ensures AbbrWord(w) == AbbrWord(v)
  {
  }

  /** `remove_vowels` on a word: past its first character, every lower-case vowel is deleted. */
  lemma RemoveVowelsSpec(w: string)
    ensures RemoveVowelsWord(w) ==
      if (w != [] && w[0] == '#') || |w| < 4 then w else [w[0]] + DropVowels(w[1..])
    ensures IsWord(w) ==> IsWord(RemoveVowelsWord(w))
    ensures |RemoveVowelsWord(w)| <= |w|
  {
    if !((w != [] && w[0] == '#') || |w| < 4) {
      InnerVowelAll(w);
    }
  }

  /** `ing` on a word: which words change, and into what. */
  lemma IngSpec(w: string)
    ensures IngWord(w) != w <==>
      EndsWith(w, "ing") && w[0] != '#' && |w| > 4 && w != "fling"
    ensures IngWord(w) != w ==> IngWord(w) == w[..|w| - 3] + "g" && |IngWord(w)| == |w| - 2
    ensures IsWord(w) ==> IsWord(IngWord(w))
    ensures |IngWord(w)| <= |w|
  {
  }

  /** Two equal characters of the class of `dedupe_consonants` begin at `k`. */
  predicate RepeatAt(w: string, k: nat)
  {
    k + 1 < |w| && InConsClass(w[k]) && w[k + 1] == w[k]
  }

  lemma ConsRunMatch(rep: string, p: Option<char>, t: string)
    ensures Match(ConsRun(rep), p, t).Some? <==> RepeatAt(t, 0)
  {
    if t != [] && InConsClass(t[0]) && |t| > 1 && t[1] == t[0] {
      assert RunLen(t[1..], t[0]) >= 1;
    }
  }

  /** The `=~` test of `dedupe_consonants` stops at the first repeated character of its class. */
  lemma ConsRunSearch(w: string)
    ensures Search(ConsRun(""), None, w).Some? ==>
      var k := Search(ConsRun(""), None, w).value;
      RepeatAt(w, k) && forall j :: 0 <= j < k ==> !RepeatAt(w, j)
    ensures Search(ConsRun(""), None, w).None? ==> forall j :: 0 <= j < |w| ==> !RepeatAt(w, j)
  {
    var o := Search(ConsRun(""), None, w);
    if o.Some? {
      SearchMatch(ConsRun(""), None, w);
      var k := o.value;
      ConsRunMatch("", After(None, w[..k]), w[k..]);
      forall j | 0 <= j < k ensures !RepeatAt(w, j) {
        ConsRunMatch("", After(None, w[..j]), w[j..]);
      }
    } else {
      forall j | 0 <= j < |w| ensures !RepeatAt(w, j) {
        ConsRunNotFound(None, w, j);
      }
    }
  }

  lemma {:induction false} ConsRunNotFound(p: Option<char>, w: string, j: nat)
    requires !Found(ConsRun(""), p, w) && j < |w|
    ensures !RepeatAt(w, j)
    decreases j
  {
    if j == 0 {
      ConsRunMatch("", p, w);
    } else {
      ConsRunNotFound(Some(w[0]), w[1..], j - 1);
    }
  }

  /**
    `dedupe_consonants` on a word: when the word repeats a character of the
    class, every run of two or more equal characters of the class becomes a
    single copy of the character of the FIRST such run.
   */
  lemma DedupeConsonantsSpec(w: string)
    ensures (forall j :: 0 <= j < |w| ==> !RepeatAt(w, j)) ==> DedupeConsonantsWord(w) == w
    ensures forall k :: 0 <= k < |w| && RepeatAt(w, k) && (forall j :: 0 <= j < k ==> !RepeatAt(w, j)) ==>
      DedupeConsonantsWord(w) == Collapse(w, [w[k]])
    ensures IsWord(w) ==> IsWord(DedupeConsonantsWord(w))
    ensures |DedupeConsonantsWord(w)| <= |w|
  {
    ConsRunSearch(w);
    match Search(ConsRun(""), None, w)
    case None =>
    case Some(k) =>
      ConsRunScan([w[k]], None, w);
      ScanLength(ConsRun([w[k]]), None, w);
      forall k' | 0 <= k' < |w| && RepeatAt(w, k') && (forall j :: 0 <= j < k' ==> !RepeatAt(w, j))
        ensures k' == k
      {
      }
  }

  /** The two run rewrites that `dedupe_punct` applies to every word first. */
  function RunsOfDots(w: string): string
  {
    Squash(Squash(w, '.', 4, "..."), '-', 3, "--")
  }

  /**
    `dedupe_punct` on a word: runs of four or more dots become "...", runs of
    three or more hyphens "--"; a word that then contains "..." or "--" is
    left so, and in any other word every run of one punctuation character is
    squeezed to one.
   */
  lemma DedupePunctSpec(w: string)
    ensures DedupePunctWord(w) ==
      var a := RunsOfDots(w);
      if Contains(a, "...") || Contains(a, "--") then a else Squeeze(None, a)
    ensures IsWord(w) ==> IsWord(DedupePunctWord(w))
    ensures |DedupePunctWord(w)| <= |w|
  {
    DotsAndHyphens(w);
    SqueezeWord(RunsOfDots(w));
  }

  lemma DotsAndHyphens(w: string)
    ensures ReplaceAll(Run('-', 3, "--"), ReplaceAll(Run('.', 4, "..."), w)) == RunsOfDots(w)
    ensures |RunsOfDots(w)| <= |w|
    ensures IsWord(w) ==> IsWord(RunsOfDots(w))
  {
    RunsOfDotsScan(w);
    RunsOfDotsShorter(w);
    if IsWord(w) {
      SquashWord(w, '.', 4, "...");
      SquashWord(Squash(w, '.', 4, "..."), '-', 3, "--");
    }
  }

  /** The two `gsub` calls on runs of dots and hyphens compute `RunsOfDots`. */
  lemma RunsOfDotsScan(w: string)
    ensures ReplaceAll(Run('-', 3, "--"), ReplaceAll(Run('.', 4, "..."), w)) == RunsOfDots(w)
  {
    RunScan('.', 4, "...", None, w);
    RunScan('-', 3, "--", None, Squash(w, '.', 4, "..."));
  }

  /** `RunsOfDots` never lengthens a word. */
  lemma RunsOfDotsShorter(w: string)
    ensures |RunsOfDots(w)| <= |w|
  {
    var a1 := Squash(w, '.', 4, "...");
    RunScan('.', 4, "...", None, w);
    RunScan('-', 3, "--", None, a1);
    ScanLength(Run('.', 4, "..."), None, w);
    ScanLength(Run('-', 3, "--"), None, a1);
  }

  /** Replacing runs by a word keeps a word a word. */
  lemma SquashWord(s: string, ch: char, min: nat, rep: string)
    requires IsWord(s) && IsWord(rep)
    ensures IsWord(Squash(s, ch, min, rep))
  {
    var r := Squash(s, ch, min, rep);
    forall i | 0 <= i < |r|
      ensures !IsSpace(r[i])
    {
      if r[i] in s {
        var j :| 0 <= j < |s| && s[j] == r[i];
      } else {
        var j :| 0 <= j < |rep| && rep[j] == r[i];
      }
    }
  }

  lemma SqueezeWord(a: string)
    ensures (if !Found(PunctRun, None, a) then a else ReplaceAll(PunctRun, a)) == Squeeze(None, a)
    ensures |Squeeze(None, a)| <= |a|
    ensures IsWord(a) ==> IsWord(Squeeze(None, a))
  {
    PunctRunScan(None, None, a);
    if !Found(PunctRun, None, a) {
      ScanAbsent(PunctRun, None, a);
    }
  }

  /**
    `dedupe_punct` damages the placeholder: "_" is punctuation, so the doubled
    "_" at each end of `UrlHolder` collapses to one, and `url_restore` no
    longer finds the placeholder.
   */
  lemma HolderDamaged()
    ensures DedupePunctWord(UrlHolder) == "_PLACEHOLDER4URLS_"
  {
    HolderShape();
    HolderLetters();
    assert "_PLACEHOLDER4URLS_" == ['_'] + "PLACEHOLDER4URLS" + ['_'];
    DedupePunctPairs('_', "PLACEHOLDER4URLS");
  }

  /** `UrlHolder` is a stretch between two doubled "_". */
  lemma HolderShape()
    ensures UrlHolder == ['_', '_'] + "PLACEHOLDER4URLS" + ['_', '_']
  {
  }

  /** The stretch is letters and digits only; "_" is punctuation. */
  lemma HolderLetters()
    ensures IsPunct('_') && NoStarts(PunctRun, "PLACEHOLDER4URLS")
  {
  }

  /** `dedupe_punct` on a word made of a stretch without punctuation between two doubled marks. */
  lemma DedupePunctPairs(c: char, m: string)
    requires IsPunct(c) && c != '.' && c != '-' && m != [] && NoStarts(PunctRun, m)
    ensures DedupePunctWord([c, c] + m + [c, c]) == [c] + m + [c]
  {
    var w := [c, c] + m + [c, c];
    forall k | 0 <= k < |w| ensures w[k] != '.' && w[k] != '-' {
      if 2 <= k < |w| - 2 {
        assert w[k] == m[k - 2] && !CanStart(PunctRun, m[k - 2]);
      }
    }
    assert NoStarts(Run('.', 4, "..."), w) && NoStarts(Run('-', 3, "--"), w);
    NoStartsScan(Run('.', 4, "..."), None, w);
    NoStartsScan(Run('-', 3, "--"), None, w);
    ContainsChar(w, "...", '.');
    ContainsChar(w, "--", '-');
    assert !IsPunct(m[0]) && w[2] == m[0] && RunLen(w, c) == 2;
    assert Match(PunctRun, None, w).Some?;
    PunctPairs(c, m, None);
  }

  /** A doubled punctuation character at both ends of a stretch without punctuation collapses to one. */
  lemma PunctPairs(c: char, m: string, p: Option<char>)
    requires IsPunct(c) && m != [] && NoStarts(PunctRun, m)
    ensures Scan(PunctRun, p, [c, c] + m + [c, c]) == [c] + m + [c]
  {
    var t := [c, c] + m + [c, c];
    assert !IsPunct(m[0]);
    assert t[0] == c && t[1] == c && t[2] == m[0] && t[2..] == m + [c, c];
    assert RunLen(t, c) == 2;
    var q := Some(m[|m| - 1]);
    calc {
      Scan(PunctRun, p, t);
      { ScanHit(PunctRun, p, t, Hit(2, [c])); }
      [c] + Scan(PunctRun, Some(c), m + [c, c]);
      { ScanSkip(PunctRun, Some(c), m, [c, c]); }
      [c] + (m + Scan(PunctRun, q, [c, c]));
      { PunctPair(c, q); }
      [c] + (m + [c]);
      { Regroup([c], m, [c]); }
      [c] + m + [c];
    }
  }

  /** A doubled punctuation character on its own collapses to one. */
  lemma PunctPair(c: char, q: Option<char>)
    requires IsPunct(c)
    ensures Scan(PunctRun, q, [c, c]) == [c]
  {
    var t := [c, c];
    assert RunLen(t, c) == 2;
    ScanHit(PunctRun, q, t, Hit(2, [c]));
    assert t[2..] == [];
  }

  /** Every word stage of `compress` maps words to words no longer than they were. */
  lemma WordStagesKeepWords()
    ensures KeepsWords(AbbrWord) && NoLongerWords(AbbrWord)
    ensures KeepsWords(RemoveVowelsWord) && NoLongerWords(RemoveVowelsWord)
    ensures KeepsWords(DedupeConsonantsWord) && NoLongerWords(DedupeConsonantsWord)
    ensures KeepsWords(DedupePunctWord) && NoLongerWords(DedupePunctWord)
    ensures KeepsWords(IngWord) && NoLongerWords(IngWord)
  {
    forall w | IsWord(w)
      ensures IsWord(AbbrWord(w)) && |AbbrWord(w)| <= |w|
      ensures IsWord(RemoveVowelsWord(w)) && |RemoveVowelsWord(w)| <= |w|
      ensures IsWord(DedupeConsonantsWord(w)) && |DedupeConsonantsWord(w)| <= |w|
      ensures IsWord(DedupePunctWord(w)) && |DedupePunctWord(w)| <= |w|
      ensures IsWord(IngWord(w)) && |IngWord(w)| <= |w|
    {
      AbbrWordSpec(w);
      RemoveVowelsSpec(w);
      DedupeConsonantsSpec(w);
      DedupePunctSpec(w);
      IngSpec(w);
    }
  }

  /** The split/map/join stages leave the text in the normal form of `whitespace`. */
  lemma WordStagesNormal(s: string)
    ensures Normalized(RemoveVowels(s)) && Normalized(DedupeConsonants(s))
    ensures Normalized(DedupePunct(s)) && Normalized(Ing(s)) && Normalized(MapWords(AbbrWord, s))
  {
    WordStagesKeepWords();
    MapWordsNormal(RemoveVowelsWord, s);
    MapWordsNormal(DedupeConsonantsWord, s);
    MapWordsNormal(DedupePunctWord, s);
    MapWordsNormal(IngWord, s);
    MapWordsNormal(AbbrWord, s);
  }

  /** `sentences` deletes whitespace and nothing else. */
  lemma {:induction false} SentencesKeepsText(p: Option<char>, t: string)
    ensures NonSpace(Scan(PunctSpace, p, t)) == NonSpace(t)
    decreases |t|
  {
    if t != [] {
      match Match(PunctSpace, p, t)
      case Some(h) =>
        SentencesKeepsText(Some(t[h.len - 1]), t[h.len..]);
        SentencesHitStep(p, t, h);
      case None =>
        SentencesKeepsText(Some(t[0]), t[1..]);
        SentencesMissStep(p, t);
    }
  }

  /**
    `sentences` on a punctuation mark, whitespace and a non-space character,
    after a stretch without punctuation: the whitespace goes, and the
    substitution goes on after the character.
   */
  lemma SentencesBetween(p: Option<char>, a: string, m: char, sp: string, c: char, b: string)
    requires NoStarts(PunctSpace, a) && IsPunct(m) && !IsSpace(c)
    requires forall i :: 0 <= i < |sp| ==> IsSpace(sp[i])
    ensures Scan(PunctSpace, p, a + ([m] + sp + [c] + b)) == a + ([m, c] + Scan(PunctSpace, Some(c), b))
  {
    SentencesMark(After(p, a), m, sp, c, b);
    ScanSkip(PunctSpace, p, a, [m] + sp + [c] + b);
  }

  /** The `sentences` match at a punctuation mark: the mark and the next non-space character. */
  lemma SentencesMark(q: Option<char>, m: char, sp: string, c: char, b: string)
    requires IsPunct(m) && !IsSpace(c)
    requires forall i :: 0 <= i < |sp| ==> IsSpace(sp[i])
    ensures Scan(PunctSpace, q, [m] + sp + [c] + b) == [m, c] + Scan(PunctSpace, Some(c), b)
  {
    var t := [m] + sp + [c] + b;
    assert t[1..] == sp + [c] + b;
    SpaceRunStop(sp, c, b);
    assert SpaceRun(sp) == |sp|;
    assert t[|sp| + 1] == c && t[|sp| + 2..] == b;
    ScanHit(PunctSpace, q, t, Hit(|sp| + 2, [m, c]));
  }

  /** A match of the `sentences` pattern, then the rest: the non-space characters carry over. */
  lemma SentencesHitStep(p: Option<char>, t: string, h: Hit)
    requires Match(PunctSpace, p, t) == Some(h)
    requires NonSpace(Scan(PunctSpace, Some(t[h.len - 1]), t[h.len..])) == NonSpace(t[h.len..])
    ensures NonSpace(Scan(PunctSpace, p, t)) == NonSpace(t)
  {
    PunctSpaceHit(p, t, h);
    KeepsHitStep(PunctSpace, p, t, h);
  }

  /** A match whose replacement keeps the non-space characters it spans, then a rest that keeps them too. */
  lemma KeepsHitStep(r: Rule, p: Option<char>, t: string, h: Hit)
    requires Match(r, p, t) == Some(h) && NonSpace(h.rep) == NonSpace(t[..h.len])
    requires NonSpace(Scan(r, Some(t[h.len - 1]), t[h.len..])) == NonSpace(t[h.len..])
    ensures NonSpace(Scan(r, p, t)) == NonSpace(t)
  {
    var n := h.len;
    var rest := Scan(r, Some(t[n - 1]), t[n..]);
    calc {
      NonSpace(Scan(r, p, t));
      { ScanHit(r, p, t, h); }
      NonSpace(h.rep + rest);
      { NonSpaceAppend(h.rep, rest); }
      NonSpace(h.rep) + NonSpace(rest);
      NonSpace(t[..n]) + NonSpace(t[n..]);
      { NonSpaceSplit(t, n); }
      NonSpace(t);
    }
  }

  /** A character the `sentences` pattern does not match at, then the rest. */
  lemma SentencesMissStep(p: Option<char>, t: string)
    requires t != [] && Match(PunctSpace, p, t).None?
    requires NonSpace(Scan(PunctSpace, Some(t[0]), t[1..])) == NonSpace(t[1..])
    ensures NonSpace(Scan(PunctSpace, p, t)) == NonSpace(t)
  {
    KeepsMissStep(PunctSpace, p, t);
  }

  /** A character where `r` does not match, then a rest that keeps the non-space characters. */
  lemma KeepsMissStep(r: Rule, p: Option<char>, t: string)
    requires t != [] && Match(r, p, t).None?
    requires NonSpace(Scan(r, Some(t[0]), t[1..])) == NonSpace(t[1..])
    ensures NonSpace(Scan(r, p, t)) == NonSpace(t)
  {
    var rest := Scan(r, Some(t[0]), t[1..]);
    calc {
      NonSpace(Scan(r, p, t));
      { ScanMiss(r, p, t); }
      NonSpace([t[0]] + rest);
      { NonSpaceAppend([t[0]], rest); }
      NonSpace([t[0]]) + NonSpace(rest);
      { assert t[..1] == [t[0]]; }
      NonSpace(t[..1]) + NonSpace(t[1..]);
      { NonSpaceSplit(t, 1); }
      NonSpace(t);
    }
  }

  /** A match of the `sentences` pattern keeps exactly the non-space characters it spans. */
  lemma PunctSpaceHit(p: Option<char>, t: string, h: Hit)
    requires Match(PunctSpace, p, t) == Some(h)
    ensures NonSpace(h.rep) == h.rep && NonSpace(t[..h.len]) == h.rep
  {
    var k := h.len - 1;
    assert 0 < k < |t| && IsPunct(t[0]) && !IsSpace(t[k]) && h.rep == [t[0], t[k]];
    assert forall i :: 0 < i < k ==> IsSpace(t[i]) by {
      forall i | 0 < i < k ensures IsSpace(t[i]) { assert t[i] == t[1..][i - 1]; }
    }
    NonSpaceStretch(t, k);
    NonSpaceOfWord(h.rep);
  }

  /** A punctuation character, whitespace, then the non-space at `k`: only the two ends are kept. */
  lemma NonSpaceStretch(t: string, k: nat)
    requires 0 < k < |t| && IsPunct(t[0]) && !IsSpace(t[k])
    requires forall i :: 0 < i < k ==> IsSpace(t[i])
    ensures NonSpace(t[..k + 1]) == [t[0], t[k]]
  {
    assert t[..k + 1] == [t[0]] + t[1..k] + [t[k]];
    NonSpaceAppend([t[0]] + t[1..k], [t[k]]);
    NonSpaceAppend([t[0]], t[1..k]);
    NonSpaceAllSpace(t[1..k]);
  }

  lemma {:induction false} NonSpaceAllSpace(s: string)
    requires forall i :: 0 <= i < |s| ==> IsSpace(s[i])
    ensures NonSpace(s) == []
  {
    if s != [] {
      NonSpaceAllSpace(s[1..]);
    }
  }

  /** Every rule of the substitution stages never lengthens the text it rewrites. */
  lemma RulesNoLonger()
    ensures forall i :: 0 <= i < |AbbrRules| ==> NoLonger(AbbrRules[i])
    ensures forall i :: 0 <= i < |ContractionRules| ==> Shrinks(ContractionRules[i])
    ensures forall i :: 0 <= i < |TextingRules| ==> NoLonger(TextingRules[i])
    ensures Shrinks(Alts(["n't"], true, "nt")) && Shrinks(Alts(["s's"], true, "'")) && NoLonger(PunctSpace)
  {
  }

  /** No stage that `compress` runs after the first `url_preserve` ever lengthens the text. */
  lemma StagesNoLonger(s: string)
    ensures |Whitespace(s)| <= |s| && |CorrectGrammar(s)| <= |s| && |Contractions(s)| <= |s|
    ensures |DedupePunct(s)| <= |s| && |Abbr(s)| <= |s| && |RemoveVowels(s)| <= |s|
    ensures |DedupeConsonants(s)| <= |s| && |Apostrophes(s)| <= |s| && |Sentences(s)| <= |s|
  {
    WhitespaceNormal(s);
    RuleStagesNoLonger(s);
    WordStagesNoLonger(s);
  }

  /** `texting` never lengthens the text. */
  lemma TextingNoLonger(s: string)
    ensures |Texting(s)| <= |s|
  {
    RulesNoLonger();
    ApplyAllLength(TextingRules, s);
  }

  /** The stages that substitute over the whole text. */
  lemma RuleStagesNoLonger(s: string)
    ensures |CorrectGrammar(s)| <= |s| && |Contractions(s)| <= |s|
    ensures |Apostrophes(s)| <= |s| && |Sentences(s)| <= |s|
  {
    SingleRulesNoLonger(s);
    ContractionsNoLonger(s);
  }

  lemma SingleRulesNoLonger(s: string)
    ensures |CorrectGrammar(s)| <= |s| && |Apostrophes(s)| <= |s| && |Sentences(s)| <= |s|
  {
    assert Shrinks(Alts(["n't"], true, "nt")) && Shrinks(Alts(["s's"], true, "'")) && NoLonger(PunctSpace);
    ScanLength(Alts(["s's"], true, "'"), None, s);
    ScanLength(Alts(["n't"], true, "nt"), None, s);
    ScanLength(PunctSpace, None, s);
  }

  lemma ContractionsNoLonger(s: string)
    ensures |Contractions(s)| <= |s|
  {
    RulesNoLonger();
    ApplyAllLength(ContractionRules, s);
  }

  /** The stages that rewrite word by word. */
  lemma WordStagesNoLonger(s: string)
    ensures |DedupePunct(s)| <= |s| && |Abbr(s)| <= |s| && |RemoveVowels(s)| <= |s|
    ensures |DedupeConsonants(s)| <= |s|
  {
    RulesNoLonger();
    WordStagesKeepWords();
    MapWordsLength(DedupePunctWord, s);
    MapWordsLength(AbbrWord, s);
    ApplyAllLength(AbbrRules, MapWords(AbbrWord, s));
    MapWordsLength(RemoveVowelsWord, s);
    MapWordsLength(DedupeConsonantsWord, s);
  }

  /** `apostrophes` and `correct_grammar` change a text exactly when their pattern occurs in it. */
  lemma ChangesIffFound(s: string)
    ensures Apostrophes(s) != s <==> Found(Alts(["n't"], true, "nt"), None, s)
    ensures CorrectGrammar(s) != s <==> Found(Alts(["s's"], true, "'"), None, s)
  {
    RulesNoLonger();
    ScanShrinks(Alts(["n't"], true, "nt"), None, s);
    ScanShrinks(Alts(["s's"], true, "'"), None, s);
  }
}
