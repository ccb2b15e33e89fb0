/**
  The regular-expression substitutions of the compressor, modelled pattern by
  pattern. Every pattern the source passes to `gsub!`, `gsub` or `sub!` is one
  `Rule`; `Match` decides whether the rule matches at the front of the rest of
  the text (given the character before it, for `\b` and `\A`), and `Scan`
  performs Ruby's global substitution: leftmost match first, matches never
  overlap, and after a failed attempt the search moves one character on.
 */
module Rewrite {
  import opened Wrappers
  import opened Text

  /** A match at the front of the remaining text: how many characters it spans and what replaces them. */
  datatype Hit = Hit(len: nat, rep: string)

  datatype Rule =
      /** A choice of literal alternatives tried in order, case-insensitively when `fold` is set. */
    | Alts(alts: seq<string>, fold: bool, rep: string)
      /** `/i will(?!= ?not)/i` replaced by "I'll". */
    | IWill
      /** `/(x)tail/i` where the first letter is captured: the replacement keeps its case. */
    | Cap(first: char, tails: seq<string>, rep: string)
      /** `/(d)o(es)? not/i` replaced by `\1o\2n't`. */
    | DoNot
      /** `/:.\)|\(.:/` replaced by ":)". */
    | Emoticon
      /** `/(RT @[^:\b]+):?/` replaced by `\1`. */
    | Retweet
      /** `/\bword\b/` (or `/\bword/` when `tail` is false). */
    | Bounded(word: string, tail: bool, rep: string)
      /** `/([[:punct:]])\s*(\S)/` replaced by `\1\2`. */
    | PunctSpace
      /** `/c{min,}/`: a run of at least `min` copies of `ch`. */
    | Run(ch: char, min: nat, rep: string)
      /** `/([[:punct:]])\1+/` replaced by `\1`. */
    | PunctRun
      /** The character class of `dedupe_consonants` followed by `\1+`, with a fixed replacement. */
    | ConsRun(rep: string)
      /** `/(?<!\A)[aeiou]/` replaced by nothing. */
    | InnerVowel

  predicate IsVowel(c: char)
  {
    c == 'a' || c == 'e' || c == 'i' || c == 'o' || c == 'u'
  }

  /**
    The class `dedupe_consonants` builds by interpolating an Array into a
    regular expression: the text `["b", "c", ...]` between brackets, that is
    the lower-case consonants, the double quote, the comma and the space.
   */
  predicate InConsClass(c: char)
  {
    (IsLower(c) && !IsVowel(c)) || c == '"' || c == ',' || c == ' '
  }

  /** A non-empty alternative that `t` begins with. */
  predicate Accepts(t: string, a: string, fold: bool)
  {
    a != [] && Starts(t, a, fold)
  }

  /** The index of the first alternative, in priority order, that matches at the front of `t`. */
  function FirstAlt(t: string, alts: seq<string>, fold: bool): (o: Option<nat>)
    ensures o.Some? ==> o.value < |alts| && Accepts(t, alts[o.value], fold)
    ensures o.Some? ==> forall j :: 0 <= j < o.value ==> !Accepts(t, alts[j], fold)
    ensures o.None? ==> forall j :: 0 <= j < |alts| ==> !Accepts(t, alts[j], fold)
  {
    if alts == [] then None
    else if Accepts(t, alts[0], fold) then Some(0)
    else match FirstAlt(t, alts[1..], fold)
      case Some(k) => Some(k + 1)
      case None => None
  }

  /** Length of the leading run of copies of `ch`. */
  function RunLen(t: string, ch: char): (n: nat)
    ensures n <= |t|
    ensures forall k :: 0 <= k < n ==> t[k] == ch
    ensures n < |t| ==> t[n] != ch
  {
    if t == [] || t[0] != ch then 0 else 1 + RunLen(t[1..], ch)
  }

  /** Length of the leading run of whitespace (`\s*`). */
  function SpaceRun(t: string): (n: nat)
    ensures n <= |t|
    ensures forall k :: 0 <= k < n ==> IsSpace(t[k])
    ensures n < |t| ==> !IsSpace(t[n])
  {
    if t == [] || !IsSpace(t[0]) then 0 else 1 + SpaceRun(t[1..])
  }

  /** Length of the leading run of the class `[^:\b]` (inside a class `\b` is the backspace character). */
  function HandleRun(t: string): (n: nat)
    ensures n <= |t|
    ensures forall k :: 0 <= k < n ==> t[k] != ':' && t[k] != '\U{8}'
    ensures n < |t| ==> t[n] == ':' || t[n] == '\U{8}'
  {
    if t == [] || t[0] == ':' || t[0] == '\U{8}' then 0 else 1 + HandleRun(t[1..])
  }

  /** The character at `i`, or nothing past the end. */
  function At(t: string, i: nat): Option<char>
  {
    if i < |t| then Some(t[i]) else None
  }

  /** Whether a position is a word character; the ends of the text are not. */
  predicate WordAt(c: Option<char>)
  {
    c.Some? && IsWordChar(c.value)
  }

  /** `\b` between two positions. */
  predicate Boundary(before: Option<char>, after: Option<char>)
  {
    WordAt(before) != WordAt(after)
  }

  /** The negative lookahead `(?!= ?not)` under `/i` fails on these texts. */
  predicate FollowedByNot(t: string)
  {
    Starts(t, "= not", true) || Starts(t, "=not", true)
  }

  /**
    The match of `r` at the front of `t`, if any; `prev` is the character
    before `t` in the whole text, or None at its start.
   */
  function Match(r: Rule, prev: Option<char>, t: string): (m: Option<Hit>)
    ensures m.Some? ==> 0 < m.value.len <= |t|
  {
    match r
    case Alts(alts, fold, rep) =>
      (match FirstAlt(t, alts, fold)
       case Some(k) => Some(Hit(|alts[k]|, rep))
       case None => None)
    case IWill =>
      if Starts(t, "i will", true) && !FollowedByNot(t[6..]) then Some(Hit(6, "I'll")) else None
    case Cap(first, tails, rep) =>
      if t != [] && Same(t[0], first, true) then
        (match FirstAlt(t[1..], tails, true)
         case Some(k) => Some(Hit(1 + |tails[k]|, [t[0]] + rep))
         case None => None)
      else None
    case DoNot =>
      if t != [] && Same(t[0], 'd', true) then
        if Starts(t[1..], "oes not", true) then Some(Hit(8, [t[0]] + "o" + t[2..4] + "n't"))
        else if Starts(t[1..], "o not", true) then Some(Hit(6, [t[0]] + "on't"))
        else None
      else None
    case Emoticon =>
      if |t| >= 3 && t[1] != '\n' && ((t[0] == ':' && t[2] == ')') || (t[0] == '(' && t[2] == ':'))
      then Some(Hit(3, ":)"))
      else None
    case Retweet =>
      if Starts(t, "RT @", false) then
        var n := HandleRun(t[4..]);
        if n == 0 then None
        else Some(Hit(4 + n + (if 4 + n < |t| && t[4 + n] == ':' then 1 else 0), t[..4 + n]))
      else None
    case Bounded(word, tail, rep) =>
      if word != [] && Starts(t, word, false) && Boundary(prev, Some(t[0]))
         && (!tail || Boundary(Some(t[|word| - 1]), At(t, |word|)))
      then Some(Hit(|word|, rep))
      else None
    case PunctSpace =>
      if t != [] && IsPunct(t[0]) then
        var k := 1 + SpaceRun(t[1..]);
        if k < |t| then Some(Hit(k + 1, [t[0], t[k]])) else None
      else None
    case Run(ch, min, rep) =>
      var n := RunLen(t, ch);
      if n >= min && n > 0 then Some(Hit(n, rep)) else None
    case PunctRun =>
      if t != [] && IsPunct(t[0]) && RunLen(t, t[0]) >= 2 then Some(Hit(RunLen(t, t[0]), [t[0]])) else None
    case ConsRun(rep) =>
      if t != [] && InConsClass(t[0]) && RunLen(t, t[0]) >= 2 then Some(Hit(RunLen(t, t[0]), rep)) else None
    case InnerVowel =>
      if t != [] && prev.Some? && IsVowel(t[0]) then Some(Hit(1, "")) else None
  }

  /** Global substitution over the rest `t` of a text (`gsub`). */
  function Scan(r: Rule, prev: Option<char>, t: string): string
    decreases |t|
  {
    if t == [] then []
    else match Match(r, prev, t)
      case Some(h) => h.rep + Scan(r, Some(t[h.len - 1]), t[h.len..])
      case None => [t[0]] + Scan(r, Some(t[0]), t[1..])
  }

  /** One step of `Scan` where the rule matches. */
  lemma ScanHit(r: Rule, p: Option<char>, t: string, h: Hit)
    requires Match(r, p, t) == Some(h)
    ensures Scan(r, p, t) == h.rep + Scan(r, Some(t[h.len - 1]), t[h.len..])
  {
  }

  /** A match that ends inside `u` leaves the rest of `u`, then `y`, to `Scan`. */
  lemma ScanHitRest(r: Rule, p: Option<char>, u: string, y: string, h: Hit)
    requires Match(r, p, u + y) == Some(h) && h.len <= |u|
    ensures Scan(r, p, u + y) == h.rep + Scan(r, Some(u[h.len - 1]), u[h.len..] + y)
  {
    var n := h.len;
    assert (u + y)[n - 1] == u[n - 1] && (u + y)[n..] == u[n..] + y;
    ScanHit(r, p, u + y, h);
  }

  /**
    The same match on `u` and on `u + y`: what `Scan` makes of the rest then
    decides what it makes of the whole.
   */
  lemma ScanHitPrefix(r: Rule, p: Option<char>, u: string, y: string, h: Hit, tail: string)
    requires Match(r, p, u) == Some(h) && Match(r, p, u + y) == Some(h) && h.len <= |u|
    requires Scan(r, Some(u[h.len - 1]), u[h.len..] + y) == Scan(r, Some(u[h.len - 1]), u[h.len..]) + tail
    ensures Scan(r, p, u + y) == Scan(r, p, u) + tail
  {
    var q, v := Some(u[h.len - 1]), u[h.len..];
    calc {
      Scan(r, p, u + y);
      { ScanHitRest(r, p, u, y, h); }
      h.rep + Scan(r, q, v + y);
      h.rep + (Scan(r, q, v) + tail);
      { Regroup(h.rep, Scan(r, q, v), tail); }
      (h.rep + Scan(r, q, v)) + tail;
      { ScanHit(r, p, u, h); }
      Scan(r, p, u) + tail;
    }
  }

  /** One step of `Scan` where the rule does not match. */
  lemma ScanMiss(r: Rule, p: Option<char>, t: string)
    requires t != [] && Match(r, p, t).None?
    ensures Scan(r, p, t) == [t[0]] + Scan(r, Some(t[0]), t[1..])
  {
  }

  /** A miss at the front of `u` leaves the rest of `u`, then `y`, to `Scan`. */
  lemma ScanMissRest(r: Rule, p: Option<char>, u: string, y: string)
    requires u != [] && Match(r, p, u + y).None?
    ensures Scan(r, p, u + y) == [u[0]] + Scan(r, Some(u[0]), u[1..] + y)
  {
    assert (u + y)[0] == u[0] && (u + y)[1..] == u[1..] + y;
    ScanMiss(r, p, u + y);
  }

  /** Substitution of the first match only, over the rest `t` of a text (`sub`). */
  function ScanFirst(r: Rule, prev: Option<char>, t: string): string
    decreases |t|
  {
    if t == [] then []
    else match Match(r, prev, t)
      case Some(h) => h.rep + t[h.len..]
      case None => [t[0]] + ScanFirst(r, Some(t[0]), t[1..])
  }

  /** A miss at the front of `u` leaves the rest of `u`, then `y`, to `ScanFirst`. */
  lemma ScanFirstMissRest(r: Rule, p: Option<char>, u: string, y: string)
    requires u != [] && Match(r, p, u + y).None?
    ensures ScanFirst(r, p, u + y) == [u[0]] + ScanFirst(r, Some(u[0]), u[1..] + y)
  {
    assert (u + y)[0] == u[0] && (u + y)[1..] == u[1..] + y;
  }

  /** Whether `r` matches anywhere in the rest `t` of a text (`=~`). */
  predicate Found(r: Rule, prev: Option<char>, t: string)
    decreases |t|
  {
    t != [] && (Match(r, prev, t).Some? || Found(r, Some(t[0]), t[1..]))
  }

  /** The offset of the leftmost match of `r` in the rest `t` of a text (where `=~` stops), or None. */
  function Search(r: Rule, prev: Option<char>, t: string): (o: Option<nat>)
    ensures o.Some? <==> Found(r, prev, t)
    ensures o.Some? ==> o.value < |t|
    decreases |t|
  {
    if t == [] then None
    else if Match(r, prev, t).Some? then Some(0)
    else match Search(r, Some(t[0]), t[1..])
      case Some(k) => Some(k + 1)
      case None => None
  }

  /** `String#gsub` of a whole text. */
  function ReplaceAll(r: Rule, s: string): string
  {
    Scan(r, None, s)
  }

  /** `String#sub` of a whole text. */
  function ReplaceFirst(r: Rule, s: string): string
  {
    ScanFirst(r, None, s)
  }

  /** A literal pattern, as `gsub!(/#{url}/, ...)` and `sub!(String, ...)` use it. */
  function Literal(lit: string, rep: string): Rule
  {
    Alts([lit], false, rep)
  }

  /** Several substitutions applied one after the other, as consecutive `gsub!` calls. */
  function ApplyAll(rules: seq<Rule>, s: string): string
  {
    if rules == [] then s else ApplyAll(rules[1..], ReplaceAll(rules[0], s))
  }

  /** One more substitution after the others. */
  lemma {:induction false} ApplyAllSnoc(rules: seq<Rule>, r: Rule, s: string)
    ensures ApplyAll(rules + [r], s) == ReplaceAll(r, ApplyAll(rules, s))
    decreases |rules|
  {
    if rules == [] {
      assert [] + [r] == [r];
    } else {
      assert (rules + [r])[1..] == rules[1..] + [r];
      ApplyAllSnoc(rules[1..], r, ReplaceAll(rules[0], s));
    }
  }

  // ---------------------------------------------------------------------
  // Where a rule cannot match: characters that cannot begin a match, and
  // barrier characters that no match can contain.
  // ---------------------------------------------------------------------

  /** `c` may be the first character of a match of `r`. */
  predicate CanStart(r: Rule, c: char)
  {
    match r
    case Alts(alts, fold, _) => exists j :: 0 <= j < |alts| && alts[j] != [] && Same(alts[j][0], c, fold)
    case IWill => Same(c, 'i', true)
    case Cap(first, _, _) => Same(c, first, true)
    case DoNot => Same(c, 'd', true)
    case Emoticon => c == ':' || c == '('
    case Retweet => c == 'R'
    case Bounded(word, _, _) => word != [] && c == word[0]
    case PunctSpace => IsPunct(c)
    case Run(ch, _, _) => c == ch
    case PunctRun => IsPunct(c)
    case ConsRun(_) => InConsClass(c)
    case InnerVowel => IsVowel(c)
  }

  /** No character of `t` can begin a match of `r`. */
  predicate NoStarts(r: Rule, t: string)
  {
    forall k :: 0 <= k < |t| ==> !CanStart(r, t[k])
  }

  /** Every alternative avoids `c`. */
  predicate AllAvoid(alts: seq<string>, c: char, fold: bool)
  {
    forall j :: 0 <= j < |alts| ==> Avoids(alts[j], c, fold)
  }

  /**
    `c` can be neither part of a match of `r` nor looked at by one: whatever
    follows `c` cannot change a match that begins before it.
   */
  predicate IsBarrier(r: Rule, c: char)
  {
    match r
    case Alts(alts, fold, _) => AllAvoid(alts, c, fold)
    case IWill => Avoids("i will", c, true) && Avoids("= not", c, true)
    case Cap(first, tails, _) => !Same(first, c, true) && AllAvoid(tails, c, true)
    case DoNot => Avoids("does not", c, true)
    case Emoticon => c == '\n'
    case Retweet => c == '\U{8}'
    case Bounded(word, _, _) => !IsWordChar(c) && Avoids(word, c, false)
    case PunctSpace => false
    case Run(ch, _, _) => c != ch
    case PunctRun => !IsPunct(c)
    case ConsRun(_) => !InConsClass(c)
    case InnerVowel => !IsVowel(c)
  }

  /** The character before `c` does not influence a match of `r` that begins right after it. */
  predicate PrevBlind(r: Rule, c: char)
  {
    !r.InnerVowel? && (r.Bounded? ==> !IsWordChar(c))
  }

  /** The character before the rest `b` of a text, once `a` has been passed. */
  function After(p: Option<char>, a: string): Option<char>
  {
    if a == [] then p else Some(a[|a| - 1])
  }

  lemma {:induction false} FirstAltStop(x: string, c: char, y: string, alts: seq<string>, fold: bool)
    requires AllAvoid(alts, c, fold)
    ensures FirstAlt(x + [c] + y, alts, fold) == FirstAlt(x, alts, fold)
  {
    if alts != [] {
      StartsStop(x, c, y, alts[0], fold);
      assert AllAvoid(alts[1..], c, fold) by {
        forall j | 0 <= j < |alts[1..]| ensures Avoids(alts[1..][j], c, fold) { assert alts[1..][j] == alts[j + 1]; }
      }
      FirstAltStop(x, c, y, alts[1..], fold);
    }
  }

  lemma {:induction false} RunLenStop(x: string, c: char, y: string, ch: char)
    requires c != ch
    ensures RunLen(x + [c] + y, ch) == RunLen(x, ch)
  {
    if x != [] {
      assert (x + [c] + y)[1..] == x[1..] + [c] + y;
      RunLenStop(x[1..], c, y, ch);
    }
  }

  lemma {:induction false} HandleRunStop(x: string, y: string)
    ensures HandleRun(x + ['\U{8}'] + y) == HandleRun(x)
  {
    if x != [] {
      assert (x + ['\U{8}'] + y)[1..] == x[1..] + ['\U{8}'] + y;
      HandleRunStop(x[1..], y);
    }
  }

  lemma {:induction false} SpaceRunStop(x: string, c: char, y: string)
    requires !IsSpace(c)
    ensures SpaceRun(x + [c] + y) == SpaceRun(x)
  {
    if x != [] {
      assert (x + [c] + y)[1..] == x[1..] + [c] + y;
      SpaceRunStop(x[1..], c, y);
    }
  }

  lemma BarrierMatchAlts(alts: seq<string>, fold: bool, rep: string, p: Option<char>, x: string, c: char, y: string)
    requires AllAvoid(alts, c, fold)
    ensures Match(Alts(alts, fold, rep), p, x + [c] + y) == Match(Alts(alts, fold, rep), p, x)
  {
    FirstAltStop(x, c, y, alts, fold);
  }

  lemma BarrierMatchIWill(p: Option<char>, x: string, c: char, y: string)
    requires IsBarrier(IWill, c)
    ensures Match(IWill, p, x + [c] + y) == Match(IWill, p, x)
  {
    var t := x + [c] + y;
    StartsStop(x, c, y, "i will", true);
    if Starts(x, "i will", true) {
      assert t[6..] == x[6..] + [c] + y;
      StartsStop(x[6..], c, y, "= not", true);
      assert Avoids("=not", c, true) by {
        assert "=not"[0] == "= not"[0] && "=not"[1..] == "= not"[2..];
      }
      StartsStop(x[6..], c, y, "=not", true);
    }
  }

  lemma BarrierMatchCap(first: char, tails: seq<string>, rep: string, p: Option<char>, x: string, c: char, y: string)
    requires IsBarrier(Cap(first, tails, rep), c)
    ensures Match(Cap(first, tails, rep), p, x + [c] + y) == Match(Cap(first, tails, rep), p, x)
  {
    var t := x + [c] + y;
    if x == [] {
      assert t[0] == c;
    } else {
      assert t[0] == x[0] && t[1..] == x[1..] + [c] + y;
      FirstAltStop(x[1..], c, y, tails, true);
    }
  }

  lemma BarrierMatchDoNot(p: Option<char>, x: string, c: char, y: string)
    requires IsBarrier(DoNot, c)
    ensures Match(DoNot, p, x + [c] + y) == Match(DoNot, p, x)
  {
    var t := x + [c] + y;
    assert !Same('d', c, true) && Avoids("oes not", c, true) && Avoids("o not", c, true) by {
      assert "does not"[0] == 'd' && "does not"[1..] == "oes not";
      assert "o not"[0] == "oes not"[0] && "o not"[1..] == "oes not"[3..];
    }
    if x == [] {
      assert t[0] == c;
    } else {
      assert t[0] == x[0] && t[1..] == x[1..] + [c] + y;
      StartsStop(x[1..], c, y, "oes not", true);
      StartsStop(x[1..], c, y, "o not", true);
      if Starts(x[1..], "oes not", true) {
        assert t[2..4] == x[2..4];
      }
    }
  }

  lemma BarrierMatchEmoticon(p: Option<char>, x: string, y: string)
    ensures Match(Emoticon, p, x + ['\n'] + y) == Match(Emoticon, p, x)
  {
    var t := x + ['\n'] + y;
    if |x| >= 3 {
      assert t[0] == x[0] && t[1] == x[1] && t[2] == x[2];
    } else if |x| == 2 {
      assert t[2] == '\n';
    } else if |x| == 1 {
      assert t[1] == '\n';
    }
  }

  lemma BarrierMatchRetweet(p: Option<char>, x: string, y: string)
    ensures Match(Retweet, p, x + ['\U{8}'] + y) == Match(Retweet, p, x)
  {
    var t := x + ['\U{8}'] + y;
    StartsStop(x, '\U{8}', y, "RT @", false);
    if Starts(x, "RT @", false) {
      assert t[4..] == x[4..] + ['\U{8}'] + y;
      HandleRunStop(x[4..], y);
      var n := HandleRun(x[4..]);
      assert t[..4 + n] == x[..4 + n];
      if 4 + n < |x| {
        assert t[4 + n] == x[4 + n];
      } else {
        assert t[4 + n] == '\U{8}';
      }
    }
  }

  lemma BarrierMatchBounded(word: string, tail: bool, rep: string, p: Option<char>, x: string, c: char, y: string)
    requires IsBarrier(Bounded(word, tail, rep), c)
    ensures Match(Bounded(word, tail, rep), p, x + [c] + y) == Match(Bounded(word, tail, rep), p, x)
  {
    var t := x + [c] + y;
    StartsStop(x, c, y, word, false);
    if word != [] && Starts(x, word, false) {
      assert t[0] == x[0] && t[|word| - 1] == x[|word| - 1];
      if |word| < |x| {
        assert At(t, |word|) == At(x, |word|);
      } else {
        assert At(t, |word|) == Some(c);
      }
    }
  }

  lemma BarrierMatchRun(ch: char, min: nat, rep: string, p: Option<char>, x: string, c: char, y: string)
    requires c != ch
    ensures Match(Run(ch, min, rep), p, x + [c] + y) == Match(Run(ch, min, rep), p, x)
  {
    RunLenStop(x, c, y, ch);
  }

  lemma BarrierMatchPunctRun(p: Option<char>, x: string, c: char, y: string)
    requires !IsPunct(c)
    ensures Match(PunctRun, p, x + [c] + y) == Match(PunctRun, p, x)
  {
    var t := x + [c] + y;
    if x == [] {
      assert t[0] == c;
    } else {
      assert t[0] == x[0];
      if IsPunct(x[0]) { RunLenStop(x, c, y, x[0]); }
    }
  }

  lemma BarrierMatchConsRun(rep: string, p: Option<char>, x: string, c: char, y: string)
    requires !InConsClass(c)
    ensures Match(ConsRun(rep), p, x + [c] + y) == Match(ConsRun(rep), p, x)
  {
    var t := x + [c] + y;
    if x == [] {
      assert t[0] == c;
    } else {
      assert t[0] == x[0];
      if InConsClass(x[0]) { RunLenStop(x, c, y, x[0]); }
    }
  }

  lemma BarrierMatchInnerVowel(p: Option<char>, x: string, c: char, y: string)
    requires !IsVowel(c)
    ensures Match(InnerVowel, p, x + [c] + y) == Match(InnerVowel, p, x)
  {
    var t := x + [c] + y;
    if x == [] {
      assert t[0] == c;
    } else {
      assert t[0] == x[0];
    }
  }

  /** Nothing after a barrier character changes a match that begins before it. */
  lemma BarrierMatch(r: Rule, p: Option<char>, x: string, c: char, y: string)
    requires IsBarrier(r, c)
    ensures Match(r, p, x + [c] + y) == Match(r, p, x)
  {
    match r
    case Alts(alts, fold, rep) => BarrierMatchAlts(alts, fold, rep, p, x, c, y);
    case IWill => BarrierMatchIWill(p, x, c, y);
    case Cap(first, tails, rep) => BarrierMatchCap(first, tails, rep, p, x, c, y);
    case DoNot => BarrierMatchDoNot(p, x, c, y);
    case Emoticon => BarrierMatchEmoticon(p, x, y);
    case Retweet => BarrierMatchRetweet(p, x, y);
    case Bounded(word, tail, rep) => BarrierMatchBounded(word, tail, rep, p, x, c, y);
    case Run(ch, min, rep) => BarrierMatchRun(ch, min, rep, p, x, c, y);
    case PunctRun => BarrierMatchPunctRun(p, x, c, y);
    case ConsRun(rep) => BarrierMatchConsRun(rep, p, x, c, y);
    case InnerVowel => BarrierMatchInnerVowel(p, x, c, y);
  }

  /** `([[:punct:]])\s*(\S)` never looks past a character that is neither whitespace nor punctuation. */
  lemma CloserMatchPunctSpace(p: Option<char>, x: string, c: char, y: string)
    requires !IsSpace(c) && !IsPunct(c)
    ensures Match(PunctSpace, p, x + [c] + y) == Match(PunctSpace, p, x + [c])
  {
    var t, u := x + [c] + y, x + [c];
    if x == [] {
      assert t[0] == c && u[0] == c;
    } else {
      assert t[0] == x[0] && u[0] == x[0];
      assert t[1..] == x[1..] + [c] + y && u[1..] == x[1..] + [c] + [];
      SpaceRunStop(x[1..], c, y);
      SpaceRunStop(x[1..], c, []);
      var k := 1 + SpaceRun(x[1..]);
      assert k < |u| && t[k] == u[k];
    }
  }

  /** The previous character matters only to `\b` and `\A`. */
  lemma PrevBlindMatch(r: Rule, c: char, t: string)
    requires PrevBlind(r, c)
    ensures Match(r, Some(c), t) == Match(r, None, t)
  {
  }

  lemma PrevBlindScan(r: Rule, c: char, t: string)
    requires PrevBlind(r, c)
    ensures Scan(r, Some(c), t) == Scan(r, None, t)
  {
    PrevBlindMatch(r, c, t);
  }

  lemma PrevBlindScanFirst(r: Rule, c: char, t: string)
    requires PrevBlind(r, c)
    ensures ScanFirst(r, Some(c), t) == ScanFirst(r, None, t)
  {
    PrevBlindMatch(r, c, t);
  }

  /** A character that cannot begin a match is copied. */
  lemma NoStartMatch(r: Rule, p: Option<char>, t: string)
    requires t != [] && !CanStart(r, t[0])
    ensures Match(r, p, t) == None
  {
    if r.Alts? {
      forall j | 0 <= j < |r.alts| ensures !Accepts(t, r.alts[j], r.fold) {
        if r.alts[j] != [] { assert !Same(r.alts[j][0], t[0], r.fold); }
      }
    }
  }

  // ---------------------------------------------------------------------
  // Substitution over concatenations.
  // ---------------------------------------------------------------------

  /** Global substitution over a text cut at a barrier character treats the two sides separately. */
  lemma {:induction false} ScanBarrier(r: Rule, p: Option<char>, x: string, c: char, y: string)
    requires IsBarrier(r, c)
    ensures Scan(r, p, x + [c] + y) == Scan(r, p, x) + [c] + Scan(r, Some(c), y)
    decreases |x|, 1
  {
    var t := x + [c] + y;
    BarrierMatch(r, p, x, c, y);
    if x == [] {
      assert t[0] == c && t[1..] == y;
      assert Scan(r, p, t) == [c] + Scan(r, Some(c), y);
    } else if Match(r, p, x).Some? {
      ScanBarrierHit(r, p, x, c, y);
    } else {
      ScanBarrierMiss(r, p, x, c, y);
    }
  }

  lemma {:induction false} ScanBarrierHit(r: Rule, p: Option<char>, x: string, c: char, y: string)
    requires IsBarrier(r, c) && x != [] && Match(r, p, x).Some?
    requires Match(r, p, x + [c] + y) == Match(r, p, x)
    ensures Scan(r, p, x + [c] + y) == Scan(r, p, x) + [c] + Scan(r, Some(c), y)
    decreases |x|, 0
  {
    var h := Match(r, p, x).value;
    var n, q, z := h.len, Some(x[h.len - 1]), [c] + y;
    assert x + [c] + y == x + z;
    calc {
      Scan(r, p, x + z);
      { ScanHitRest(r, p, x, z, h); }
      h.rep + Scan(r, q, x[n..] + z);
      { assert x[n..] + z == x[n..] + [c] + y; ScanBarrier(r, q, x[n..], c, y); }
      h.rep + (Scan(r, q, x[n..]) + [c] + Scan(r, Some(c), y));
      { Regroup(h.rep, Scan(r, q, x[n..]) + [c], Scan(r, Some(c), y)); Regroup(h.rep, Scan(r, q, x[n..]), [c]); }
      h.rep + Scan(r, q, x[n..]) + [c] + Scan(r, Some(c), y);
      { ScanHit(r, p, x, h); }
      Scan(r, p, x) + [c] + Scan(r, Some(c), y);
    }
  }

  lemma {:induction false} ScanBarrierMiss(r: Rule, p: Option<char>, x: string, c: char, y: string)
    requires IsBarrier(r, c) && x != [] && Match(r, p, x).None?
    requires Match(r, p, x + [c] + y) == Match(r, p, x)
    ensures Scan(r, p, x + [c] + y) == Scan(r, p, x) + [c] + Scan(r, Some(c), y)
    decreases |x|, 0
  {
    var z := [c] + y;
    assert x + [c] + y == x + z;
    calc {
      Scan(r, p, x + z);
      { ScanMissRest(r, p, x, z); }
      [x[0]] + Scan(r, Some(x[0]), x[1..] + z);
      { assert x[1..] + z == x[1..] + [c] + y; ScanBarrier(r, Some(x[0]), x[1..], c, y); }
      [x[0]] + (Scan(r, Some(x[0]), x[1..]) + [c] + Scan(r, Some(c), y));
      { Regroup([x[0]], Scan(r, Some(x[0]), x[1..]) + [c], Scan(r, Some(c), y)); Regroup([x[0]], Scan(r, Some(x[0]), x[1..]), [c]); }
      [x[0]] + Scan(r, Some(x[0]), x[1..]) + [c] + Scan(r, Some(c), y);
      { ScanMiss(r, p, x); }
      Scan(r, p, x) + [c] + Scan(r, Some(c), y);
    }
  }

  /** `sentences` over a text cut right after a character that is neither whitespace nor punctuation. */
  lemma {:induction false} ScanCloser(p: Option<char>, x: string, c: char, y: string)
    requires !IsSpace(c) && !IsPunct(c)
    ensures Scan(PunctSpace, p, x + [c] + y) == Scan(PunctSpace, p, x + [c]) + Scan(PunctSpace, Some(c), y)
    decreases |x|, 1
  {
    CloserMatchPunctSpace(p, x, c, y);
    if Match(PunctSpace, p, x + [c]).Some? {
      ScanCloserHit(p, x, c, y);
    } else {
      ScanCloserMiss(p, x, c, y);
    }
  }

  lemma {:induction false} ScanCloserHit(p: Option<char>, x: string, c: char, y: string)
    requires !IsSpace(c) && !IsPunct(c) && Match(PunctSpace, p, x + [c]).Some?
    requires Match(PunctSpace, p, x + [c] + y) == Match(PunctSpace, p, x + [c])
    ensures Scan(PunctSpace, p, x + [c] + y) == Scan(PunctSpace, p, x + [c]) + Scan(PunctSpace, Some(c), y)
    decreases |x|, 0
  {
    var u := x + [c];
    var h := Match(PunctSpace, p, u).value;
    if h.len == |u| {
      ScanCloserHitEnd(p, x, c, y, h);
    } else {
      var n := h.len;
      var x', p' := x[n..], Some(u[n - 1]);
      ScanCloser(p', x', c, y);
      ScanCloserHitInner(p, x, c, y, h);
    }
  }

  lemma ScanCloserHitEnd(p: Option<char>, x: string, c: char, y: string, h: Hit)
    requires Match(PunctSpace, p, x + [c]) == Some(h) && h.len == |x| + 1
    requires Match(PunctSpace, p, x + [c] + y) == Some(h)
    ensures Scan(PunctSpace, p, x + [c] + y) == Scan(PunctSpace, p, x + [c]) + Scan(PunctSpace, Some(c), y)
  {
    var u := x + [c];
    assert u[|u| - 1] == c;
    ScanHitWhole(PunctSpace, p, u, y, h);
  }

  /** A match that spans all of `u`, on `u` and on `u + y`: `Scan` goes on with `y`. */
  lemma ScanHitWhole(r: Rule, p: Option<char>, u: string, y: string, h: Hit)
    requires Match(r, p, u) == Some(h) && h.len == |u|
    requires Match(r, p, u + y) == Some(h)
    ensures Scan(r, p, u + y) == Scan(r, p, u) + Scan(r, Some(u[|u| - 1]), y)
  {
    var q := Some(u[|u| - 1]);
    calc {
      Scan(r, p, u + y);
      { ScanHitRest(r, p, u, y, h); }
      h.rep + Scan(r, q, u[h.len..] + y);
      { assert u[h.len..] + y == y; }
      h.rep + Scan(r, q, y);
      { ScanHitAll(r, p, u, h); }
      Scan(r, p, u) + Scan(r, q, y);
    }
  }

  /** A match that spans all of `u` leaves just its replacement. */
  lemma ScanHitAll(r: Rule, p: Option<char>, u: string, h: Hit)
    requires Match(r, p, u) == Some(h) && h.len == |u|
    ensures Scan(r, p, u) == h.rep
  {
    var q := Some(u[h.len - 1]);
    calc {
      Scan(r, p, u);
      { ScanHit(r, p, u, h); }
      h.rep + Scan(r, q, u[h.len..]);
      { assert u[h.len..] == []; }
      h.rep + Scan(r, q, []);
      h.rep;
    }
  }

  lemma ScanCloserHitInner(p: Option<char>, x: string, c: char, y: string, h: Hit)
    requires Match(PunctSpace, p, x + [c]) == Some(h) && h.len <= |x|
    requires Match(PunctSpace, p, x + [c] + y) == Some(h)
    requires Scan(PunctSpace, Some(x[h.len - 1]), x[h.len..] + [c] + y)
          == Scan(PunctSpace, Some(x[h.len - 1]), x[h.len..] + [c]) + Scan(PunctSpace, Some(c), y)
    ensures Scan(PunctSpace, p, x + [c] + y) == Scan(PunctSpace, p, x + [c]) + Scan(PunctSpace, Some(c), y)
  {
    var u, n := x + [c], h.len;
    assert u[n - 1] == x[n - 1] && u[n..] == x[n..] + [c];
    ScanHitPrefix(PunctSpace, p, u, y, h, Scan(PunctSpace, Some(c), y));
  }

  lemma {:induction false} ScanCloserMiss(p: Option<char>, x: string, c: char, y: string)
    requires !IsSpace(c) && !IsPunct(c) && Match(PunctSpace, p, x + [c]).None?
    requires Match(PunctSpace, p, x + [c] + y) == Match(PunctSpace, p, x + [c])
    ensures Scan(PunctSpace, p, x + [c] + y) == Scan(PunctSpace, p, x + [c]) + Scan(PunctSpace, Some(c), y)
    decreases |x|, 0
  {
    var r, u := PunctSpace, x + [c];
    var q, z := Some(u[0]), Scan(PunctSpace, Some(c), y);
    if x == [] {
      assert u[1..] == [] && u[1..] + y == y && q == Some(c);
      assert Scan(r, q, u[1..]) == [];
    } else {
      assert u[1..] == x[1..] + [c] && u[1..] + y == x[1..] + [c] + y && q == Some(x[0]);
      ScanCloser(q, x[1..], c, y);
    }
    MissCompose(r, p, u, y, z);
  }

  /** When `Scan` misses at the front of `u` and of `u + y`, a split of the rest carries over. */
  lemma MissCompose(r: Rule, p: Option<char>, u: string, y: string, z: string)
    requires u != [] && Match(r, p, u + y).None? && Match(r, p, u).None?
    requires Scan(r, Some(u[0]), u[1..] + y) == Scan(r, Some(u[0]), u[1..]) + z
    ensures Scan(r, p, u + y) == Scan(r, p, u) + z
  {
    ScanMissRest(r, p, u, y);
    ScanMiss(r, p, u);
  }

  lemma NoStartsTail(r: Rule, p: Option<char>, a: string)
    requires NoStarts(r, a) && a != []
    ensures NoStarts(r, a[1..]) && After(Some(a[0]), a[1..]) == After(p, a)
  {
    var a' := a[1..];
    forall k | 0 <= k < |a'| ensures !CanStart(r, a'[k]) { assert a'[k] == a[k + 1]; }
    if a' != [] { assert a'[|a'| - 1] == a[|a| - 1]; }
  }

  /** A stretch of text in which no match can begin is copied unchanged. */
  lemma {:induction false} ScanSkip(r: Rule, p: Option<char>, a: string, b: string)
    requires NoStarts(r, a)
    ensures Scan(r, p, a + b) == a + Scan(r, After(p, a), b)
    decreases |a|
  {
    if a == [] {
      assert a + b == b;
    } else {
      var c, a' := a[0], a[1..];
      NoStartsTail(r, p, a);
      calc {
        Scan(r, p, a + b);
        { NoStartMatch(r, p, a + b); ScanMissRest(r, p, a, b); }
        [c] + Scan(r, Some(c), a' + b);
        { ScanSkip(r, Some(c), a', b); }
        [c] + (a' + Scan(r, After(p, a), b));
        { Regroup([c], a', Scan(r, After(p, a), b)); assert [c] + a' == a; }
        a + Scan(r, After(p, a), b);
      }
    }
  }

  /**
    The first alternative of a rule, between two stretches where no match
    can begin, is replaced, and nothing else is: whatever precedes it, since
    an alternative carries no word boundary.
   */
  lemma FirstAltBetween(alts: seq<string>, fold: bool, rep: string, p: Option<char>, a: string, b: string)
    requires alts != [] && alts[0] != []
    requires NoStarts(Alts(alts, fold, rep), a) && NoStarts(Alts(alts, fold, rep), b)
    ensures Scan(Alts(alts, fold, rep), p, a + alts[0] + b) == a + rep + b
  {
    var r, lit := Alts(alts, fold, rep), alts[0];
    var t := lit + b;
    StartsSelf(lit, fold);
    StartsExtend(lit, b, lit, fold);
    assert t[|lit| - 1] == lit[|lit| - 1] && t[|lit|..] == b;
    calc {
      Scan(r, p, a + alts[0] + b);
      { Regroup(a, alts[0], b); ScanSkip(r, p, a, t); }
      a + Scan(r, After(p, a), t);
      { ScanHit(r, After(p, a), t, Hit(|lit|, rep)); }
      a + (rep + Scan(r, Some(lit[|lit| - 1]), b));
      { NoStartsScan(r, Some(lit[|lit| - 1]), b); Regroup(a, rep, b); }
      a + rep + b;
    }
  }

  /**
    A `(x)tail` rule over its first letter, in either case, and its first
    tail, between two stretches where no match can begin: the letter is kept
    as it was written and the tail replaced.
   */
  lemma CapBetween(first: char, tails: seq<string>, rep: string, p: Option<char>, a: string, c: char, b: string)
    requires tails != [] && tails[0] != [] && Same(c, first, true)
    requires NoStarts(Cap(first, tails, rep), a) && NoStarts(Cap(first, tails, rep), b)
    ensures Scan(Cap(first, tails, rep), p, a + ([c] + tails[0]) + b) == a + ([c] + rep) + b
  {
    var r, lit := Cap(first, tails, rep), [c] + tails[0];
    var t := lit + b;
    StartsSelf(tails[0], true);
    StartsExtend(tails[0], b, tails[0], true);
    assert t[0] == c && t[1..] == tails[0] + b;
    assert FirstAlt(t[1..], tails, true) == Some(0);
    assert t[|lit| - 1] == lit[|lit| - 1] && t[|lit|..] == b;
    calc {
      Scan(r, p, a + lit + b);
      { Regroup(a, lit, b); ScanSkip(r, p, a, t); }
      a + Scan(r, After(p, a), t);
      { ScanHit(r, After(p, a), t, Hit(|lit|, [c] + rep)); }
      a + (([c] + rep) + Scan(r, Some(lit[|lit| - 1]), b));
      { NoStartsScan(r, Some(lit[|lit| - 1]), b); Regroup(a, [c] + rep, b); }
      a + ([c] + rep) + b;
    }
  }

  /**
    `(d)o(es)? not` over "does not", its first letter in either case, between
    two stretches where no match can begin: the letter is kept, and "es" is
    carried into "doesn't".
   */
  lemma DoesNotBetween(p: Option<char>, a: string, c: char, b: string)
    requires Same(c, 'd', true) && NoStarts(DoNot, a) && NoStarts(DoNot, b)
    ensures Scan(DoNot, p, a + ([c] + "oes not") + b) == a + ([c] + "oesn't") + b
  {
    var lit := [c] + "oes not";
    var t := lit + b;
    StartsSelf("oes not", true);
    StartsExtend("oes not", b, "oes not", true);
    assert t[0] == c && t[1..] == "oes not" + b && t[2..4] == "es";
    assert [t[0]] + "o" + t[2..4] + "n't" == [c] + "oesn't";
    assert t[7] == 't' && t[8..] == b;
    calc {
      Scan(DoNot, p, a + lit + b);
      { Regroup(a, lit, b); ScanSkip(DoNot, p, a, t); }
      a + Scan(DoNot, After(p, a), t);
      { ScanHit(DoNot, After(p, a), t, Hit(8, [c] + "oesn't")); }
      a + (([c] + "oesn't") + Scan(DoNot, Some('t'), b));
      { NoStartsScan(DoNot, Some('t'), b); Regroup(a, [c] + "oesn't", b); }
      a + ([c] + "oesn't") + b;
    }
  }

  /**
    Any alternative of a rule, once the ones before it fail on what follows,
    after a stretch where no match can begin: the stretch is kept, the
    alternative replaced, and the substitution goes on after it.
   */
  lemma AltBetween(alts: seq<string>, fold: bool, rep: string, p: Option<char>, a: string, k: nat, b: string)
    requires k < |alts| && alts[k] != []
    requires forall j :: 0 <= j < k ==> !Accepts(alts[k] + b, alts[j], fold)
    requires NoStarts(Alts(alts, fold, rep), a)
    ensures Scan(Alts(alts, fold, rep), p, a + alts[k] + b)
         == a + rep + Scan(Alts(alts, fold, rep), Some(alts[k][|alts[k]| - 1]), b)
  {
    var r, lit := Alts(alts, fold, rep), alts[k];
    var t := lit + b;
    var z := Scan(r, Some(lit[|lit| - 1]), b);
    StartsSelf(lit, fold);
    StartsExtend(lit, b, lit, fold);
    assert Accepts(t, alts[k], fold);
    assert FirstAlt(t, alts, fold) == Some(k);
    assert t[|lit| - 1] == lit[|lit| - 1] && t[|lit|..] == b;
    calc {
      Scan(r, p, a + lit + b);
      { Regroup(a, lit, b); ScanSkip(r, p, a, t); }
      a + Scan(r, After(p, a), t);
      { ScanHit(r, After(p, a), t, Hit(|lit|, rep)); }
      a + (rep + z);
      { Regroup(a, rep, z); }
      a + rep + z;
    }
  }

  /** The handle of a retweet runs up to the first colon. */
  lemma HandleRunColon(h: string, y: string)
    requires forall i :: 0 <= i < |h| ==> h[i] != ':' && h[i] != '\U{8}'
    ensures HandleRun(h + [':'] + y) == |h|
  {
    var u := h + [':'] + y;
    assert forall i :: 0 <= i < |h| ==> u[i] == h[i];
    assert u[|h|] == ':';
  }

  /**
    `(RT @[^:\b]+):?` on "RT @" and a handle without a colon, then a colon,
    between two stretches where no match can begin: the colon goes.
   */
  lemma RetweetBetween(p: Option<char>, a: string, h: string, b: string)
    requires h != [] && forall i :: 0 <= i < |h| ==> h[i] != ':' && h[i] != '\U{8}'
    requires NoStarts(Retweet, a) && NoStarts(Retweet, b)
    ensures Scan(Retweet, p, a + ("RT @" + h + ":") + b) == a + ("RT @" + h) + b
  {
    var lit := "RT @" + h + ":";
    var t := lit + b;
    StartsSelf("RT @", false);
    StartsExtend("RT @", h + ":" + b, "RT @", false);
    assert t == "RT @" + (h + ":" + b) && t[4..] == h + [':'] + b;
    HandleRunColon(h, b);
    assert t[4 + |h|] == ':' && t[..4 + |h|] == "RT @" + h;
    assert t[4 + |h|] == t[|lit| - 1] && t[|lit|..] == b;
    calc {
      Scan(Retweet, p, a + lit + b);
      { Regroup(a, lit, b); ScanSkip(Retweet, p, a, t); }
      a + Scan(Retweet, After(p, a), t);
      { ScanHit(Retweet, After(p, a), t, Hit(|lit|, "RT @" + h)); }
      a + (("RT @" + h) + Scan(Retweet, Some(':'), b));
      { NoStartsScan(Retweet, Some(':'), b); Regroup(a, "RT @" + h, b); }
      a + ("RT @" + h) + b;
    }
  }

  /** A text in which no match can begin is left as it is. */
  lemma NoStartsScan(r: Rule, p: Option<char>, t: string)
    requires NoStarts(r, t)
    ensures Scan(r, p, t) == t
  {
    ScanSkip(r, p, t, []);
    assert t + [] == t;
  }

  /** `sub` past a stretch where the pattern does not match, up to a barrier character. */
  lemma {:induction false} ScanFirstBarrier(r: Rule, p: Option<char>, x: string, c: char, y: string)
    requires IsBarrier(r, c) && !Found(r, p, x)
    ensures ScanFirst(r, p, x + [c] + y) == x + [c] + ScanFirst(r, Some(c), y)
    decreases |x|, 1
  {
    if x == [] {
      BarrierMatch(r, p, [], c, y);
      assert [] + [c] + y == [c] + y;
      ScanFirstMissRest(r, p, [c], y);
    } else {
      ScanFirstBarrierMiss(r, p, x, c, y);
    }
  }

  lemma {:induction false} ScanFirstBarrierMiss(r: Rule, p: Option<char>, x: string, c: char, y: string)
    requires IsBarrier(r, c) && x != [] && Match(r, p, x).None? && !Found(r, Some(x[0]), x[1..])
    ensures ScanFirst(r, p, x + [c] + y) == x + [c] + ScanFirst(r, Some(c), y)
    decreases |x|, 0
  {
    var x', z := x[1..], ScanFirst(r, Some(c), y);
    BarrierMatch(r, p, x, c, y);
    calc {
      ScanFirst(r, p, x + [c] + y);
      { assert x + [c] + y == x + ([c] + y); ScanFirstMissRest(r, p, x, [c] + y); }
      [x[0]] + ScanFirst(r, Some(x[0]), x' + ([c] + y));
      { assert x' + ([c] + y) == x' + [c] + y; ScanFirstBarrier(r, Some(x[0]), x', c, y); }
      [x[0]] + (x' + [c] + z);
      { Regroup([x[0]], x' + [c], z); Regroup([x[0]], x', [c]); }
      [x[0]] + x' + [c] + z;
      { assert [x[0]] + x' == x; }
      x + [c] + z;
    }
  }

  /** Where the pattern does not match, `sub` changes nothing. */
  lemma {:induction false} ScanFirstAbsent(r: Rule, p: Option<char>, x: string)
    requires !Found(r, p, x)
    ensures ScanFirst(r, p, x) == x
    decreases |x|
  {
    if x != [] {
      ScanFirstAbsent(r, Some(x[0]), x[1..]);
    }
  }

  /** Where the pattern does not match, `gsub` changes nothing. */
  lemma {:induction false} ScanAbsent(r: Rule, p: Option<char>, x: string)
    requires !Found(r, p, x)
    ensures Scan(r, p, x) == x
    decreases |x|
  {
    if x != [] {
      ScanAbsent(r, Some(x[0]), x[1..]);
    }
  }

  /** A literal rule matches exactly where the text contains the literal. */
  lemma {:induction false} LiteralFound(lit: string, rep: string, p: Option<char>, x: string)
    requires lit != []
    ensures Found(Literal(lit, rep), p, x) <==> Contains(x, lit)
    decreases |x|
  {
    if x != [] {
      LiteralFound(lit, rep, Some(x[0]), x[1..]);
    }
  }

  /** A word made of one literal is replaced whole. */
  lemma LiteralWhole(lit: string, rep: string, p: Option<char>)
    requires lit != []
    ensures Scan(Literal(lit, rep), p, lit) == rep
    ensures ScanFirst(Literal(lit, rep), p, lit) == rep
  {
    StartsExact(lit, lit);
    assert lit[|lit|..] == [];
  }

  /** `sub` of a literal at the front of a text replaces that occurrence. */
  lemma LiteralFront(lit: string, rep: string, p: Option<char>, t: string)
    requires lit != [] && lit <= t
    ensures ScanFirst(Literal(lit, rep), p, t) == rep + t[|lit|..]
  {
    StartsExact(t, lit);
    assert Match(Literal(lit, rep), p, t) == Some(Hit(|lit|, rep));
  }

  // ---------------------------------------------------------------------
  // Reference definitions: what particular rules do to a text, stated
  // without the matching engine.
  // ---------------------------------------------------------------------

  /** The text with its lower-case vowels deleted. */
  function DropVowels(s: string): (r: string)
    ensures |r| <= |s|
    ensures forall i :: 0 <= i < |r| ==> r[i] in s
    ensures forall i :: 0 <= i < |r| ==> !IsVowel(r[i])
  {
    if s == [] then [] else (if IsVowel(s[0]) then [] else [s[0]]) + DropVowels(s[1..])
  }

  /** Past the first character, `(?<!\A)[aeiou]` deletes every lower-case vowel. */
  lemma {:induction false} InnerVowelScan(c: char, t: string)
    ensures Scan(InnerVowel, Some(c), t) == DropVowels(t)
    decreases |t|
  {
    if t != [] {
      InnerVowelScan(t[0], t[1..]);
    }
  }

  /** `gsub(/(?<!\A)[aeiou]/, '')` keeps the first character and deletes the lower-case vowels after it. */
  lemma InnerVowelAll(w: string)
    requires w != []
    ensures ReplaceAll(InnerVowel, w) == [w[0]] + DropVowels(w[1..])
  {
    InnerVowelScan(w[0], w[1..]);
  }

  /**
    The text with every punctuation character that repeats the character
    before it deleted (`q` is the character before the text): each run of
    one punctuation character is squeezed to a single copy.
   */
  function Squeeze(q: Option<char>, s: string): (r: string)
    ensures |r| <= |s|
    ensures forall i :: 0 <= i < |r| ==> r[i] in s
    ensures q.None? && s != [] ==> r != [] && r[0] == s[0]
    ensures r != [] && IsPunct(r[0]) ==> q != Some(r[0])
    ensures forall i :: 0 < i < |r| ==> !(IsPunct(r[i]) && r[i] == r[i - 1])
    decreases |s|
  {
    if s == [] then []
    else (if IsPunct(s[0]) && q == Some(s[0]) then [] else [s[0]]) + Squeeze(Some(s[0]), s[1..])
  }

  /** A run of copies of a punctuation character right after that character vanishes under `Squeeze`. */
  lemma {:induction false} SqueezeSkip(c: char, s: string, k: nat)
    requires IsPunct(c) && k <= |s|
    requires forall i :: 0 <= i < k ==> s[i] == c
    ensures Squeeze(Some(c), s) == Squeeze(Some(c), s[k..])
    decreases k
  {
    if k > 0 {
      assert s[1..][k - 1..] == s[k..];
      SqueezeSkip(c, s[1..], k - 1);
    }
  }

  /** One step of `PunctRunScan`: what the first attempt of the pattern does. */
  lemma PunctRunStep(p: Option<char>, q: Option<char>, t: string)
    requires t != []
    requires q.None? || q.value != t[0] || !IsPunct(t[0])
    ensures Squeeze(q, t) == [t[0]] + Squeeze(Some(t[0]), t[1..])
    ensures IsPunct(t[0]) && RunLen(t, t[0]) >= 2 ==>
      Scan(PunctRun, p, t) == [t[0]] + Scan(PunctRun, Some(t[RunLen(t, t[0]) - 1]), t[RunLen(t, t[0])..])
    ensures !(IsPunct(t[0]) && RunLen(t, t[0]) >= 2) ==>
      Scan(PunctRun, p, t) == [t[0]] + Scan(PunctRun, Some(t[0]), t[1..]) &&
      (t[1..] == [] || t[1] != t[0] || !IsPunct(t[1]))
  {
  }

  /** `gsub(/([[:punct:]])\1+/, '\1')` is `Squeeze`. */
  lemma {:induction false} PunctRunScan(p: Option<char>, q: Option<char>, t: string)
    requires q.None? || t == [] || q.value != t[0] || !IsPunct(t[0])
    ensures Scan(PunctRun, p, t) == Squeeze(q, t)
    decreases |t|
  {
    if t != [] {
      var c, n := t[0], RunLen(t, t[0]);
      PunctRunStep(p, q, t);
      if IsPunct(c) && n >= 2 {
        calc {
          Scan(PunctRun, p, t);
          [c] + Scan(PunctRun, Some(t[n - 1]), t[n..]);
          { PunctRunScan(Some(t[n - 1]), Some(c), t[n..]); }
          [c] + Squeeze(Some(c), t[n..]);
          { SqueezeSkip(c, t[1..], n - 1); assert t[1..][n - 1..] == t[n..]; }
          [c] + Squeeze(Some(c), t[1..]);
          Squeeze(q, t);
        }
      } else {
        calc {
          Scan(PunctRun, p, t);
          [c] + Scan(PunctRun, Some(c), t[1..]);
          { PunctRunScan(Some(c), Some(c), t[1..]); }
          [c] + Squeeze(Some(c), t[1..]);
          Squeeze(q, t);
        }
      }
    }
  }

  /** Each maximal run of two or more equal characters of the class of `dedupe_consonants` replaced by `rep`. */
  function Collapse(s: string, rep: string): (r: string)
    ensures forall i :: 0 <= i < |r| ==> r[i] in s || r[i] in rep
    ensures s != [] && rep != [] ==> r != []
    decreases |s|
  {
    if s == [] then []
    else
      var n := RunLen(s, s[0]);
      (if InConsClass(s[0]) && n >= 2 then rep else s[..n]) + Collapse(s[n..], rep)
  }

  /** A run of equal characters that cannot begin a match is copied unchanged. */
  lemma RunNoStarts(r: Rule, s: string, n: nat)
    requires n <= |s| && s != [] && !CanStart(r, s[0])
    requires forall k :: 0 <= k < n ==> s[k] == s[0]
    ensures NoStarts(r, s[..n])
  {
  }

  /** Global substitution of a run pattern with a fixed replacement is `Collapse`, run by run. */
  lemma {:induction false} ConsRunScan(rep: string, p: Option<char>, t: string)
    ensures Scan(ConsRun(rep), p, t) == Collapse(t, rep)
    decreases |t|
  {
    if t != [] {
      var n := RunLen(t, t[0]);
      if InConsClass(t[0]) && n >= 2 {
        assert Scan(ConsRun(rep), p, t) == rep + Scan(ConsRun(rep), Some(t[n - 1]), t[n..]);
        ConsRunScan(rep, Some(t[n - 1]), t[n..]);
      } else if n == 1 {
        assert Scan(ConsRun(rep), p, t) == [t[0]] + Scan(ConsRun(rep), Some(t[0]), t[1..]);
        assert t[..n] == [t[0]];
        ConsRunScan(rep, Some(t[0]), t[1..]);
      } else {
        RunNoStarts(ConsRun(rep), t, n);
        assert t == t[..n] + t[n..];
        ScanSkip(ConsRun(rep), p, t[..n], t[n..]);
        ConsRunScan(rep, After(p, t[..n]), t[n..]);
      }
    }
  }

  /** Each maximal run of at least `min` copies of `ch` replaced by `rep`. */
  function Squash(s: string, ch: char, min: nat, rep: string): (r: string)
    ensures forall i :: 0 <= i < |r| ==> r[i] in s || r[i] in rep
    ensures s != [] && rep != [] ==> r != []
    decreases |s|
  {
    if s == [] then []
    else if s[0] != ch then [s[0]] + Squash(s[1..], ch, min, rep)
    else
      var n := RunLen(s, ch);
      (if n >= min then rep else s[..n]) + Squash(s[n..], ch, min, rep)
  }

  /** A run of `ch` too short for `Squash` to replace is kept, one character after the other. */
  lemma SquashShort(t: string, ch: char, min: nat, rep: string)
    requires t != [] && t[0] == ch && RunLen(t, ch) < min
    ensures Squash(t, ch, min, rep) == [ch] + Squash(t[1..], ch, min, rep)
  {
    var n := RunLen(t, ch);
    if n > 1 {
      SquashShortMany(t, ch, min, rep, n);
    } else {
      assert t[..1] == [ch] && t[1..] == t[n..];
    }
  }

  lemma SquashShortMany(t: string, ch: char, min: nat, rep: string, n: nat)
    requires t != [] && t[0] == ch && RunLen(t, ch) == n && 1 < n < min
    ensures Squash(t, ch, min, rep) == [ch] + Squash(t[1..], ch, min, rep)
  {
    var t' := t[1..];
    assert RunLen(t', ch) == n - 1;
    var z := Squash(t'[n - 1..], ch, min, rep);
    calc {
      Squash(t, ch, min, rep);
      { SquashRun(t, ch, min, rep, n); }
      t[..n] + Squash(t[n..], ch, min, rep);
      { assert t[..n] == [ch] + t'[..n - 1] && t'[n - 1..] == t[n..]; }
      ([ch] + t'[..n - 1]) + z;
      { Regroup([ch], t'[..n - 1], z); }
      [ch] + (t'[..n - 1] + z);
      { SquashRun(t', ch, min, rep, n - 1); }
      [ch] + Squash(t', ch, min, rep);
    }
  }

  /** `Squash` on a text that begins with a short run of `ch`. */
  lemma SquashRun(t: string, ch: char, min: nat, rep: string, n: nat)
    requires t != [] && t[0] == ch && RunLen(t, ch) == n < min
    ensures Squash(t, ch, min, rep) == t[..n] + Squash(t[n..], ch, min, rep)
  {
  }

  /** Global substitution of `ch{min,}` is `Squash`. */
  lemma {:induction false} RunScan(ch: char, min: nat, rep: string, p: Option<char>, t: string)
    ensures Scan(Run(ch, min, rep), p, t) == Squash(t, ch, min, rep)
    decreases |t|
  {
    if t != [] {
      var n := RunLen(t, ch);
      if t[0] != ch {
        assert Scan(Run(ch, min, rep), p, t) == [t[0]] + Scan(Run(ch, min, rep), Some(t[0]), t[1..]);
        RunScan(ch, min, rep, Some(t[0]), t[1..]);
      } else if n >= min {
        assert Scan(Run(ch, min, rep), p, t) == rep + Scan(Run(ch, min, rep), Some(t[n - 1]), t[n..]);
        RunScan(ch, min, rep, Some(t[n - 1]), t[n..]);
      } else {
        assert Match(Run(ch, min, rep), p, t).None?;
        ScanMiss(Run(ch, min, rep), p, t);
        SquashShort(t, ch, min, rep);
        RunScan(ch, min, rep, Some(t[0]), t[1..]);
      }
    }
  }

  /** Passing the first character, then `j - 1` more, is passing `j` characters. */
  lemma AfterStep(prev: Option<char>, t: string, j: nat)
    requires 0 < j <= |t|
    ensures After(Some(t[0]), t[1..][..j - 1]) == After(prev, t[..j]) && t[1..][j - 1..] == t[j..]
  {
    if j > 1 { assert t[1..][..j - 1][j - 2] == t[j - 1]; }
  }

  /** `Search` finds a match at the offset it returns, and none before it. */
  lemma SearchMatch(r: Rule, prev: Option<char>, t: string)
    requires Search(r, prev, t).Some?
    ensures var k := Search(r, prev, t).value;
      Match(r, After(prev, t[..k]), t[k..]).Some? &&
      forall j :: 0 <= j < k ==> Match(r, After(prev, t[..j]), t[j..]).None?
  {
    SearchHit(r, prev, t);
    SearchNoneBefore(r, prev, t);
  }

  /** `Search` finds a match at the offset it returns. */
  lemma {:induction false} SearchHit(r: Rule, prev: Option<char>, t: string)
    requires Search(r, prev, t).Some?
    ensures var k := Search(r, prev, t).value; Match(r, After(prev, t[..k]), t[k..]).Some?
    decreases |t|
  {
    var k := Search(r, prev, t).value;
    if k == 0 {
      assert t[..0] == [] && t[0..] == t;
    } else {
      var t' := t[1..];
      assert Search(r, Some(t[0]), t').value == k - 1;
      SearchHit(r, Some(t[0]), t');
      var m := Match(r, After(Some(t[0]), t'[..k - 1]), t'[k - 1..]);
      assert m.Some?;
      AfterStep(prev, t, k);
      assert m == Match(r, After(prev, t[..k]), t[k..]);
    }
  }

  /** `Search` finds no match before the offset it returns. */
  lemma {:induction false} SearchNoneBefore(r: Rule, prev: Option<char>, t: string)
    requires Search(r, prev, t).Some?
    ensures var k := Search(r, prev, t).value;
      forall j :: 0 <= j < k ==> Match(r, After(prev, t[..j]), t[j..]).None?
    decreases |t|
  {
    var k := Search(r, prev, t).value;
    if k > 0 {
      var t' := t[1..];
      assert Match(r, prev, t).None? && Search(r, Some(t[0]), t').value == k - 1;
      SearchNoneBefore(r, Some(t[0]), t');
      forall j | 0 <= j < k ensures Match(r, After(prev, t[..j]), t[j..]).None? {
        if j == 0 {
          assert t[..0] == [] && t[0..] == t;
        } else {
          AfterStep(prev, t, j);
        }
      }
    }
  }

  // ---------------------------------------------------------------------
  // Length: substitutions that never lengthen a text.
  // ---------------------------------------------------------------------

  /** No match of `r` is replaced by a longer text. */
  predicate NoLonger(r: Rule)
  {
    match r
    case Alts(alts, _, rep) => forall j :: 0 <= j < |alts| ==> |rep| <= |alts[j]|
    case Cap(_, tails, rep) => forall j :: 0 <= j < |tails| ==> |rep| <= |tails[j]|
    case Bounded(word, _, rep) => |rep| <= |word|
    case Run(_, min, rep) => |rep| <= min || |rep| <= 1
    case ConsRun(rep) => |rep| <= 2
    case _ => true
  }

  /** Every match of `r` is replaced by a strictly shorter text. */
  predicate Shrinks(r: Rule)
  {
    match r
    case Alts(alts, _, rep) => forall j :: 0 <= j < |alts| ==> |rep| < |alts[j]|
    case Cap(_, tails, rep) => forall j :: 0 <= j < |tails| ==> |rep| < |tails[j]|
    case Bounded(word, _, rep) => |rep| < |word|
    case Run(_, min, rep) => |rep| < min
    case ConsRun(rep) => |rep| < 2
    case Retweet => false
    case PunctSpace => false
    case _ => true
  }

  /** The replacement of a match against the length of the text it replaces. */
  lemma MatchLength(r: Rule, p: Option<char>, t: string)
    requires Match(r, p, t).Some?
    ensures NoLonger(r) ==> |Match(r, p, t).value.rep| <= Match(r, p, t).value.len
    ensures Shrinks(r) ==> |Match(r, p, t).value.rep| < Match(r, p, t).value.len
  {
    match r
    case Alts(alts, fold, rep) =>
      var k := FirstAlt(t, alts, fold).value;
      assert Match(r, p, t).value.len == |alts[k]|;
    case Cap(first, tails, rep) =>
      var k := FirstAlt(t[1..], tails, true).value;
      assert Match(r, p, t).value.len == 1 + |tails[k]|;
    case _ =>
  }

  /** A rule that never lengthens a match never lengthens the text. */
  lemma {:induction false} ScanLength(r: Rule, p: Option<char>, t: string)
    requires NoLonger(r)
    ensures |Scan(r, p, t)| <= |t|
    decreases |t|
  {
    if t != [] {
      match Match(r, p, t)
      case Some(h) =>
        MatchLength(r, p, t);
        ScanHit(r, p, t, h);
        ScanLength(r, Some(t[h.len - 1]), t[h.len..]);
      case None =>
        ScanMiss(r, p, t);
        ScanLength(r, Some(t[0]), t[1..]);
    }
  }

  /** A rule that shortens every match shortens every text it matches, and only those. */
  lemma {:induction false} ScanShrinks(r: Rule, p: Option<char>, t: string)
    requires Shrinks(r)
    ensures Found(r, p, t) ==> |Scan(r, p, t)| < |t|
    ensures Scan(r, p, t) == t <==> !Found(r, p, t)
    decreases |t|
  {
    if t != [] {
      ShrinksNoLonger(r);
      match Match(r, p, t)
      case Some(h) =>
        MatchLength(r, p, t);
        ScanHit(r, p, t, h);
        ScanLength(r, Some(t[h.len - 1]), t[h.len..]);
      case None =>
        ScanMiss(r, p, t);
        ScanShrinks(r, Some(t[0]), t[1..]);
    }
    if !Found(r, p, t) {
      ScanAbsent(r, p, t);
    }
  }

  lemma ShrinksNoLonger(r: Rule)
    requires Shrinks(r)
    ensures NoLonger(r)
  {
  }

  /** Consecutive substitutions that never lengthen a match never lengthen the text. */
  lemma {:induction false} ApplyAllLength(rules: seq<Rule>, s: string)
    requires forall i :: 0 <= i < |rules| ==> NoLonger(rules[i])
    ensures |ApplyAll(rules, s)| <= |s|
  {
    if rules != [] {
      ScanLength(rules[0], None, s);
      ApplyAllLength(rules[1..], ReplaceAll(rules[0], s));
    }
  }
}
