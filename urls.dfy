/**
  `url_preserve` and `url_restore` (lib/tweet_compressor/compress.rb): the URLs
  of a text are collected in order, every occurrence of each is replaced by
  `UrlHolder`, and later the placeholders are replaced back, one URL each,
  first placeholder first. URLs are recognised by a simplified version of
  `URL_PATTERN`: a whitespace-separated word that begins with a scheme and a
  colon.
 */
module Urls {
  import opened Wrappers
  import opened Text
  import opened Rewrite
  import opened Compress

  predicate IsAlpha(c: char) { IsUpper(c) || IsLower(c) }

  predicate IsAlnum(c: char) { IsAlpha(c) || IsDigit(c) }

  /** The class `[\w-]` of the scheme. */
  predicate IsSchemeChar(c: char) { IsWordChar(c) || c == '-' }

  /** Characters that may not end a URL (the ASCII part of its last character class). */
  predicate IsTrailing(c: char)
  {
    c == '`' || c == '!' || c == '(' || c == ')' || c == '[' || c == ']' || c == '{' || c == '}'
    || c == ';' || c == ':' || c == '\'' || c == '"' || c == '.' || c == ',' || c == '<' || c == '>' || c == '?'
  }

  /** Characters that cut a URL short: parentheses and angle brackets. */
  predicate IsBracket(c: char) { c == '(' || c == ')' || c == '<' || c == '>' }

  /** Length of the leading run of scheme characters. */
  function SchemeRun(t: string): (n: nat)
    ensures n <= |t|
  {
    if t == [] || !IsSchemeChar(t[0]) then 0 else 1 + SchemeRun(t[1..])
  }

  /** Length of the leading run without brackets. */
  function BodyLen(t: string): (n: nat)
    ensures n <= |t|
  {
    if t == [] || IsBracket(t[0]) then 0 else 1 + BodyLen(t[1..])
  }

  /** `t` without the trailing characters a URL may not end with. */
  function TrimTrailing(t: string): (u: string)
    ensures u <= t
  {
    if t == [] || !IsTrailing(t[|t| - 1]) then t else TrimTrailing(t[..|t| - 1])
  }

  /**
    A URL: a letter, at least one more scheme character, a colon, then at
    least three characters of which the first is '/', a letter, a digit or
    '%'; no whitespace and no bracket; a last character that may end a URL.
   */
  predicate IsUrl(u: string)
  {
    |u| >= 2 && IsAlpha(u[0]) &&
    var n := 1 + SchemeRun(u[1..]);
    n >= 2 && n < |u| && u[n] == ':' && |u| - n - 1 >= 3 &&
    (u[n + 1] == '/' || IsAlnum(u[n + 1]) || u[n + 1] == '%') &&
    Clean(u) && !IsTrailing(u[|u| - 1])
  }

  /** No whitespace and no bracket. */
  predicate Clean(u: string)
  {
    u == [] || (!IsSpace(u[0]) && !IsBracket(u[0]) && Clean(u[1..]))
  }

  /** The URL a word begins with: the word up to its first bracket, without trailing punctuation. */
  function UrlOf(w: string): (o: Option<string>)
    ensures o.Some? ==> IsUrl(o.value) && o.value <= w
  {
    var u := TrimTrailing(w[..BodyLen(w)]);
    if IsUrl(u) then Some(u) else None
  }

  /** The URLs of a list of words, in order. */
  function UrlsOf(ws: seq<string>): seq<string>
  {
    if ws == [] then []
    else (match UrlOf(ws[0]) case Some(u) => [u] case None => []) + UrlsOf(ws[1..])
  }

  /** The `scan` of `url_preserve`: the URLs of a text, left to right. */
  function ScanUrls(s: string): (us: seq<string>)
    ensures forall i :: 0 <= i < |us| ==> IsUrl(us[i])
  {
    UrlsOfUrls(Words(s));
    UrlsOf(Words(s))
  }

  /** Everything `UrlsOf` collects is a URL. */
  lemma {:induction false} UrlsOfUrls(ws: seq<string>)
    ensures forall i :: 0 <= i < |UrlsOf(ws)| ==> IsUrl(UrlsOf(ws)[i])
  {
    if ws != [] {
      var head, rest := (match UrlOf(ws[0]) case Some(u) => [u] case None => []), UrlsOf(ws[1..]);
      UrlsOfUrls(ws[1..]);
      assert UrlsOf(ws) == head + rest;
      forall i | 0 <= i < |head + rest| ensures IsUrl((head + rest)[i]) {
        if i >= |head| { assert (head + rest)[i] == rest[i - |head|]; }
      }
    }
  }

  /** The `gsub!` loop of `url_preserve`: every occurrence of each URL, in turn, replaced by `UrlHolder`. */
  function MaskAll(us: seq<string>, s: string): string
  {
    if us == [] then s
    else ReplaceAll(Literal(us[|us| - 1], UrlHolder), MaskAll(us[..|us| - 1], s))
  }

  /** The `sub!` loop of `url_restore`: for each URL in turn, the first remaining `UrlHolder` becomes it. */
  function RestoreAll(us: seq<string>, s: string): string
  {
    if us == [] then s
    else ReplaceFirst(Literal(UrlHolder, us[|us| - 1]), RestoreAll(us[..|us| - 1], s))
  }

  /** One more URL of the list masked. */
  lemma MaskAllStep(us: seq<string>, i: nat, s: string)
    requires i < |us|
    ensures MaskAll(us[..i + 1], s) == ReplaceAll(Literal(us[i], UrlHolder), MaskAll(us[..i], s))
  {
    assert us[..i + 1][..i] == us[..i];
  }

  /** One more URL of the list restored. */
  lemma RestoreAllStep(us: seq<string>, i: nat, s: string)
    requires i < |us|
    ensures RestoreAll(us[..i + 1], s) == ReplaceFirst(Literal(UrlHolder, us[i]), RestoreAll(us[..i], s))
  {
    assert us[..i + 1][..i] == us[..i];
  }

  /** A URL standing alone is a URL word: it has no bracket and ends in a character a URL may end with. */
  lemma UrlIsUrlWord(u: string)
    requires IsUrl(u)
    ensures IsUrlWord(u)
  {
    CleanBodyLen(u);
    assert u[..|u|] == u;
  }

  lemma {:induction false} CleanBodyLen(u: string)
    requires Clean(u)
    ensures BodyLen(u) == |u|
  {
    if u != [] {
      CleanBodyLen(u[1..]);
    }
  }

  // ---------------------------------------------------------------------
  // The round trip.
  // ---------------------------------------------------------------------

  /** A word that is a URL and nothing more. */
  predicate IsUrlWord(w: string)
  {
    UrlOf(w) == Some(w)
  }

  /** Every word that begins with a URL is that URL: no trailing punctuation, no bracket. */
  ghost predicate BareUrls(ws: seq<string>)
  {
    forall i :: 0 <= i < |ws| && UrlOf(ws[i]).Some? ==> IsUrlWord(ws[i])
  }

  /** No word contains the placeholder. */
  ghost predicate NoHolder(ws: seq<string>)
  {
    forall i :: 0 <= i < |ws| ==> !Contains(ws[i], UrlHolder)
  }

  /** No URL of the text occurs inside a longer word. */
  ghost predicate UrlsStandAlone(ws: seq<string>)
  {
    forall i, j :: 0 <= i < |ws| && 0 <= j < |ws| && IsUrlWord(ws[j]) && Contains(ws[i], ws[j]) ==> ws[i] == ws[j]
  }

  /** The conditions under which the source's placeholder scheme restores a text exactly. */
  ghost predicate RoundTrips(ws: seq<string>)
  {
    AllWords(ws) && BareUrls(ws) && NoHolder(ws) && UrlsStandAlone(ws)
  }

  /**
    The words with the first `k` URL words kept and every later URL word
    replaced by the placeholder: the text after `k` steps of `url_restore`.
   */
  function Unmask(ws: seq<string>, k: nat): (r: seq<string>)
    ensures |r| == |ws|
  {
    if ws == [] then []
    else if IsUrlWord(ws[0]) then
      (if k > 0 then [ws[0]] + Unmask(ws[1..], k - 1) else [UrlHolder] + Unmask(ws[1..], 0))
    else [ws[0]] + Unmask(ws[1..], k)
  }

  /** Each word that is one of `us` replaced by the placeholder. */
  function MaskBy(ws: seq<string>, us: seq<string>): (r: seq<string>)
    ensures |r| == |ws|
    ensures forall i :: 0 <= i < |ws| ==> r[i] == if ws[i] in us then UrlHolder else ws[i]
  {
    if ws == [] then [] else [if ws[0] in us then UrlHolder else ws[0]] + MaskBy(ws[1..], us)
  }

  /** Every URL has a colon after its scheme. */
  lemma UrlHasColon(u: string)
    requires IsUrl(u)
    ensures ':' in u
  {
    var n := 1 + SchemeRun(u[1..]);
    assert u[n] == ':';
  }

  /** A word that begins with a URL has a colon. */
  lemma UrlOfColon(w: string)
    ensures UrlOf(w).Some? ==> ':' in w
  {
    if UrlOf(w).Some? {
      var u := UrlOf(w).value;
      UrlHasColon(u);
      var i :| 0 <= i < |u| && u[i] == ':';
      assert w[i] == ':';
    }
  }

  /** The placeholder contains no URL and begins with none: it has no colon. */
  lemma HolderHasNoUrl(u: string)
    requires IsUrl(u)
    ensures !Contains(UrlHolder, u)
    ensures UrlOf(UrlHolder) == None
  {
    assert ':' !in UrlHolder;
    UrlHasColon(u);
    ContainsChar(UrlHolder, u, ':');
    UrlOfColon(UrlHolder);
  }

  /** `gsub` of a literal without spaces rewrites a joined text word by word. */
  lemma {:induction false} LiteralOverJoin(lit: string, rep: string, p: Option<char>, ws: seq<string>)
    requires lit != [] && ' ' !in lit
    requires forall i :: 0 <= i < |ws| ==> ws[i] == lit || !Contains(ws[i], lit)
    ensures Scan(Literal(lit, rep), p, JoinSpace(ws)) == JoinSpace(Subst(ws, lit, rep))
    decreases |ws|
  {
    var r := Literal(lit, rep);
    if ws != [] {
      var w := ws[0];
      if w == lit {
        LiteralWhole(lit, rep, p);
      } else {
        LiteralFound(lit, rep, p, w);
        ScanAbsent(r, p, w);
      }
      if |ws| > 1 {
        assert IsBarrier(r, ' ');
        ScanBarrier(r, p, w, ' ', JoinSpace(ws[1..]));
        LiteralOverJoin(lit, rep, Some(' '), ws[1..]);
        assert Subst(ws, lit, rep)[1..] == Subst(ws[1..], lit, rep);
      }
    }
  }

  /** Each word equal to `lit` replaced by `rep`. */
  function Subst(ws: seq<string>, lit: string, rep: string): (r: seq<string>)
    ensures |r| == |ws|
    ensures forall i :: 0 <= i < |ws| ==> r[i] == if ws[i] == lit then rep else ws[i]
  {
    if ws == [] then [] else [if ws[0] == lit then rep else ws[0]] + Subst(ws[1..], lit, rep)
  }

  /** The conditions of the round trip hold for the rest of a list, and its first word adds at most itself. */
  lemma UrlsOfCons(ws: seq<string>)
    requires ws != [] && BareUrls(ws)
    ensures BareUrls(ws[1..])
    ensures UrlsOf(ws) == (if IsUrlWord(ws[0]) then [ws[0]] else []) + UrlsOf(ws[1..])
  {
    forall i | 0 <= i < |ws[1..]| && UrlOf(ws[1..][i]).Some? ensures IsUrlWord(ws[1..][i]) {
      assert ws[1..][i] == ws[i + 1];
    }
  }

  lemma RoundTripsTail(ws: seq<string>)
    requires ws != [] && RoundTrips(ws)
    ensures RoundTrips(ws[1..]) && IsWord(ws[0]) && !Contains(ws[0], UrlHolder)
  {
    UrlsOfCons(ws);
    var t := ws[1..];
    assert forall i :: 0 <= i < |t| ==> t[i] == ws[i + 1];
    assert UrlsStandAlone(t) by {
      forall i, j | 0 <= i < |t| && 0 <= j < |t| && IsUrlWord(t[j]) && Contains(t[i], t[j]) ensures t[i] == t[j] {
        assert ws[i + 1] == t[i] && ws[j + 1] == t[j];
      }
    }
  }

  /** The URLs of a list of words are exactly its URL words, as far as membership goes. */
  lemma UrlsOfBare(ws: seq<string>)
    requires BareUrls(ws)
    ensures forall u :: u in UrlsOf(ws) ==> IsUrlWord(u) && u in ws
    ensures forall i :: 0 <= i < |ws| && IsUrlWord(ws[i]) ==> ws[i] in UrlsOf(ws)
  {
    UrlsAreWords(ws);
    UrlWordsAreUrls(ws);
  }

  lemma {:induction false} UrlsAreWords(ws: seq<string>)
    requires BareUrls(ws)
    ensures forall u :: u in UrlsOf(ws) ==> IsUrlWord(u) && u in ws
  {
    if ws != [] {
      var t := ws[1..];
      UrlsOfCons(ws);
      UrlsAreWords(t);
      forall u | u in UrlsOf(ws) ensures IsUrlWord(u) && u in ws {
        if u !in UrlsOf(t) {
          assert u == ws[0];
        } else {
          var i :| 0 <= i < |t| && t[i] == u;
          assert ws[i + 1] == u;
        }
      }
    }
  }

  lemma UrlWordsAreUrls(ws: seq<string>)
    requires BareUrls(ws)
    ensures forall i :: 0 <= i < |ws| && IsUrlWord(ws[i]) ==> ws[i] in UrlsOf(ws)
  {
    forall i | 0 <= i < |ws| && IsUrlWord(ws[i]) ensures ws[i] in UrlsOf(ws) {
      UrlWordIn(ws, i);
    }
  }

  lemma {:induction false} UrlWordIn(ws: seq<string>, i: nat)
    requires i < |ws| && UrlOf(ws[i]).Some?
    ensures UrlOf(ws[i]).value in UrlsOf(ws)
  {
    if i == 0 {
      UrlsOfFront(ws);
    } else {
      assert ws[i] == ws[1..][i - 1];
      UrlWordIn(ws[1..], i - 1);
      UrlsOfFront(ws);
    }
  }

  /** `UrlsOf` of a non-empty list: the URL of its first word, if any, then the URLs of the rest. */
  lemma UrlsOfFront(ws: seq<string>)
    requires ws != []
    ensures UrlOf(ws[0]).Some? ==> UrlOf(ws[0]).value in UrlsOf(ws)
    ensures forall x :: x in UrlsOf(ws[1..]) ==> x in UrlsOf(ws)
  {
  }

  /** The `gsub!` loop of `url_preserve` masks every word that is one of the URLs done so far. */
  lemma {:induction false} MaskAllJoin(ws: seq<string>, us: seq<string>)
    requires AllWords(ws) && UrlsStandAlone(ws)
    requires forall u :: u in us ==> IsUrlWord(u) && u in ws
    ensures MaskAll(us, JoinSpace(ws)) == JoinSpace(MaskBy(ws, us))
    decreases |us|
  {
    if us == [] {
      assert MaskBy(ws, us) == ws;
    } else {
      var u, us' := us[|us| - 1], us[..|us| - 1];
      assert u in us && us == us' + [u];
      assert forall v :: v in us' ==> v in us;
      MaskAllJoin(ws, us');
      MaskOne(ws, us', u);
    }
  }

  /** One step of that loop: the occurrences of one more URL word become the placeholder. */
  lemma MaskOne(ws: seq<string>, us: seq<string>, u: string)
    requires UrlsStandAlone(ws) && IsUrlWord(u) && u in ws
    ensures ReplaceAll(Literal(u, UrlHolder), JoinSpace(MaskBy(ws, us))) == JoinSpace(MaskBy(ws, us + [u]))
  {
    var before := MaskBy(ws, us);
    UrlShape(u);
    HolderHasNoUrl(u);
    MaskedAvoid(ws, us, u);
    LiteralOverJoin(u, UrlHolder, None, before);
    assert u != UrlHolder;
    SubstMask(ws, us, u);
  }

  /** A URL is not empty and has no space. */
  lemma UrlShape(u: string)
    requires IsUrl(u)
    ensures u != [] && ' ' !in u
  {
    CleanNoSpace(u);
  }

  lemma {:induction false} CleanNoSpace(u: string)
    requires Clean(u)
    ensures ' ' !in u
  {
    if u != [] {
      CleanNoSpace(u[1..]);
      assert u == [u[0]] + u[1..];
    }
  }

  /** After masking, a URL word occurs only as a whole word. */
  lemma MaskedAvoid(ws: seq<string>, us: seq<string>, u: string)
    requires UrlsStandAlone(ws) && IsUrlWord(u) && u in ws
    ensures forall i :: 0 <= i < |ws| ==> MaskBy(ws, us)[i] == u || !Contains(MaskBy(ws, us)[i], u)
  {
    var before := MaskBy(ws, us);
    HolderHasNoUrl(u);
    var j :| 0 <= j < |ws| && ws[j] == u;
    forall i | 0 <= i < |ws| ensures before[i] == u || !Contains(before[i], u) {
      if before[i] != UrlHolder && Contains(before[i], u) {
        assert before[i] == ws[i] && Contains(ws[i], ws[j]);
      }
    }
  }

  /** Masking one more word is substituting the placeholder for it. */
  lemma SubstMask(ws: seq<string>, us: seq<string>, u: string)
    requires u != UrlHolder
    ensures Subst(MaskBy(ws, us), u, UrlHolder) == MaskBy(ws, us + [u])
  {
    var m, a, b := MaskBy(ws, us), Subst(MaskBy(ws, us), u, UrlHolder), MaskBy(ws, us + [u]);
    forall i | 0 <= i < |ws| ensures a[i] == b[i] {
      if ws[i] in us {
        assert m[i] == UrlHolder && ws[i] in us + [u];
      } else if ws[i] == u {
        assert m[i] == u && ws[i] in us + [u];
      } else {
        assert m[i] == ws[i] && ws[i] !in us + [u];
      }
    }
  }

  /** All URL words masked: the text `url_preserve` leaves. */
  lemma {:induction false} MaskByIsUnmask(ws: seq<string>)
    requires BareUrls(ws)
    ensures MaskBy(ws, UrlsOf(ws)) == Unmask(ws, 0)
  {
    UrlsOfBare(ws);
    MaskByUnmask(ws, UrlsOf(ws));
  }

  lemma {:induction false} MaskByUnmask(ws: seq<string>, us: seq<string>)
    requires forall u :: u in us ==> IsUrlWord(u)
    requires forall i :: 0 <= i < |ws| && IsUrlWord(ws[i]) ==> ws[i] in us
    ensures MaskBy(ws, us) == Unmask(ws, 0)
  {
    if ws != [] {
      MaskByUnmask(ws[1..], us);
      assert MaskBy(ws, us) == [MaskBy(ws, us)[0]] + MaskBy(ws[1..], us);
    }
  }

  /** With all of its URL words restored, the list is the original one. */
  lemma UnmaskAll(ws: seq<string>)
    requires BareUrls(ws)
    ensures Unmask(ws, |UrlsOf(ws)|) == ws
  {
    UrlCountOf(ws);
    UnmaskCount(ws);
  }

  /** The number of URL words in a list. */
  function UrlCount(ws: seq<string>): nat
  {
    if ws == [] then 0 else (if IsUrlWord(ws[0]) then 1 else 0) + UrlCount(ws[1..])
  }

  lemma {:induction false} UrlCountOf(ws: seq<string>)
    requires BareUrls(ws)
    ensures |UrlsOf(ws)| == UrlCount(ws)
  {
    if ws != [] {
      UrlsOfCons(ws);
      UrlCountOf(ws[1..]);
    }
  }

  lemma {:induction false} UnmaskCount(ws: seq<string>)
    ensures Unmask(ws, UrlCount(ws)) == ws
  {
    if ws != [] {
      var w, t := ws[0], ws[1..];
      UnmaskCount(t);
      assert Unmask(ws, UrlCount(ws)) == [w] + Unmask(t, UrlCount(t));
      assert ws == [w] + t;
    }
  }

  /**
    One step of the `sub!` loop of `url_restore`: with the first `k` URL
    words back in place, the first remaining placeholder becomes URL `k`.
   */
  lemma {:induction false} RestoreStep(ws: seq<string>, k: nat, p: Option<char>)
    requires BareUrls(ws) && NoHolder(ws) && k < |UrlsOf(ws)|
    ensures ScanFirst(Literal(UrlHolder, UrlsOf(ws)[k]), p, JoinSpace(Unmask(ws, k))) == JoinSpace(Unmask(ws, k + 1))
    decreases |ws|, 1
  {
    if !IsUrlWord(ws[0]) {
      RestorePastWord(ws, k, p);
    } else if k == 0 {
      RestoreFront(ws, p);
    } else {
      RestorePastUrl(ws, k, p);
    }
  }

  lemma {:induction false} RestorePastWord(ws: seq<string>, k: nat, p: Option<char>)
    requires BareUrls(ws) && NoHolder(ws) && k < |UrlsOf(ws)| && !IsUrlWord(ws[0])
    ensures ScanFirst(Literal(UrlHolder, UrlsOf(ws)[k]), p, JoinSpace(Unmask(ws, k))) == JoinSpace(Unmask(ws, k + 1))
    decreases |ws|, 0
  {
    var w, t := ws[0], ws[1..];
    UrlsPastWord(ws, k);
    UnmaskPastWord(ws, k);
    var u := UrlsOf(t)[k];
    calc {
      ScanFirst(Literal(UrlHolder, UrlsOf(ws)[k]), p, JoinSpace(Unmask(ws, k)));
      ScanFirst(Literal(UrlHolder, u), p, JoinSpace([w] + Unmask(t, k)));
      { NoHolderTail(ws); RestoreStep(t, k, Some(' ')); RestorePast(w, Unmask(t, k), Unmask(t, k + 1), u, p); }
      JoinSpace([w] + Unmask(t, k + 1));
      JoinSpace(Unmask(ws, k + 1));
    }
  }

  lemma {:induction false} RestorePastUrl(ws: seq<string>, k: nat, p: Option<char>)
    requires BareUrls(ws) && NoHolder(ws) && 0 < k < |UrlsOf(ws)| && IsUrlWord(ws[0])
    ensures ScanFirst(Literal(UrlHolder, UrlsOf(ws)[k]), p, JoinSpace(Unmask(ws, k))) == JoinSpace(Unmask(ws, k + 1))
    decreases |ws|, 0
  {
    var w, t, j := ws[0], ws[1..], k - 1;
    UrlsPastUrl(ws, j);
    UnmaskPastUrl(ws, j);
    var u := UrlsOf(t)[j];
    calc {
      ScanFirst(Literal(UrlHolder, UrlsOf(ws)[k]), p, JoinSpace(Unmask(ws, k)));
      ScanFirst(Literal(UrlHolder, u), p, JoinSpace([w] + Unmask(t, j)));
      { NoHolderTail(ws); RestoreStep(t, j, Some(' ')); RestorePast(w, Unmask(t, j), Unmask(t, j + 1), u, p); }
      JoinSpace([w] + Unmask(t, j + 1));
      JoinSpace(Unmask(ws, k + 1));
    }
  }

  lemma NoHolderTail(ws: seq<string>)
    requires ws != [] && NoHolder(ws)
    ensures NoHolder(ws[1..]) && !Contains(ws[0], UrlHolder)
  {
    var t := ws[1..];
    forall i | 0 <= i < |t| ensures !Contains(t[i], UrlHolder) { assert t[i] == ws[i + 1]; }
  }

  /** Past a word that is no URL, the list of URLs is that of the rest. */
  lemma UrlsPastWord(ws: seq<string>, k: nat)
    requires BareUrls(ws) && k < |UrlsOf(ws)| && !IsUrlWord(ws[0])
    ensures BareUrls(ws[1..]) && k < |UrlsOf(ws[1..])| && UrlsOf(ws)[k] == UrlsOf(ws[1..])[k]
  {
    UrlsOfCons(ws);
  }

  /** Past a URL word already restored, URL `k` is URL `k - 1` of the rest. */
  lemma UrlsPastUrl(ws: seq<string>, k: nat)
    requires BareUrls(ws) && k + 1 < |UrlsOf(ws)| && IsUrlWord(ws[0])
    ensures BareUrls(ws[1..]) && k < |UrlsOf(ws[1..])| && UrlsOf(ws)[k + 1] == UrlsOf(ws[1..])[k]
  {
    UrlsOfCons(ws);
    ConsIndex(ws[0], UrlsOf(ws[1..]), UrlsOf(ws), k + 1);
  }

  lemma ConsIndex<T>(a: T, rest: seq<T>, us: seq<T>, k: nat)
    requires us == [a] + rest && 0 < k < |us|
    ensures us[k] == rest[k - 1] && k - 1 < |rest|
  {
  }

  /** Past a word that is no URL, both lists of words go on with the rest. */
  lemma UnmaskPastWord(ws: seq<string>, k: nat)
    requires ws != [] && !IsUrlWord(ws[0])
    ensures Unmask(ws, k) == [ws[0]] + Unmask(ws[1..], k) && Unmask(ws, k + 1) == [ws[0]] + Unmask(ws[1..], k + 1)
  {
  }

  /** Past a URL word already restored, both lists of words go on with one URL fewer. */
  lemma UnmaskPastUrl(ws: seq<string>, k: nat)
    requires ws != [] && IsUrlWord(ws[0])
    ensures Unmask(ws, k + 1) == [ws[0]] + Unmask(ws[1..], k) && Unmask(ws, k + 2) == [ws[0]] + Unmask(ws[1..], k + 1)
  {
  }

  /** `sub` of the placeholder passes a word without it and the space after. */
  lemma RestorePast(w: string, before: seq<string>, after: seq<string>, u: string, p: Option<char>)
    requires !Contains(w, UrlHolder) && before != [] && after != []
    requires ScanFirst(Literal(UrlHolder, u), Some(' '), JoinSpace(before)) == JoinSpace(after)
    ensures ScanFirst(Literal(UrlHolder, u), p, JoinSpace([w] + before)) == JoinSpace([w] + after)
  {
    HolderBarrier(u);
    LiteralFound(UrlHolder, u, p, w);
    JoinStep(w, before);
    JoinStep(w, after);
    ScanFirstBarrier(Literal(UrlHolder, u), p, w, ' ', JoinSpace(before));
  }

  /** The space is a barrier for `sub` of the placeholder. */
  lemma HolderBarrier(u: string)
    ensures IsBarrier(Literal(UrlHolder, u), ' ')
  {
    assert Avoids(UrlHolder, ' ', false);
  }

  /** The first URL word is the first placeholder, and restoring it puts it back. */
  lemma RestoreFront(ws: seq<string>, p: Option<char>)
    requires ws != [] && IsUrlWord(ws[0])
    ensures ScanFirst(Literal(UrlHolder, ws[0]), p, JoinSpace(Unmask(ws, 0))) == JoinSpace(Unmask(ws, 1))
  {
    var w, t := ws[0], ws[1..];
    assert Unmask(ws, 0) == [UrlHolder] + Unmask(t, 0) && Unmask(ws, 1) == [w] + Unmask(t, 0);
    if t == [] {
      LiteralWhole(UrlHolder, w, p);
    } else {
      RestoreFrontJoin(UrlHolder, w, Unmask(t, 0), p);
    }
  }

  lemma RestoreFrontJoin(lit: string, w: string, rest: seq<string>, p: Option<char>)
    requires lit != [] && rest != []
    ensures ScanFirst(Literal(lit, w), p, JoinSpace([lit] + rest)) == JoinSpace([w] + rest)
  {
    var j := JoinSpace(rest);
    JoinStep(lit, rest);
    JoinStep(w, rest);
    PrefixRest(lit, " ", j);
    LiteralFront(lit, w, p, lit + " " + j);
  }

  lemma PrefixRest(a: string, b: string, c: string)
    ensures a <= a + b + c && (a + b + c)[|a|..] == b + c
  {
    assert a + b + c == a + (b + c);
  }

  /** `url_restore` after `k` of its steps. */
  lemma {:induction false} RestoreAllJoin(ws: seq<string>, k: nat)
    requires BareUrls(ws) && NoHolder(ws) && k <= |UrlsOf(ws)|
    ensures RestoreAll(UrlsOf(ws)[..k], JoinSpace(Unmask(ws, 0))) == JoinSpace(Unmask(ws, k))
  {
    var texts := (j: nat) => JoinSpace(Unmask(ws, j));
    RestoreSteps(ws, k);
    RestoreAllInvariant(UrlsOf(ws), texts, k);
  }

  /** Each of the first `k` steps of `url_restore` puts back one more URL word. */
  lemma RestoreSteps(ws: seq<string>, k: nat)
    requires BareUrls(ws) && NoHolder(ws) && k <= |UrlsOf(ws)|
    ensures forall j: nat :: j < k ==>
      ReplaceFirst(Literal(UrlHolder, UrlsOf(ws)[j]), JoinSpace(Unmask(ws, j))) == JoinSpace(Unmask(ws, j + 1))
  {
    forall j: nat | j < k
      ensures ReplaceFirst(Literal(UrlHolder, UrlsOf(ws)[j]), JoinSpace(Unmask(ws, j))) == JoinSpace(Unmask(ws, j + 1))
    {
      RestoreStep(ws, j, None);
    }
  }

  /** `url_restore` after `k` of its steps, for any chain of texts each step takes to the next. */
  lemma {:induction false} RestoreAllInvariant(us: seq<string>, texts: nat -> string, k: nat)
    requires k <= |us|
    requires forall j: nat :: j < k ==> ReplaceFirst(Literal(UrlHolder, us[j]), texts(j)) == texts(j + 1)
    ensures RestoreAll(us[..k], texts(0)) == texts(k)
  {
    if k > 0 {
      RestoreAllInvariant(us, texts, k - 1);
      RestoreAllStep(us, k - 1, texts(0));
    }
  }

  /** `url_preserve` on a text of single-spaced words finds its URL words and masks each of them. */
  lemma PreserveJoin(ws: seq<string>)
    requires RoundTrips(ws)
    ensures ScanUrls(JoinSpace(ws)) == UrlsOf(ws)
    ensures MaskAll(UrlsOf(ws), JoinSpace(ws)) == JoinSpace(Unmask(ws, 0))
  {
    WordsOfJoin(ws);
    UrlsOfBare(ws);
    MaskAllJoin(ws, UrlsOf(ws));
    MaskByIsUnmask(ws);
  }

  /**
    `url_preserve` then `url_restore` give back the text, when its words are
    separated by single spaces, no word contains the placeholder, every word
    that begins with a URL is that URL, and no URL occurs inside another word.
   */
  lemma RoundTrip(ws: seq<string>)
    requires RoundTrips(ws)
    ensures var s := JoinSpace(ws); RestoreAll(ScanUrls(s), MaskAll(ScanUrls(s), s)) == s
  {
    var us := UrlsOf(ws);
    PreserveJoin(ws);
    RestoreAllJoin(ws, |us|);
    assert us[..|us|] == us;
    UnmaskAll(ws);
  }

  /**
    After `url_preserve` every URL word is the placeholder, so scanning the
    text again finds no URL: the second `url_preserve` of `compress` empties
    the list.
   */
  lemma UrlsLost(ws: seq<string>)
    requires RoundTrips(ws)
    ensures var s := JoinSpace(ws); ScanUrls(MaskAll(ScanUrls(s), s)) == []
  {
    PreserveJoin(ws);
    MaskedWords(ws);
    WordsOfJoin(Unmask(ws, 0));
    NoUrlsMasked(ws);
  }

  lemma {:induction false} MaskedWords(ws: seq<string>)
    requires AllWords(ws)
    ensures AllWords(Unmask(ws, 0))
  {
    if ws != [] {
      assert AllWords(ws[1..]) by { assert forall i :: 0 <= i < |ws[1..]| ==> ws[1..][i] == ws[i + 1]; }
      MaskedWords(ws[1..]);
      assert IsWord(UrlHolder);
      var m := Unmask(ws, 0);
      assert m == [m[0]] + Unmask(ws[1..], 0);
    }
  }

  lemma {:induction false} NoUrlsMasked(ws: seq<string>)
    requires BareUrls(ws)
    ensures UrlsOf(Unmask(ws, 0)) == []
  {
    if ws != [] {
      UrlsOfCons(ws);
      NoUrlsMasked(ws[1..]);
      var m := Unmask(ws, 0);
      assert m[1..] == Unmask(ws[1..], 0);
      if IsUrlWord(ws[0]) { HolderHasNoUrl(ws[0]); }
    }
  }

  /** Masking trades the length of every URL word for the length of the placeholder. */
  lemma {:induction false} MaskedLength(ws: seq<string>)
    requires BareUrls(ws)
    ensures SumLengths(Unmask(ws, 0)) + SumLengths(UrlsOf(ws)) == SumLengths(ws) + UrlLength * |UrlsOf(ws)|
  {
    if ws != [] {
      var w, t := ws[0], ws[1..];
      UrlsOfCons(ws);
      MaskedLength(t);
      var m, us := Unmask(ws, 0), UrlsOf(ws);
      assert m[1..] == Unmask(t, 0);
      if IsUrlWord(w) {
        assert m[0] == UrlHolder && |UrlHolder| == UrlLength;
        assert us[0] == w && us[1..] == UrlsOf(t);
      } else {
        assert m[0] == w && us == UrlsOf(t);
      }
    }
  }

  /**
    Right after `url_preserve`, `char_count` charges every URL twice over:
    the placeholder already stands for it with 20 characters, and the count
    both subtracts the URL's real length, which is no longer in the text, and
    adds 20 again.
   */
  lemma PreservedCount(ws: seq<string>)
    requires RoundTrips(ws)
    ensures var s := JoinSpace(ws); var us := ScanUrls(s);
      CharCount(MaskAll(us, s), us) == |s| - 2 * SumLengths(us) + 2 * (UrlLength * |us|)
  {
    PreserveJoin(ws);
    MaskedTextLength(ws);
  }

  /** `url_preserve` changes the length of the text by 20 minus the length of each URL. */
  lemma MaskedTextLength(ws: seq<string>)
    requires BareUrls(ws)
    ensures |JoinSpace(Unmask(ws, 0))| == |JoinSpace(ws)| - SumLengths(UrlsOf(ws)) + UrlLength * |UrlsOf(ws)|
  {
    var m := Unmask(ws, 0);
    MaskedLength(ws);
    if ws != [] {
      JoinSpaceLength(ws);
      JoinSpaceLength(m);
    }
  }
}
