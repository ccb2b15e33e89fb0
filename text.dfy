/**
  Characters, words and the word-level operations the compressor is built on:
  Ruby's `String#split` (no argument) becomes `Words`, `Array#join(' ')` becomes
  `JoinSpace`, and the `/i` flag becomes comparison under `Fold`.
  All character classes are ASCII, as the model does not cover other text.
 */
module Text {

  /** Whitespace as Ruby's `split` and `\s` see it: space, \t, \n, \v, \f and \r. */
  predicate IsSpace(c: char)
  {
    c == ' ' || c == '\t' || c == '\n' || c == '\U{B}' || c == '\U{C}' || c == '\r'
  }

  /** The POSIX class [[:punct:]] on ASCII: all 32 printable non-alphanumeric symbols. */
  predicate IsPunct(c: char)
  {
    ('!' <= c <= '/') || (':' <= c <= '@') || ('[' <= c <= '`') || ('{' <= c <= '~')
  }

  predicate IsUpper(c: char) { 'A' <= c <= 'Z' }

  predicate IsLower(c: char) { 'a' <= c <= 'z' }

  predicate IsDigit(c: char) { '0' <= c <= '9' }

  /** The class `\w`, which decides where `\b` holds. */
  predicate IsWordChar(c: char)
  {
    IsUpper(c) || IsLower(c) || IsDigit(c) || c == '_'
  }

  /** ASCII lower-casing, the folding the `/i` flag and `String#downcase` apply. */
  function Fold(c: char): (d: char)
    ensures !IsUpper(d)
    ensures !IsUpper(c) ==> d == c
    ensures IsUpper(c) ==> IsLower(d) && d as int == c as int + 32
  {
    if IsUpper(c) then (c as int + 32) as char else c
  }

  /** `String#downcase`. */
  function Downcase(s: string): (r: string)
    ensures |r| == |s|
    ensures forall i :: 0 <= i < |s| ==> r[i] == Fold(s[i])
  {
    if s == [] then [] else [Fold(s[0])] + Downcase(s[1..])
  }

  /** Character equality, under ASCII case folding when `fold` is set (the `/i` flag). */
  predicate Same(a: char, b: char, fold: bool)
  {
    if fold then Fold(a) == Fold(b) else a == b
  }

  /** `t` begins with `lit`, compared under `Same`. */
  predicate Starts(t: string, lit: string, fold: bool)
    ensures Starts(t, lit, fold) ==> |lit| <= |t|
  {
    if lit == [] then true
    else t != [] && Same(t[0], lit[0], fold) && Starts(t[1..], lit[1..], fold)
  }

  /** No character of `lit` equals `c` under `Same`. */
  predicate Avoids(lit: string, c: char, fold: bool)
  {
    forall k :: 0 <= k < |lit| ==> !Same(lit[k], c, fold)
  }

  /** `lit` occurs somewhere in `t` (Ruby's `include?` for a literal). */
  predicate Contains(t: string, lit: string)
    decreases |t|
  {
    Starts(t, lit, false) || (t != [] && Contains(t[1..], lit))
  }

  /** Without folding, `Starts` is the prefix relation on sequences. */
  lemma {:induction false} StartsExact(t: string, lit: string)
    ensures Starts(t, lit, false) <==> lit <= t
  {
    if lit != [] && t != [] {
      StartsExact(t[1..], lit[1..]);
      assert lit == [lit[0]] + lit[1..] && t == [t[0]] + t[1..];
    }
  }

  /** With folding, `Starts` compares the lower-cased prefix, as `/i` and `downcase ==` do. */
  lemma {:induction false} StartsFolded(t: string, lit: string)
    ensures Starts(t, lit, true) <==> |lit| <= |t| && Downcase(t[..|lit|]) == Downcase(lit)
  {
    if lit != [] && t != [] {
      StartsFolded(t[1..], lit[1..]);
      if |lit| <= |t| {
        assert t[..|lit|][1..] == t[1..][..|lit| - 1];
        var d, e := Downcase(t[..|lit|]), Downcase(lit);
        assert d == [Fold(t[0])] + Downcase(t[1..][..|lit| - 1]);
        assert e == [Fold(lit[0])] + Downcase(lit[1..]);
        if d == e {
          assert d[0] == e[0] && d[1..] == e[1..];
        }
      }
    }
  }

  /** A text that contains `lit` contains each character of it. */
  lemma {:induction false} ContainsChar(t: string, lit: string, c: char)
    ensures Contains(t, lit) && c in lit ==> c in t
    decreases |t|
  {
    if Contains(t, lit) && c in lit {
      if Starts(t, lit, false) {
        StartsExact(t, lit);
        var i :| 0 <= i < |lit| && lit[i] == c;
        assert t[i] == c;
      } else {
        ContainsChar(t[1..], lit, c);
      }
    }
  }

  /** Every text begins with itself. */
  lemma {:induction false} StartsSelf(lit: string, fold: bool)
    ensures Starts(lit, lit, fold)
    decreases |lit|
  {
    if lit != [] {
      StartsSelf(lit[1..], fold);
    }
  }

  /** What `w` begins with, `w` followed by anything begins with too. */
  lemma {:induction false} StartsExtend(w: string, rest: string, lit: string, fold: bool)
    requires Starts(w, lit, fold)
    ensures Starts(w + rest, lit, fold)
    decreases |lit|
  {
    if lit != [] {
      assert (w + rest)[0] == w[0] && (w + rest)[1..] == w[1..] + rest;
      StartsExtend(w[1..], rest, lit[1..], fold);
    }
  }

  /** A prefix test is decided before a character that no position of the literal accepts. */
  lemma {:induction false} StartsStop(x: string, c: char, y: string, lit: string, fold: bool)
    requires Avoids(lit, c, fold)
    ensures Starts(x + [c] + y, lit, fold) == Starts(x, lit, fold)
    decreases |lit|
  {
    if lit != [] {
      if x == [] {
        assert (x + [c] + y)[0] == c;
        assert !Same(lit[0], c, fold);
      } else {
        assert (x + [c] + y)[1..] == x[1..] + [c] + y;
        assert Avoids(lit[1..], c, fold) by {
          forall k | 0 <= k < |lit[1..]| ensures !Same(lit[1..][k], c, fold) {
            assert lit[1..][k] == lit[k + 1];
          }
        }
        StartsStop(x[1..], c, y, lit[1..], fold);
      }
    }
  }

  /** A prefix test on a suffix of a text that ends before the character `c`. */
  lemma StartsStopEnd(x: string, c: char, lit: string, fold: bool)
    requires Avoids(lit, c, fold)
    ensures Starts(x + [c], lit, fold) == Starts(x, lit, fold)
  {
    assert x + [c] == x + [c] + [];
    StartsStop(x, c, [], lit, fold);
  }

  /** A string whose every character is `c`. */
  function Repeat(c: char, n: nat): (r: string)
    ensures |r| == n
    ensures forall i :: 0 <= i < n ==> r[i] == c
  {
    if n == 0 then [] else [c] + Repeat(c, n - 1)
  }

  /** A word as `split` produces it: non-empty, without whitespace. */
  predicate IsWord(w: string)
  {
    w != [] && forall i :: 0 <= i < |w| ==> !IsSpace(w[i])
  }

  /** Length of the leading run of non-whitespace characters. */
  function TokenLen(s: string): (n: nat)
    ensures n <= |s|
    ensures forall k :: 0 <= k < n ==> !IsSpace(s[k])
    ensures n < |s| ==> IsSpace(s[n])
  {
    if s == [] || IsSpace(s[0]) then 0 else 1 + TokenLen(s[1..])
  }

  /** `String#split` with no argument: the maximal runs of non-whitespace, in order. */
  function Words(s: string): (ws: seq<string>)
    ensures forall i :: 0 <= i < |ws| ==> IsWord(ws[i])
    decreases |s|
  {
    if s == [] then []
    else if IsSpace(s[0]) then Words(s[1..])
    else
      var n := TokenLen(s);
      [s[..n]] + Words(s[n..])
  }

  /** `Array#join(' ')`. */
  function JoinSpace(ws: seq<string>): string
  {
    if ws == [] then ""
    else if |ws| == 1 then ws[0]
    else ws[0] + " " + JoinSpace(ws[1..])
  }

  /** The concatenation of all strings of a list (`Array#join` with no separator). */
  function Concat(ws: seq<string>): string
  {
    if ws == [] then "" else ws[0] + Concat(ws[1..])
  }

  /** The sum of the lengths of a list of strings. */
  function SumLengths(ws: seq<string>): nat
  {
    if ws == [] then 0 else |ws[0]| + SumLengths(ws[1..])
  }

  /** The non-whitespace characters of a string, in order. */
  function NonSpace(s: string): string
  {
    if s == [] then ""
    else (if IsSpace(s[0]) then "" else [s[0]]) + NonSpace(s[1..])
  }

  /**
    The shape `split.join(' ')` leaves a text in: whitespace only as single
    spaces between two non-whitespace characters.
   */
  ghost predicate Normalized(s: string)
  {
    forall i :: 0 <= i < |s| && IsSpace(s[i]) ==>
      s[i] == ' ' && 0 < i < |s| - 1 && !IsSpace(s[i + 1])
  }

  /** A list of strings all of which are words. */
  ghost predicate AllWords(ws: seq<string>)
  {
    forall i :: 0 <= i < |ws| ==> IsWord(ws[i])
  }

  /** Concatenation regrouped. */
  lemma Regroup<T>(a: seq<T>, b: seq<T>, c: seq<T>)
    ensures a + (b + c) == (a + b) + c
  {
  }

  lemma {:induction false} ConcatLength(ws: seq<string>)
    ensures |Concat(ws)| == SumLengths(ws)
  {
    if ws != [] { ConcatLength(ws[1..]); }
  }

  lemma {:induction false} TokenLenOfWord(w: string)
    requires IsWord(w)
    ensures TokenLen(w) == |w|
    decreases |w|
  {
    if |w| > 1 {
      assert IsWord(w[1..]) by {
        forall i | 0 <= i < |w[1..]| ensures !IsSpace(w[1..][i]) { assert w[1..][i] == w[i + 1]; }
      }
      TokenLenOfWord(w[1..]);
    }
  }

  lemma {:induction false} TokenLenAppend(a: string, b: string)
    requires forall i :: 0 <= i < |a| ==> !IsSpace(a[i])
    requires b == [] || IsSpace(b[0])
    ensures TokenLen(a + b) == |a|
    decreases |a|
  {
    if a != [] {
      assert (a + b)[1..] == a[1..] + b;
      TokenLenAppend(a[1..], b);
    } else {
      assert a + b == b;
    }
  }

  /** A word followed by text that starts at whitespace is split off as the first word. */
  lemma {:induction false} WordsCons(w: string, rest: string)
    requires IsWord(w)
    requires rest == [] || IsSpace(rest[0])
    ensures Words(w + rest) == [w] + Words(rest)
  {
    TokenLenAppend(w, rest);
    assert (w + rest)[0] == w[0];
    assert (w + rest)[..|w|] == w && (w + rest)[|w|..] == rest;
  }

  /** `split` on a concatenation whose two parts meet at whitespace splits each part. */
  lemma {:induction false} WordsAppend(a: string, b: string)
    requires a == [] || b == [] || IsSpace(a[|a| - 1]) || IsSpace(b[0])
    ensures Words(a + b) == Words(a) + Words(b)
    decreases |a|
  {
    if a == [] {
      assert a + b == b;
    } else if b == [] {
      assert a + b == a;
    } else if IsSpace(a[0]) {
      assert (a + b)[1..] == a[1..] + b;
      WordsAppend(a[1..], b);
    } else {
      var n := TokenLen(a);
      var w, tail := a[..n], a[n..];
      assert a == w + tail;
      assert IsWord(w);
      if tail == [] {
        assert a == w;
        WordsCons(w, b);
        WordsCons(w, tail);
      } else {
        calc {
          Words(a + b);
          { Regroup(w, tail, b); }
          Words(w + (tail + b));
          { WordsCons(w, tail + b); }
          [w] + Words(tail + b);
          { WordsAppend(tail, b); }
          [w] + (Words(tail) + Words(b));
          { Regroup([w], Words(tail), Words(b)); }
          ([w] + Words(tail)) + Words(b);
          { WordsCons(w, tail); }
          Words(a) + Words(b);
        }
      }
    }
  }

  lemma {:induction false} WordsOfWord(w: string)
    requires IsWord(w)
    ensures Words(w) == [w]
  {
    TokenLenOfWord(w);
    assert w[..|w|] == w;
    assert w[|w|..] == [];
  }

  /** Splitting a join of words gives back the words. */
  lemma {:induction false} WordsOfJoin(ws: seq<string>)
    requires AllWords(ws)
    ensures Words(JoinSpace(ws)) == ws
  {
    if ws == [] {
    } else if |ws| == 1 {
      WordsOfWord(ws[0]);
    } else {
      var rest := JoinSpace(ws[1..]);
      assert JoinSpace(ws) == ws[0] + (" " + rest);
      WordsAppend(ws[0], " " + rest);
      WordsOfWord(ws[0]);
      assert (" " + rest)[1..] == rest;
      WordsOfJoin(ws[1..]);
    }
  }

  lemma {:induction false} JoinSpaceEnds(ws: seq<string>)
    requires AllWords(ws) && ws != []
    ensures JoinSpace(ws) != []
    ensures JoinSpace(ws)[0] == ws[0][0]
  {
    if |ws| > 1 { assert JoinSpace(ws) == ws[0] + (" " + JoinSpace(ws[1..])); }
  }

  /** Joining words with single spaces yields normalized text. */
  lemma {:induction false} NormalizedJoin(ws: seq<string>)
    requires AllWords(ws)
    ensures Normalized(JoinSpace(ws))
  {
    if |ws| == 1 {
      assert IsWord(ws[0]);
    } else if |ws| > 1 {
      var w, rest := ws[0], JoinSpace(ws[1..]);
      var j := JoinSpace(ws);
      assert j == w + " " + rest;
      NormalizedJoin(ws[1..]);
      JoinSpaceEnds(ws[1..]);
      assert IsWord(w);
      assert forall i :: 0 <= i < |w| ==> j[i] == w[i];
      forall i | |w| <= i < |j| && IsSpace(j[i])
        ensures j[i] == ' ' && 0 < i < |j| - 1 && !IsSpace(j[i + 1])
      {
        if i == |w| {
          assert j[i + 1] == rest[0];
        } else {
          assert j[i] == rest[i - |w| - 1];
          assert i + 1 < |j| ==> j[i + 1] == rest[i - |w|];
        }
      }
    }
  }

  /** A suffix of normalized text that starts at a word is normalized. */
  lemma NormalizedDrop(s: string, k: nat)
    requires Normalized(s) && k <= |s|
    requires k == |s| || !IsSpace(s[k])
    ensures Normalized(s[k..])
  {
    var r := s[k..];
    forall i | 0 <= i < |r| && IsSpace(r[i])
      ensures r[i] == ' ' && 0 < i < |r| - 1 && !IsSpace(r[i + 1])
    {
      assert r[i] == s[k + i];
      assert i + 1 < |r| ==> r[i + 1] == s[k + i + 1];
    }
  }

  /** Text that starts with a non-whitespace character has a first word. */
  lemma {:induction false} WordsNonEmpty(s: string)
    requires s != [] && !IsSpace(s[0])
    ensures Words(s) != []
  {
  }

  /** The first word of a text that has one, and the words after it. */
  lemma {:induction false} WordsFirst(s: string)
    requires s != [] && !IsSpace(s[0])
    ensures TokenLen(s) == |s| ==> Words(s) == [s]
    ensures TokenLen(s) < |s| ==>
      IsSpace(s[TokenLen(s)]) && Words(s) == [s[..TokenLen(s)]] + Words(s[TokenLen(s) + 1..])
  {
    var n := TokenLen(s);
    if n < |s| {
      var t := s[n..];
      assert t[1..] == s[n + 1..];
      assert Words(t) == Words(t[1..]);
    } else {
      assert s[..n] == s && s[n..] == [];
    }
  }

  /** Normalized text is exactly the join of its own words. */
  lemma {:induction false} JoinOfNormalized(s: string)
    requires Normalized(s)
    ensures JoinSpace(Words(s)) == s
    decreases |s|
  {
    if s != [] {
      var n := TokenLen(s);
      NormalizedSplit(s);
      if n < |s| {
        var rest := s[n + 1..];
        calc {
          JoinSpace(Words(s));
          JoinSpace([s[..n]] + Words(rest));
          { JoinOfNormalized(rest); JoinRebuild(s[..n], rest, Words(rest)); }
          s[..n] + " " + rest;
          { SpaceSplit(s, n); }
          s;
        }
      }
    }
  }

  /** A normalized text is its first word, then, if there is more, one space and a normalized rest. */
  lemma NormalizedSplit(s: string)
    requires Normalized(s) && s != []
    ensures var n := TokenLen(s);
      (n == |s| ==> JoinSpace(Words(s)) == s) &&
      (n < |s| ==> s[n] == ' ' && Normalized(s[n + 1..]) && Words(s[n + 1..]) != [] && Words(s) == [s[..n]] + Words(s[n + 1..]))
  {
    var n := TokenLen(s);
    assert !IsSpace(s[0]);
    WordsFirst(s);
    if n < |s| {
      NormalizedCut(s, n);
    } else {
      calc {
        JoinSpace(Words(s));
        JoinSpace([s]);
        s;
      }
    }
  }

  /** Past the space at `n`, a normalized text goes on with a normalized, non-empty rest. */
  lemma NormalizedCut(s: string, n: nat)
    requires Normalized(s) && n < |s| && IsSpace(s[n])
    ensures s[n] == ' ' && Normalized(s[n + 1..]) && Words(s[n + 1..]) != []
  {
    assert s[n] == ' ' && n + 1 < |s| && !IsSpace(s[n + 1]);
    NormalizedDrop(s, n + 1);
    WordsNonEmpty(s[n + 1..]);
  }

  lemma SpaceSplit(s: string, n: nat)
    requires n < |s| && s[n] == ' '
    ensures s[..n] + " " + s[n + 1..] == s
  {
  }

  lemma JoinRebuild(w: string, rest: string, ws: seq<string>)
    requires ws != [] && JoinSpace(ws) == rest
    ensures JoinSpace([w] + ws) == w + " " + rest
  {
    JoinStep(w, ws);
  }

  lemma JoinStep(w: string, ws: seq<string>)
    requires ws != []
    ensures JoinSpace([w] + ws) == w + " " + JoinSpace(ws)
  {
    assert ([w] + ws)[1..] == ws;
  }

  /** Joining one more word adds a space and the word at the end. */
  lemma {:induction false} JoinSpaceSnoc(ws: seq<string>, w: string)
    requires ws != []
    ensures JoinSpace(ws + [w]) == JoinSpace(ws) + " " + w
    decreases |ws|
  {
    if |ws| == 1 {
      assert (ws + [w])[1..] == [w];
    } else {
      assert (ws + [w])[1..] == ws[1..] + [w];
      JoinSpaceSnoc(ws[1..], w);
      Regroup(ws[0] + " ", JoinSpace(ws[1..]), " " + w);
    }
  }

  lemma {:induction false} NonSpaceAppend(a: string, b: string)
    ensures NonSpace(a + b) == NonSpace(a) + NonSpace(b)
    decreases |a|
  {
    if a == [] {
      assert a + b == b;
    } else {
      assert (a + b)[1..] == a[1..] + b;
      NonSpaceAppend(a[1..], b);
    }
  }

  /** The non-space characters of a text cut in two. */
  lemma NonSpaceSplit(t: string, n: nat)
    requires n <= |t|
    ensures NonSpace(t[..n]) + NonSpace(t[n..]) == NonSpace(t)
  {
    calc {
      NonSpace(t);
      { assert t == t[..n] + t[n..]; }
      NonSpace(t[..n] + t[n..]);
      { NonSpaceAppend(t[..n], t[n..]); }
      NonSpace(t[..n]) + NonSpace(t[n..]);
    }
  }

  lemma {:induction false} NonSpaceOfWord(w: string)
    requires forall i :: 0 <= i < |w| ==> !IsSpace(w[i])
    ensures NonSpace(w) == w
    decreases |w|
  {
    if w != [] {
      NonSpaceOfWord(w[1..]);
      assert w == [w[0]] + w[1..];
    }
  }

  /** The words of a text hold exactly its non-whitespace characters, in order. */
  lemma {:induction false} ConcatWords(s: string)
    ensures Concat(Words(s)) == NonSpace(s)
    decreases |s|
  {
    if s != [] {
      if IsSpace(s[0]) {
        ConcatWords(s[1..]);
      } else {
        var n := TokenLen(s);
        ConcatWords(s[n..]);
        assert s == s[..n] + s[n..];
        NonSpaceAppend(s[..n], s[n..]);
        NonSpaceOfWord(s[..n]);
      }
    }
  }

  /** Joining words with spaces adds nothing but whitespace. */
  lemma {:induction false} NonSpaceJoin(ws: seq<string>)
    requires AllWords(ws)
    ensures NonSpace(JoinSpace(ws)) == Concat(ws)
  {
    if |ws| == 1 {
      NonSpaceOfWord(ws[0]);
      assert Concat(ws) == ws[0] + Concat([]);
    } else if |ws| > 1 {
      var w, rest := ws[0], JoinSpace(ws[1..]);
      assert IsWord(w) && AllWords(ws[1..]);
      calc {
        NonSpace(JoinSpace(ws));
        { assert JoinSpace(ws) == w + (" " + rest); }
        NonSpace(w + (" " + rest));
        { NonSpaceAppend(w, " " + rest); NonSpaceAppend(" ", rest); }
        NonSpace(w) + (NonSpace(" ") + NonSpace(rest));
        { NonSpaceOfWord(w); assert NonSpace(" ") == []; }
        w + NonSpace(rest);
        { NonSpaceJoin(ws[1..]); }
        w + Concat(ws[1..]);
      }
    }
  }

  /** Joined with single spaces, a non-empty list of strings spans their lengths plus one space between each two. */
  lemma {:induction false} JoinSpaceLength(ws: seq<string>)
    requires ws != []
    ensures |JoinSpace(ws)| == SumLengths(ws) + |ws| - 1
  {
    if |ws| > 1 {
      JoinSpaceLength(ws[1..]);
    }
  }

  /** Rebuilding a text from its words never lengthens it. */
  lemma {:induction false} JoinWordsLength(s: string)
    ensures |JoinSpace(Words(s))| <= |s|
    decreases |s|
  {
    if s != [] {
      if IsSpace(s[0]) {
        JoinWordsLength(s[1..]);
      } else {
        var n := TokenLen(s);
        var rest := Words(s[n..]);
        assert Words(s) == [s[..n]] + rest;
        if rest != [] {
          assert s[n..][1..] == s[n + 1..];
          assert rest == Words(s[n + 1..]);
          JoinStep(s[..n], rest);
          JoinWordsLength(s[n + 1..]);
        }
      }
    }
  }
}
