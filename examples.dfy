/**
  Concrete behaviour of the stages on words the repository's own test suite
  (spec/tweet_compressor_spec.rb) uses, and on a few inputs at the edges of
  the word rules.
 */
module Examples {
  import opened Wrappers
  import opened Text
  import opened Rewrite
  import opened Compress

  /** Any URL stored for "abc <url> def" counts 20, whether it is 33 or 10 characters long. */
  lemma CharCountExample(u: string)
    ensures CharCount("abc " + u + " def", [u]) == 28
  {
    CharCountOneUrl("abc ", u, " def");
  }

  /** "JavaScript", "javascript", "JAVASCRIPT": every spelling that down-cases to "javascript" becomes "JS". */
  lemma AbbrJavaScript(w: string)
    requires Downcase(w) == "javascript"
    ensures AbbrWord(w) == "JS"
  {
    assert AbbrOf("javascript") == Some("JS");
  }

  /** Hash tags are kept as they are. */
  lemma AbbrHashTag()
    ensures AbbrWord("#string") == "#string"
  {
  }

  /** "and" in any case becomes "&". */
  lemma AbbrAnd()
    ensures AbbrWord("AND") == "&"
  {
  }

  /** The table maps "sixteen", in any case, to "15". */
  lemma AbbrSixteen(w: string)
    requires Downcase(w) == "sixteen"
    ensures AbbrWord(w) == "15"
  {
    assert TeenAbbr("sixteen") == Some("15");
  }

  /** `about` carries no word boundary: it is replaced inside a longer word. */
  lemma AboutInsideWord()
    ensures ReplaceAll(About(false), "knockabout") == "knockre"
  {
    assert "knock" + "about" + "" == "knockabout";
    FirstAltBetween(["about", "regarding", "related to", "related", "in response to"], false, "re", None, "knock", "");
  }

  /** `apostrophes` drops the apostrophe of "n't" and keeps what follows. */
  lemma ApostrophesDont()
    ensures Apostrophes("don't") == "dont"
  {
    assert "do" + "n't" + "" == "don't";
    FirstAltBetween(["n't"], true, "nt", None, "do", "");
  }

  /**
    The `apostrophes` test sentence: the three "n't" lose their apostrophe,
    and "not" is left alone.
   */
  lemma ApostrophesSentence()
    ensures Apostrophes("It's " + ("n" + ("ot; I wo" + "n't" + (", you ca" + "n't" + (". So do" + "n't" + ".")))))
         == "It's " + ("n" + ("ot; I wo" + "nt" + (", you ca" + "nt" + (". So do" + "nt" + "."))))
  {
    NoStartsHeads(["n't"], true, "nt", "n", "It's ");
    NoStartsHeads(["n't"], true, "nt", "n", "ot; I wo");
    NoStartsHeads(["n't"], true, "nt", "n", ", you ca");
    NoStartsHeads(["n't"], true, "nt", "n", ". So do");
    NoStartsHeads(["n't"], true, "nt", "n", ".");
    ApostrophesThree("It's " + ("n" + ("ot; I wo" + "n't" + (", you ca" + "n't" + (". So do" + "n't" + ".")))),
                     "It's " + ("n" + ("ot; I wo" + "nt" + (", you ca" + "nt" + (". So do" + "nt" + ".")))),
                     "It's ", 'n', "ot; I wo", ", you ca", ". So do", ".");
  }

  /**
    Three "n't" after a stretch, a character that begins no "n't", and
    stretches where none can begin: each becomes "nt".
   */
  lemma ApostrophesThree(s: string, o: string, a0: string, c: char, a1: string, a2: string, a3: string, a4: string)
    requires a1 != [] && !Same(a1[0], '\'', true)
    requires NoStarts(Alts(["n't"], true, "nt"), a0) && NoStarts(Alts(["n't"], true, "nt"), a1)
    requires NoStarts(Alts(["n't"], true, "nt"), a2) && NoStarts(Alts(["n't"], true, "nt"), a3)
    requires NoStarts(Alts(["n't"], true, "nt"), a4)
    requires s == a0 + ([c] + (a1 + "n't" + (a2 + "n't" + (a3 + "n't" + a4))))
    requires o == a0 + ([c] + (a1 + "nt" + (a2 + "nt" + (a3 + "nt" + a4))))
    ensures Apostrophes(s) == o
  {
    var alts := ["n't"];
    var r := Alts(alts, true, "nt");
    var rest := a1 + "n't" + (a2 + "n't" + (a3 + "n't" + a4));
    ScanSkip(r, None, a0, [c] + rest);
    assert ([c] + rest)[1] == a1[0];
    StartsDiffer([c] + rest, "n't", true, 1);
    AltsMissAt(alts, true, "nt", After(None, a0), c, rest);
    AltsThreeHits(alts, true, "nt", Some(c), a1, 0, a2, 0, a3, 0, a4);
  }

  /** Where no alternative fits at the front, `gsub` copies one character and moves on. */
  lemma AltsMissAt(alts: seq<string>, fold: bool, rep: string, p: Option<char>, c: char, b: string)
    requires forall j :: 0 <= j < |alts| ==> !Accepts([c] + b, alts[j], fold)
    ensures Scan(Alts(alts, fold, rep), p, [c] + b) == [c] + Scan(Alts(alts, fold, rep), Some(c), b)
  {
    var t := [c] + b;
    assert t[0] == c && t[1..] == b;
    ScanMiss(Alts(alts, fold, rep), p, t);
  }

  /** `\bto` has no closing word boundary: "today" becomes "2day". */
  lemma ToInsideWord()
    ensures ReplaceAll(TextingRules[7], "to" + "day") == "2" + "day"
  {
    BoundedFront("to", "2", "day");
  }

  /** A `\bword` rule without a closing boundary, on a text that begins with the word. */
  lemma BoundedFront(word: string, rep: string, b: string)
    requires word != [] && IsWordChar(word[0])
    requires NoStarts(Bounded(word, false, rep), b)
    ensures Scan(Bounded(word, false, rep), None, word + b) == rep + b
  {
    var r, t := Bounded(word, false, rep), word + b;
    StartsSelf(word, false);
    StartsExtend(word, b, word, false);
    assert t[0] == word[0] && t[|word| - 1] == word[|word| - 1] && t[|word|..] == b;
    ScanHit(r, None, t, Hit(|word|, rep));
    NoStartsScan(r, Some(word[|word| - 1]), b);
  }

  /** `you` has no word boundary: "yours" becomes "urs". */
  lemma YouInsideWord()
    ensures ReplaceAll(TextingRules[9], "you" + "rs") == "u" + "rs"
  {
    FirstAltBetween(["you"], false, "u", None, "", "rs");
    assert "" + "you" + "rs" == "you" + "rs";
    assert "" + "u" + "rs" == "u" + "rs";
  }

  /** `is (?:an?|the)` has no word boundary: "this a" becomes "th=". */
  lemma IsArticleInsideWord()
    ensures ReplaceAll(IsArticle, "th" + "is a") == "th" + "="
  {
    var alts := ["is an", "is a", "is the"];
    NoStartsHeads(alts, false, "=", "i", "th");
    AltBetween(alts, false, "=", None, "th", 1, "");
    assert alts[1] == "is a" && Scan(IsArticle, Some('a'), "") == "";
    assert "th" + "is a" + "" == "th" + "is a" && "th" + "=" + "" == "th" + "=";
  }

  /** `correct_grammar` replaces the whole "s's", so "Chris's" loses its last "s" too. */
  lemma GrammarChris()
    ensures CorrectGrammar("Chris's") == "Chri'"
  {
    assert "Chri" + "s's" + "" == "Chris's";
    FirstAltBetween(["s's"], true, "'", None, "Chri", "");
  }

  /** The lookahead of the "I will" rule looks for "=", so "I will not" is not kept back. */
  lemma IWillNotMatch(p: Option<char>, t: string)
    ensures Match(IWill, p, "I will not" + t) == Some(Hit(6, "I'll"))
  {
    var s := "I will not" + t;
    assert s == "I will" + (" not" + t);
    assert Starts("I will", "i will", true);
    StartsExtend("I will", " not" + t, "i will", true);
    assert s[6..] == " not" + t;
    assert (" not" + t)[0] == ' ';
  }

  /** "I will not", followed by anything the rule cannot start on, becomes "I'll not". */
  lemma IWillNot(t: string)
    requires NoStarts(IWill, t)
    ensures ReplaceAll(IWill, "I will not" + t) == "I'll not" + t
  {
    var s, rest := "I will not" + t, " not" + t;
    assert s[6..] == rest && s[5] == 'l';
    calc {
      ReplaceAll(IWill, s);
      { IWillNotMatch(None, t); ScanHit(IWill, None, s, Hit(6, "I'll")); }
      "I'll" + Scan(IWill, Some('l'), rest);
      { NotAfterWill(t); }
      "I'll" + (" not" + t);
      "I'll not" + t;
    }
  }

  /** After "I will", the rest " not" + t holds nothing the rule starts on. */
  lemma NotAfterWill(t: string)
    requires NoStarts(IWill, t)
    ensures Scan(IWill, Some('l'), " not" + t) == " not" + t
  {
    assert NoStarts(IWill, " not");
    ScanSkip(IWill, Some('l'), " not", t);
    NoStartsScan(IWill, Some('t'), t);
  }

  /** "I would", the first rule of `contractions`, becomes "I'd" before any text without an "i". */
  lemma ContractWould(b: string)
    requires NoStarts(Alts(["I would"], true, "I'd"), b)
    ensures ReplaceAll(ContractionRules[0], "I would" + b) == "I'd" + b
  {
    assert ContractionRules[0] == Alts(["I would"], true, "I'd");
    assert "" + "I would" + b == "I would" + b;
    FirstAltBetween(["I would"], true, "I'd", None, "", b);
    assert "" + "I'd" + b == "I'd" + b;
  }

  /** The last rule of `contractions` keeps the first letter and spells the result "musn't". */
  lemma ContractMust()
    ensures ReplaceAll(ContractionRules[8], "You must not.") == "You musn't."
  {
    assert ContractionRules[8] == Cap('m', ["ust not"], "usn't");
    assert "You " + ("m" + "ust not") + "." == "You must not.";
    assert "You " + ("m" + "usn't") + "." == "You musn't.";
    CapBetween('m', ["ust not"], "usn't", None, "You ", 'm', ".");
  }

  /** `(d)o(es)? not` keeps a capital first letter. */
  lemma ContractDoesNot()
    ensures ReplaceAll(DoNot, "Does not.") == "Doesn't."
  {
    assert "" + ("D" + "oes not") + "." == "Does not.";
    assert "" + ("D" + "oesn't") + "." == "Doesn't.";
    DoesNotBetween(None, "", 'D', ".");
  }

  /** Lower-case doubled consonants are cut to one. */
  lemma DedupeConsonantsLower()
    ensures DedupeConsonantsWord("llc") == "lc"
  {
  }

  /** The other two test words. */
  lemma DedupeConsonantsBbc()
    ensures DedupeConsonantsWord("bbc") == "bc"
  {
  }

  lemma DedupeConsonantsCcid()
    ensures DedupeConsonantsWord("ccid") == "cid"
  {
    DoubledFront('c', "id");
    assert "ccid" == ['c', 'c'] + "id" && "cid" == ['c'] + "id";
  }

  /** A doubled consonant at the front of a word without other repeats is cut to one. */
  lemma DoubledFront(c: char, t: string)
    requires InConsClass(c) && (t == [] || t[0] != c)
    requires forall j :: 0 <= j < |t| ==> !RepeatAt(t, j)
    ensures DedupeConsonantsWord([c, c] + t) == [c] + t
  {
    var w := [c, c] + t;
    assert w[0] == c && w[1] == c && w[2..] == t;
    assert RunLen(w, c) == 2 by {
      assert RunLen(t, c) == 0;
      assert w[1..][1..] == t;
    }
    assert Collapse(w, [c]) == [c] + Collapse(t, [c]);
    CollapseNoRepeat(t, [c]);
    assert RepeatAt(w, 0);
    DedupeConsonantsSpec(w);
  }

  /** Without a repeat, `Collapse` changes nothing. */
  lemma {:induction false} CollapseNoRepeat(s: string, rep: string)
    requires forall j :: 0 <= j < |s| ==> !RepeatAt(s, j)
    ensures Collapse(s, rep) == s
    decreases |s|
  {
    if s != [] {
      var n := RunLen(s, s[0]);
      assert InConsClass(s[0]) ==> n == 1 by {
        assert !RepeatAt(s, 0);
      }
      assert s[..n] + s[n..] == s;
      forall j | 0 <= j < |s[n..]|
        ensures !RepeatAt(s[n..], j)
      {
        assert !RepeatAt(s, j + n);
      }
      CollapseNoRepeat(s[n..], rep);
    }
  }

  /** Upper-case consonants are not in the class. */
  lemma DedupeConsonantsUpper()
    ensures DedupeConsonantsWord("LLC") == "LLC"
  {
  }

  /** A doubled mark is cut to one. */
  lemma DedupePunctDouble()
    ensures DedupePunctWord("!!") == "!"
  {
  }

  /** "sleeping" loses its "in"; hash tags, "fling" and words of four letters keep theirs. */
  lemma IngExample()
    ensures IngWord("sleeping") == "sleepg"
    ensures IngWord("#sleeping") == "#sleeping"
    ensures IngWord("fling") == "fling"
    ensures IngWord("king") == "king"
  {
  }

  /** Words shorter than four letters and hash tags keep their vowels. */
  lemma RemoveVowelsExample()
    ensures RemoveVowelsWord("tea") == "tea"
    ensures RemoveVowelsWord("#boat") == "#boat"
  {
  }

  /** A longer word keeps its first letter, vowel or not, and loses every other lower-case vowel. */
  lemma RemoveVowelsAboard(w: string)
    requires w == "aboard"
    ensures RemoveVowelsWord(w) == "abrd"
  {
    assert |w| == 6 && w[0] == 'a' && w[1..] == "board";
    InnerVowelAll(w);
    DropBoard();
    assert ['a'] + "brd" == "abrd";
  }

  /** The vowels of "board" go. */
  lemma DropBoard()
    ensures DropVowels("board") == "brd"
  {
  }

  /** The space after a full stop goes. */
  lemma SentencesExample()
    ensures Sentences("3. 4") == "3.4"
  {
  }

  /** The three marks of "1 2 3. 4 5 6, 7 8 9! 0" each lose the space after them. */
  lemma SentencesThreeMarks()
    ensures Sentences("1 2 3" + ". 4" + " 5 6" + ", 7" + " 8 9" + "! 0") == "1 2 3" + ".4" + " 5 6" + ",7" + " 8 9" + "!0"
  {
    SentencesThree("1 2 3" + ". 4" + " 5 6" + ", 7" + " 8 9" + "! 0", "1 2 3" + ".4" + " 5 6" + ",7" + " 8 9" + "!0",
      "1 2 3", '.', '4', " 5 6", ',', '7', " 8 9", '!', '0');
  }

  /** Three marks, each followed by one space, between stretches without punctuation. */
  lemma SentencesThree(s: string, o: string, a1: string, m1: char, c1: char, a2: string, m2: char, c2: char, a3: string, m3: char, c3: char)
    requires NoStarts(PunctSpace, a1) && NoStarts(PunctSpace, a2) && NoStarts(PunctSpace, a3)
    requires IsPunct(m1) && IsPunct(m2) && IsPunct(m3)
    requires !IsSpace(c1) && !IsSpace(c2) && !IsSpace(c3)
    requires s == a1 + [m1, ' ', c1] + a2 + [m2, ' ', c2] + a3 + [m3, ' ', c3]
    requires o == a1 + [m1, c1] + a2 + [m2, c2] + a3 + [m3, c3]
    ensures Sentences(s) == o
  {
    var e := Scan(PunctSpace, Some(c3), "");
    assert e == [];
    var r2 := a3 + ([m3] + " " + [c3] + "");
    var r1 := a2 + ([m2] + " " + [c2] + r2);
    var t := a1 + ([m1] + " " + [c1] + r1);
    assert t == s;
    calc {
      Sentences(t);
      Scan(PunctSpace, None, t);
      { SentencesBetween(None, a1, m1, " ", c1, r1); }
      a1 + ([m1, c1] + Scan(PunctSpace, Some(c1), r1));
      { SentencesBetween(Some(c1), a2, m2, " ", c2, r2); }
      a1 + ([m1, c1] + (a2 + ([m2, c2] + Scan(PunctSpace, Some(c2), r2))));
      { SentencesBetween(Some(c2), a3, m3, " ", c3, ""); }
      a1 + ([m1, c1] + (a2 + ([m2, c2] + (a3 + ([m3, c3] + e)))));
      o;
    }
  }

  /** A text that differs from `lit` at some position does not begin with it. */
  lemma {:induction false} StartsDiffer(t: string, lit: string, fold: bool, i: nat)
    requires i < |lit| && i < |t| && !Same(t[i], lit[i], fold)
    ensures !Starts(t, lit, fold)
  {
    if i > 0 && t != [] {
      StartsDiffer(t[1..], lit[1..], fold, i - 1);
    }
  }

  /** No alternative can begin in a text none of whose characters is one of the alternatives' first characters. */
  lemma NoStartsHeads(alts: seq<string>, fold: bool, rep: string, hs: string, t: string)
    requires forall j :: 0 <= j < |alts| && alts[j] != [] ==> alts[j][0] in hs
    requires forall k, i :: 0 <= k < |t| && 0 <= i < |hs| ==> !Same(hs[i], t[k], fold)
    ensures NoStarts(Alts(alts, fold, rep), t)
  {
  }

  /** Two matches of an alternation, each after a stretch where none can begin. */
  lemma AltsTwoHits(alts: seq<string>, fold: bool, rep: string, p: Option<char>,
                    a1: string, k1: nat, a2: string, k2: nat, a3: string)
    requires k1 < |alts| && alts[k1] != [] && k2 < |alts| && alts[k2] != []
    requires NoStarts(Alts(alts, fold, rep), a1) && NoStarts(Alts(alts, fold, rep), a2)
    requires NoStarts(Alts(alts, fold, rep), a3)
    requires forall j :: 0 <= j < k1 ==> !Accepts(alts[k1] + (a2 + alts[k2] + a3), alts[j], fold)
    requires forall j :: 0 <= j < k2 ==> !Accepts(alts[k2] + a3, alts[j], fold)
    ensures Scan(Alts(alts, fold, rep), p, a1 + alts[k1] + (a2 + alts[k2] + a3)) == a1 + rep + (a2 + rep + a3)
  {
    var r := Alts(alts, fold, rep);
    AltBetween(alts, fold, rep, p, a1, k1, a2 + alts[k2] + a3);
    AltBetween(alts, fold, rep, Some(alts[k1][|alts[k1]| - 1]), a2, k2, a3);
    NoStartsScan(r, Some(alts[k2][|alts[k2]| - 1]), a3);
  }

  /** Three matches of an alternation, each after a stretch where none can begin. */
  lemma AltsThreeHits(alts: seq<string>, fold: bool, rep: string, p: Option<char>,
                      a1: string, k1: nat, a2: string, k2: nat, a3: string, k3: nat, a4: string)
    requires k1 < |alts| && alts[k1] != [] && k2 < |alts| && alts[k2] != [] && k3 < |alts| && alts[k3] != []
    requires NoStarts(Alts(alts, fold, rep), a1) && NoStarts(Alts(alts, fold, rep), a2)
    requires NoStarts(Alts(alts, fold, rep), a3) && NoStarts(Alts(alts, fold, rep), a4)
    requires forall j :: 0 <= j < k1 ==> !Accepts(alts[k1] + (a2 + alts[k2] + (a3 + alts[k3] + a4)), alts[j], fold)
    requires forall j :: 0 <= j < k2 ==> !Accepts(alts[k2] + (a3 + alts[k3] + a4), alts[j], fold)
    requires forall j :: 0 <= j < k3 ==> !Accepts(alts[k3] + a4, alts[j], fold)
    ensures Scan(Alts(alts, fold, rep), p, a1 + alts[k1] + (a2 + alts[k2] + (a3 + alts[k3] + a4)))
         == a1 + rep + (a2 + rep + (a3 + rep + a4))
  {
    AltBetween(alts, fold, rep, p, a1, k1, a2 + alts[k2] + (a3 + alts[k3] + a4));
    AltsTwoHits(alts, fold, rep, Some(alts[k1][|alts[k1]| - 1]), a2, k2, a3, k3, a4);
  }
  /** `is a`, `is an` and `is the` each become "=". */
  lemma IsArticleExample()
    ensures ReplaceAll(IsArticle, "foo " + "is a" + (" bar. bar " + "is an" + (" afoo. baz " + "is the" + " quux")))
         == "foo " + "=" + (" bar. bar " + "=" + (" afoo. baz " + "=" + " quux"))
  {
    var t1, t3 := "is a" + (" bar. bar " + "is an" + (" afoo. baz " + "is the" + " quux")), "is the" + " quux";
    var alts := ["is an", "is a", "is the"];
    StartsDiffer(t1, alts[0], false, 4);
    StartsDiffer(t3, alts[0], false, 3);
    StartsDiffer(t3, alts[1], false, 3);
    NoStartsHeads(alts, false, "=", "i", "foo ");
    NoStartsHeads(alts, false, "=", "i", " bar. bar ");
    NoStartsHeads(alts, false, "=", "i", " afoo. baz ");
    NoStartsHeads(alts, false, "=", "i", " quux");
    AltsThreeHits(["is an", "is a", "is the"], false, "=", None, "foo ", 1, " bar. bar ", 0, " afoo. baz ", 2, " quux");
  }
  /** `about` and `related to` each become "re". */
  lemma AboutExample()
    ensures ReplaceAll(About(true), "1 " + "about" + (" 2. 3 " + "related to" + " 4")) == "1 " + "re" + (" 2. 3 " + "re" + " 4")
  {
    var alts := ["about", "regarding", "related to", "related", "in response to"];
    var t2 := "related to" + " 4";
    StartsDiffer(t2, alts[0], true, 0);
    StartsDiffer(t2, alts[1], true, 2);
    NoStartsHeads(alts, true, "re", "ari", "1 ");
    NoStartsHeads(alts, true, "re", "ari", " 2. 3 ");
    NoStartsHeads(alts, true, "re", "ari", " 4");
    AltsTwoHits(alts, true, "re", None, "1 ", 0, " 2. 3 ", 2, " 4");
  }
  /** The colon after a retweeted handle goes. */
  lemma RetweetExample()
    ensures ReplaceAll(Retweet, "Foo bar. " + ("RT @" + "_baz_quux_" + ":") + " More fubar.")
         == "Foo bar. " + ("RT @" + "_baz_quux_") + " More fubar."
  {
    RetweetBetween(None, "Foo bar. ", "_baz_quux_", " More fubar.");
  }
  /** "llc bbc ccid": each word keeps one of its doubled lower-case consonants. */
  lemma DedupeConsonantsWords()
    ensures DedupeConsonants("llc" + " " + "bbc" + " " + "ccid") == "lc" + " " + "bc" + " " + "cid"
  {
    MapWordsThree(DedupeConsonantsWord, "llc", "bbc", "ccid");
    DedupeConsonantsLower();
    DedupeConsonantsBbc();
    DedupeConsonantsCcid();
  }

  /** A word rewrite over three words. */
  lemma MapWordsThree(f: string -> string, w1: string, w2: string, w3: string)
    requires IsWord(w1) && IsWord(w2) && IsWord(w3)
    ensures MapWords(f, w1 + " " + w2 + " " + w3) == f(w1) + " " + f(w2) + " " + f(w3)
  {
    var ws := [w1, w2, w3];
    JoinSpaceSnoc([w1], w2);
    JoinSpaceSnoc([w1, w2], w3);
    MapWordsOfJoin(f, ws);
    assert Map(f, ws) == [f(w1), f(w2), f(w3)];
    JoinSpaceSnoc([f(w1)], f(w2));
    JoinSpaceSnoc([f(w1), f(w2)], f(w3));
  }

  /** "LLC BBC CCID" is left as it is. */
  lemma DedupeConsonantsUpperWords()
    ensures DedupeConsonants("LLC" + " " + "BBC" + " " + "CCID") == "LLC" + " " + "BBC" + " " + "CCID"
  {
    MapWordsThree(DedupeConsonantsWord, "LLC", "BBC", "CCID");
    DedupeConsonantsUpper();
    DedupeConsonantsUpperRest();
  }

  /** The other two upper-case test words. */
  lemma DedupeConsonantsUpperRest()
    ensures DedupeConsonantsWord("BBC") == "BBC"
    ensures DedupeConsonantsWord("CCID") == "CCID"
  {
    OutsideClassKept("BBC");
    OutsideClassKept("CCID");
  }

  /** A word without a character of the consonant class is kept. */
  lemma OutsideClassKept(w: string)
    requires forall i :: 0 <= i < |w| ==> !InConsClass(w[i])
    ensures DedupeConsonantsWord(w) == w
  {
    DedupeConsonantsSpec(w);
  }

  /** "!!! ... ,,, ?! .!": runs of one mark are cut to one; an ellipsis and mixed marks stay. */
  lemma DedupePunctWords()
    ensures DedupePunct("!!!" + " " + "..." + " " + ",,," + " " + "?!" + " " + ".!")
         == "!" + " " + "..." + " " + "," + " " + "?!" + " " + ".!"
  {
    MapWordsFive(DedupePunctWord, "!!!", "...", ",,,", "?!", ".!");
    DedupePunctTriple('!');
    DedupePunctTriple(',');
    DedupePunctEllipsis();
    DedupePunctMixed('?', '!');
    DedupePunctMixed('.', '!');
  }

  /** Three copies of a mark other than '.' and '-' become one. */
  lemma DedupePunctTriple(c: char)
    requires IsPunct(c) && c != '.' && c != '-'
    ensures DedupePunctWord([c, c, c]) == [c]
  {
    DedupePunctPlain([c, c, c]);
    SqueezeTriple(c);
  }

  /** Three copies of a mark squeeze to one. */
  lemma SqueezeTriple(c: char)
    requires IsPunct(c)
    ensures Squeeze(None, [c, c, c]) == [c]
  {
    var w := [c, c, c];
    assert w[1..] == [c, c];
    SqueezeSkip(c, w[1..], 2);
    assert w[1..][2..] == [];
  }

  /** Two different marks, the second neither '.' nor '-', are kept. */
  lemma DedupePunctMixed(a: char, b: char)
    requires a != b && b != '.' && b != '-'
    ensures DedupePunctWord([a, b]) == [a, b]
  {
    var w := [a, b];
    DedupePunctSpec(w);
    PairRunsKept(a, b);
    assert Squeeze(None, w) == w by {
      assert w[1..] == [b];
      assert Squeeze(Some(a), [b]) == [b];
    }
  }

  /** Two different marks, the second neither '.' nor '-', pass the run rewrites and the guard. */
  lemma PairRunsKept(a: char, b: char)
    requires a != b && b != '.' && b != '-'
    ensures RunsOfDots([a, b]) == [a, b]
    ensures !Contains([a, b], "...") && !Contains([a, b], "--")
  {
    var w := [a, b];
    assert w[1..] == [b];
    SquashAbsent([b], '.', 4, "...");
    if a == '.' {
      assert RunLen(w, a) == 1;
      SquashShort(w, a, 4, "...");
    } else {
      SquashAbsent(w, '.', 4, "...");
    }
    if a == '-' {
      HyphenFirst(b);
    } else {
      SquashAbsent(w, '-', 3, "--");
      ContainsChar(w, "--", '-');
    }
    NotContainsShort(w, "...");
  }

  /** A single hyphen before another mark is neither squashed nor part of "--". */
  lemma HyphenFirst(b: char)
    requires b != '-'
    ensures Squash(['-', b], '-', 3, "--") == ['-', b]
    ensures !Contains(['-', b], "--")
  {
    var w := ['-', b];
    assert w[1..] == [b];
    assert RunLen(w, '-') == 1;
    SquashShort(w, '-', 3, "--");
    SquashAbsent([b], '-', 3, "--");
    assert !Starts(w, "--", false) by { StartsExact(w, "--"); }
    NotContainsShort([b], "--");
  }

  /** An ellipsis on its own is kept. */
  lemma DedupePunctEllipsis()
    ensures DedupePunctWord("...") == "..."
  {
    DedupePunctSpec("...");
    EllipsisAlone();
  }

  /** A run of three dots is kept, and contains "...". */
  lemma EllipsisAlone()
    ensures RunsOfDots("...") == "..."
    ensures Contains("...", "...")
  {
    StartsSelf("...", false);
  }

  /** A word with neither '.' nor '-' is only squeezed. */
  lemma DedupePunctPlain(w: string)
    requires '.' !in w && '-' !in w
    ensures DedupePunctWord(w) == Squeeze(None, w)
  {
    DedupePunctSpec(w);
    SquashAbsent(w, '.', 4, "...");
    SquashAbsent(w, '-', 3, "--");
    ContainsChar(w, "...", '.');
    ContainsChar(w, "--", '-');
  }

  /** A text shorter than the literal does not contain it. */
  lemma {:induction false} NotContainsShort(t: string, lit: string)
    requires |t| < |lit|
    ensures !Contains(t, lit)
  {
    if t != [] {
      NotContainsShort(t[1..], lit);
    }
  }

  /** `Squash` leaves a text without `ch` as it is. */
  lemma {:induction false} SquashAbsent(s: string, ch: char, min: nat, rep: string)
    requires ch !in s
    ensures Squash(s, ch, min, rep) == s
  {
    if s != [] {
      assert s[0] != ch;
      SquashAbsent(s[1..], ch, min, rep);
    }
  }

  /** A word rewrite over five words. */
  lemma MapWordsFive(f: string -> string, w1: string, w2: string, w3: string, w4: string, w5: string)
    requires IsWord(w1) && IsWord(w2) && IsWord(w3) && IsWord(w4) && IsWord(w5)
    ensures MapWords(f, w1 + " " + w2 + " " + w3 + " " + w4 + " " + w5)
         == f(w1) + " " + f(w2) + " " + f(w3) + " " + f(w4) + " " + f(w5)
  {
    var ws := [w1, w2, w3, w4, w5];
    JoinFive(w1, w2, w3, w4, w5);
    MapWordsOfJoin(f, ws);
    assert Map(f, ws) == [f(w1), f(w2), f(w3), f(w4), f(w5)];
    JoinFive(f(w1), f(w2), f(w3), f(w4), f(w5));
  }

  /** Four words joined by single spaces, one `JoinSpaceSnoc` step at a time. */
  lemma JoinFour(w1: string, w2: string, w3: string, w4: string)
    ensures JoinSpace([w1, w2, w3, w4]) == w1 + " " + w2 + " " + w3 + " " + w4
  {
    JoinSpaceSnoc([w1], w2);
    assert [w1] + [w2] == [w1, w2];
    JoinSpaceSnoc([w1, w2], w3);
    assert [w1, w2] + [w3] == [w1, w2, w3];
    JoinSpaceSnoc([w1, w2, w3], w4);
    assert [w1, w2, w3] + [w4] == [w1, w2, w3, w4];
  }

  /** Five words joined by single spaces: four, then one more. */
  lemma JoinFive(w1: string, w2: string, w3: string, w4: string, w5: string)
    ensures JoinSpace([w1, w2, w3, w4, w5]) == w1 + " " + w2 + " " + w3 + " " + w4 + " " + w5
  {
    JoinFour(w1, w2, w3, w4);
    JoinSpaceSnoc([w1, w2, w3, w4], w5);
    assert [w1, w2, w3, w4] + [w5] == [w1, w2, w3, w4, w5];
  }

}

/** The repository's `url_preserve` and `url_restore` tests on "abc http://123 def http://456". */
module UrlExamples {
  import opened Wrappers
  import opened Text
  import opened Rewrite
  import opened Compress
  import opened Urls
  import Examples
  import T = TweetCompressor

  /**
    "abc http://123 def http://456": `url_preserve` finds both URLs and puts
    the placeholder in their places; `url_restore` puts them back.
   */
  lemma PreserveRestoreExample()
    ensures var u1, u2 := "http://" + "123", "http://" + "456";
      var text := "abc" + " " + u1 + " " + "def" + " " + u2;
      var masked := "abc" + " " + UrlHolder + " " + "def" + " " + UrlHolder;
      ScanUrls(text) == [u1, u2] && MaskAll([u1, u2], text) == masked && RestoreAll([u1, u2], masked) == text
  {
    TwoUrls("abc", "123", "def", "456");
  }

  /** The same on the tweet's state: the text and the list of its URLs. */
  lemma TweetPreserveRestoreExample()
    ensures var u1, u2 := "http://" + "123", "http://" + "456";
      var text := "abc" + " " + u1 + " " + "def" + " " + u2;
      var masked := "abc" + " " + UrlHolder + " " + "def" + " " + UrlHolder;
      T.Preserve(text) == T.State(masked, [u1, u2]) && T.Restore(T.State(masked, [u1, u2])) == T.State(text, [u1, u2])
  {
    PreserveRestoreExample();
  }

  /** Two words that are not URLs and two "http" URLs of one length, alternating. */
  lemma TwoUrls(a: string, d1: string, b: string, d2: string)
    requires IsWord(a) && IsWord(b) && ':' !in a && ':' !in b
    requires Digits(d1) && Digits(d2) && |d1| == |d2| < 13 && |a| <= 7 + |d1| && |b| <= 7 + |d1|
    ensures var u1, u2 := "http://" + d1, "http://" + d2;
      var s := a + " " + u1 + " " + b + " " + u2;
      var masked := a + " " + UrlHolder + " " + b + " " + UrlHolder;
      ScanUrls(s) == [u1, u2] && MaskAll([u1, u2], s) == masked && RestoreAll([u1, u2], masked) == s
  {
    var u1, u2 := "http://" + d1, "http://" + d2;
    HttpUrlWord(d1);
    HttpUrlWord(d2);
    var ws := [a, u1, b, u2];
    var hs := [a, UrlHolder, b, UrlHolder];
    TwoUrlsRoundTrip(a, u1, b, u2);
    PreserveJoin(ws);
    RoundTrip(ws);
    TwoUrlsMasked(a, u1, b, u2);
    Examples.JoinFour(a, u1, b, u2);
    Examples.JoinFour(a, UrlHolder, b, UrlHolder);
  }

  /** A non-empty string of digits. */
  predicate Digits(d: string)
  {
    d != [] && forall i :: 0 <= i < |d| ==> IsDigit(d[i])
  }

  /** "http://" followed by digits is a word and a URL word. */
  lemma HttpUrlWord(d: string)
    requires Digits(d)
    ensures IsWord("http://" + d) && IsUrlWord("http://" + d)
  {
    HttpUrl(d);
    UrlIsUrlWord("http://" + d);
  }

  /** The four words meet the conditions of the round trip. */
  lemma TwoUrlsRoundTrip(a: string, u1: string, b: string, u2: string)
    requires IsWord(a) && IsWord(b) && ':' !in a && ':' !in b
    requires IsWord(u1) && IsWord(u2) && IsUrlWord(u1) && IsUrlWord(u2) && |u1| == |u2| < |UrlHolder|
    requires |a| <= |u1| && |b| <= |u1|
    ensures RoundTrips([a, u1, b, u2])
  {
    var ws := [a, u1, b, u2];
    TwoUrlsBare(a, u1, b, u2);
    assert forall i :: 0 <= i < |ws| ==> |ws[i]| < |UrlHolder|;
    ShortNoHolder(ws);
    TwoUrlsLengths(a, u1, b, u2);
    SameLengthStandAlone(ws, |u1|);
  }

  /** The four words are words, and the two that begin with a URL are URL words. */
  lemma TwoUrlsBare(a: string, u1: string, b: string, u2: string)
    requires IsWord(a) && IsWord(b) && ':' !in a && ':' !in b
    requires IsWord(u1) && IsWord(u2) && IsUrlWord(u1) && IsUrlWord(u2)
    ensures AllWords([a, u1, b, u2]) && BareUrls([a, u1, b, u2])
  {
    var ws := [a, u1, b, u2];
    UrlOfColon(a);
    UrlOfColon(b);
    forall i | 0 <= i < |ws| && UrlOf(ws[i]).Some? ensures IsUrlWord(ws[i]) {
      assert i == 1 || i == 3;
    }
  }

  /** Only the two URLs, of one length, are URL words, and no word is longer. */
  lemma TwoUrlsLengths(a: string, u1: string, b: string, u2: string)
    requires ':' !in a && ':' !in b && |u1| == |u2| && |a| <= |u1| && |b| <= |u1|
    ensures forall i :: 0 <= i < 4 ==> |[a, u1, b, u2][i]| <= |u1|
    ensures forall j :: 0 <= j < 4 && IsUrlWord([a, u1, b, u2][j]) ==> |[a, u1, b, u2][j]| == |u1|
  {
    UrlOfColon(a);
    UrlOfColon(b);
  }

  /** Words shorter than the placeholder do not contain it. */
  lemma ShortNoHolder(ws: seq<string>)
    requires forall i :: 0 <= i < |ws| ==> |ws[i]| < |UrlHolder|
    ensures NoHolder(ws)
  {
    forall i | 0 <= i < |ws| ensures !Contains(ws[i], UrlHolder) {
      Examples.NotContainsShort(ws[i], UrlHolder);
    }
  }

  /** When every URL word is `n` long and no word is longer, no URL occurs inside another word. */
  lemma SameLengthStandAlone(ws: seq<string>, n: nat)
    requires forall i :: 0 <= i < |ws| ==> |ws[i]| <= n
    requires forall j :: 0 <= j < |ws| && IsUrlWord(ws[j]) ==> |ws[j]| == n
    ensures UrlsStandAlone(ws)
  {
    forall i, j | 0 <= i < |ws| && 0 <= j < |ws| && IsUrlWord(ws[j]) && Contains(ws[i], ws[j])
      ensures ws[i] == ws[j]
    {
      ContainsNoLonger(ws[i], ws[j]);
    }
  }

  /** The URLs of the four words, and the words with both URLs masked. */
  lemma TwoUrlsMasked(a: string, u1: string, b: string, u2: string)
    requires ':' !in a && ':' !in b && IsUrlWord(u1) && IsUrlWord(u2)
    ensures UrlsOf([a, u1, b, u2]) == [u1, u2]
    ensures Unmask([a, u1, b, u2], 0) == [a, UrlHolder, b, UrlHolder]
  {
    var ws := [a, u1, b, u2];
    var hs := [a, UrlHolder, b, UrlHolder];
    UrlOfColon(a);
    UrlOfColon(b);
    assert UrlsOf(ws[3..]) == [u2];
    assert UrlsOf(ws[2..]) == [u2];
    assert UrlsOf(ws[1..]) == [u1, u2];
    assert Unmask(ws[3..], 0) == hs[3..];
    assert Unmask(ws[2..], 0) == hs[2..];
    assert Unmask(ws[1..], 0) == hs[1..];
  }

  /** A text no longer than the literal contains it only by being it. */
  lemma ContainsNoLonger(t: string, lit: string)
    requires |t| <= |lit|
    ensures Contains(t, lit) ==> t == lit
  {
    if Contains(t, lit) {
      if Starts(t, lit, false) {
        StartsExact(t, lit);
      } else {
        Examples.NotContainsShort(t[1..], lit);
      }
    }
  }

  /** "http://" followed by digits is a URL. */
  lemma HttpUrl(d: string)
    requires Digits(d)
    ensures IsUrl("http://" + d)
  {
    var u := "http://" + d;
    assert u[1..] == "ttp" + [':'] + ("//" + d);
    SchemeRunStop("ttp", ':', "//" + d);
    assert u[4] == ':' && u[5] == '/' && u[|u| - 1] == d[|d| - 1];
    CleanChars(u);
  }

  lemma {:induction false} SchemeRunStop(x: string, c: char, y: string)
    requires forall i :: 0 <= i < |x| ==> IsSchemeChar(x[i])
    requires !IsSchemeChar(c)
    ensures SchemeRun(x + [c] + y) == |x|
  {
    if x != [] {
      assert (x + [c] + y)[1..] == x[1..] + [c] + y;
      SchemeRunStop(x[1..], c, y);
    }
  }

  lemma {:induction false} CleanChars(u: string)
    requires forall i :: 0 <= i < |u| ==> !IsSpace(u[i]) && !IsBracket(u[i])
    ensures Clean(u)
  {
    if u != [] {
      CleanChars(u[1..]);
    }
  }
}
