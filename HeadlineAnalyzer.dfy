/**
 * `HeadlineAnalyzer.isPositive`: the binary-ratio positivity test. A headline
 * is positive when strictly more than half of the pieces that
 * `toLowerCase().split("\\s+")` gives are one of five fixed words.
 */
module HeadlineAnalyzer {
  import opened Wrappers
  import opened JavaString

  /** `POSITIVE_WORDS`. */
  const PositiveWords: set<string> := {"up", "rise", "good", "success", "high"}

  /** How many of `words` are in `PositiveWords`. */
  function CountPositive(words: seq<string>): (n: nat)
    ensures n <= |words|
  {
    if words == [] then 0
    else CountPositive(words[..|words| - 1]) + (if words[|words| - 1] in PositiveWords then 1 else 0)
  }

  /** Strictly more than half of `words` are positive. */
  predicate MajorityPositive(words: seq<string>) {
    |words| > 0 && 2 * CountPositive(words) > |words|
  }

  /** The verdict of `isPositive`, with Java's `null` as `None`. */
  predicate Positive(headline: Option<string>) {
    headline.Some? && !IsBlank(headline.value) && MajorityPositive(Split(ToLower(headline.value)))
  }

  /** `isPositive`: tokenise, count the positive tokens in a loop, compare with half. */
  method IsPositive(headline: Option<string>) returns (positive: bool)
    ensures headline.None? || IsBlank(headline.value) ==> !positive
    ensures headline.Some? && !IsBlank(headline.value) ==>
      var words := Split(ToLower(headline.value));
      (positive <==> 2 * CountPositive(words) > |words|)
    ensures positive == Positive(headline)
  {
    if headline.None? {
      return false;
    }
    TrimEmptyIffBlank(headline.value);
    if Trim(headline.value) == [] {
      return false;
    }
    var words := Split(ToLower(headline.value));
    if |words| == 0 {
      return false;
    }
    var count := 0;
    for i := 0 to |words|
      invariant count == CountPositive(words[..i])
    {
      CountPositiveStep(words, i);
      if words[i] in PositiveWords {
        count := count + 1;
      }
    }
    assert words[..|words|] == words;
    positive := count * 2 > |words|;
  }

  // ------------------------------------------------------------ counting

  lemma {:induction false} CountPositiveAll(words: seq<string>)
    requires forall k :: 0 <= k < |words| ==> words[k] in PositiveWords
    ensures CountPositive(words) == |words|
    decreases |words|
  {
    if words != [] {
      CountPositiveAll(words[..|words| - 1]);
    }
  }

  lemma {:induction false} CountPositiveNone(words: seq<string>)
    requires forall k :: 0 <= k < |words| ==> words[k] !in PositiveWords
    ensures CountPositive(words) == 0
    decreases |words|
  {
    if words != [] {
      CountPositiveNone(words[..|words| - 1]);
    }
  }

  lemma CountPositiveSingle(w: string)
    ensures CountPositive([w]) == if w in PositiveWords then 1 else 0
  {
    assert [w][..0] == [];
  }

  lemma CountPositiveStep(ws: seq<string>, i: nat)
    requires i < |ws|
    ensures CountPositive(ws[..i + 1]) == CountPositive(ws[..i]) + (if ws[i] in PositiveWords then 1 else 0)
  {
    assert ws[..i + 1][..i] == ws[..i];
  }

  /** The count is the number of positions of `ws[..n]` that hold a positive word. */
  lemma {:induction false} CountPositiveIsPositions(ws: seq<string>, n: nat)
    requires n <= |ws|
    ensures CountPositive(ws[..n]) == |set i | 0 <= i < n && ws[i] in PositiveWords|
    decreases n
  {
    if n > 0 {
      CountPositiveIsPositions(ws, n - 1);
      CountPositiveStep(ws, n - 1);
      var prev := set i | 0 <= i < n - 1 && ws[i] in PositiveWords;
      var cur := set i | 0 <= i < n && ws[i] in PositiveWords;
      if ws[n - 1] in PositiveWords {
        assert cur == prev + {n - 1};
      } else {
        assert cur == prev;
      }
    }
  }

  // ------------------------------------------------- general properties

  lemma LowerKeepsSpaces(s: string)
    ensures forall i :: 0 <= i < |s| ==> (IsSpace(ToLower(s)[i]) <==> IsSpace(s[i]))
  {
  }

  /** Headlines that lower-case to the same text get the same verdict. */
  lemma CaseInsensitive(a: string, b: string)
    requires ToLower(a) == ToLower(b)
    ensures Positive(Some(a)) == Positive(Some(b))
  {
    ToLowerKeepsBlank(a);
    ToLowerKeepsBlank(b);
  }

  /**
   * A headline of one word is positive exactly when that word, lower-cased,
   * IS one of the five: a word that merely contains one ("upside") is not.
   */
  lemma WholeWordMatch(t: string)
    requires t != [] && NoSpace(t)
    ensures Positive(Some(t)) <==> ToLower(t) in PositiveWords
  {
    var l := ToLower(t);
    ToLowerKeepsBlank(t);
    if IsBlank(t) {
      assert l[0] <= ' ';
      assert l !in PositiveWords by {
        assert "up"[0] > ' ' && "rise"[0] > ' ' && "good"[0] > ' ';
        assert "success"[0] > ' ' && "high"[0] > ' ';
      }
    } else {
      LowerKeepsSpaces(t);
      assert NoSpace(l);
      SplitOfJoin([l]);
      assert Split(l) == [l];
      CountPositiveSingle(l);
    }
  }

  /** Every piece positive: the headline is positive (when it is not blank). */
  lemma AllWordsPositive(h: string)
    requires !IsBlank(h)
    requires forall k :: 0 <= k < |Split(ToLower(h))| ==> Split(ToLower(h))[k] in PositiveWords
    ensures Positive(Some(h))
  {
    var l := ToLower(h);
    ToLowerKeepsBlank(h);
    WordsNonEmptyOfNotBlank(l);
    CountPositiveAll(Split(l));
  }

  /** No piece positive: the headline is not positive. */
  lemma NoWordPositive(h: string)
    requires forall k :: 0 <= k < |Split(ToLower(h))| ==> Split(ToLower(h))[k] !in PositiveWords
    ensures !Positive(Some(h))
  {
    CountPositiveNone(Split(ToLower(h)));
  }

  /** Exactly half of the pieces positive is not enough. */
  lemma HalfIsNotPositive(h: string)
    requires 2 * CountPositive(Split(ToLower(h))) == |Split(ToLower(h))|
    ensures !Positive(Some(h))
  {
  }

  // ------------------------------------------ the table at the file's end

  lemma SplitExample(h: string, ws: seq<string>)
    requires ws != [] && forall k :: 0 <= k < |ws| ==> ws[k] != [] && NoSpace(ws[k])
    requires ToLower(h) == JoinWords(ws)
    ensures Split(ToLower(h)) == ws
  {
    SplitOfJoin(ws);
  }

  /** A headline that lower-cases to `ws` joined by spaces is judged on `ws`. */
  lemma PositiveOfJoin(h: string, ws: seq<string>)
    requires ws != [] && forall k :: 0 <= k < |ws| ==> ws[k] != [] && NoSpace(ws[k])
    requires ToLower(h) == JoinWords(ws) && !IsBlank(h)
    ensures Positive(Some(h)) <==> 2 * CountPositive(ws) > |ws|
  {
    SplitOfJoin(ws);
  }

  /** Enough for a negative verdict: at most half of the joined words are positive. */
  lemma NotPositiveOfJoin(h: string, ws: seq<string>)
    requires ws != [] && forall k :: 0 <= k < |ws| ==> ws[k] != [] && NoSpace(ws[k])
    requires ToLower(h) == JoinWords(ws) && 2 * CountPositive(ws) <= |ws|
    ensures !Positive(Some(h))
  {
    SplitOfJoin(ws);
  }

  /** Which of the words used in the examples belong to `PositiveWords`. */
  lemma Vocabulary()
    ensures "up" in PositiveWords && "rise" in PositiveWords && "good" in PositiveWords
    ensures "success" in PositiveWords && "high" in PositiveWords
    ensures "down" !in PositiveWords && "fall" !in PositiveWords && "bad" !in PositiveWords
    ensures "failure" !in PositiveWords && "low" !in PositiveWords && "" !in PositiveWords
  {
  }

  // The headlines of the table lower-cased, and the same text as joined words; one fact per
  // lemma keeps each of these evaluations small.

  lemma LowerUpRiseGood()
    ensures ToLower("UP rise good") == "up rise good"
  {
  }

  lemma JoinUpRiseGood()
    ensures JoinWords(["up", "rise", "good"]) == "up rise good"
  {
  }

  lemma LowerGoodSuccessDownFall()
    ensures ToLower("good success DOWN fall") == "good success down fall"
  {
  }

  lemma JoinGoodSuccessDownFall()
    ensures JoinWords(["good", "success", "down", "fall"]) == "good success down fall"
  {
  }

  lemma LowerHighSuccessRiseFallLow()
    ensures ToLower("HIGH success rise fall low") == "high success rise fall low"
  {
  }

  lemma JoinHighSuccessRiseFallLow()
    ensures JoinWords(["high", "success", "rise", "fall", "low"]) == "high success rise fall low"
  {
  }

  lemma LowerBadFailureLow()
    ensures ToLower("bad failure low") == "bad failure low"
  {
  }

  lemma JoinBadFailureLow()
    ensures JoinWords(["bad", "failure", "low"]) == "bad failure low"
  {
  }

  lemma LowerDownSuccess()
    ensures ToLower("down success") == "down success"
  {
  }

  lemma JoinDownSuccess()
    ensures JoinWords(["down", "success"]) == "down success"
  {
  }

  lemma LowerHighRiseSuccess()
    ensures ToLower("High Rise Success") == "high rise success"
  {
  }

  lemma JoinHighRiseSuccess()
    ensures JoinWords(["high", "rise", "success"]) == "high rise success"
  {
  }

  lemma CountGoodSuccessDownFall()
    ensures CountPositive(["good", "success", "down", "fall"]) == 2
  {
    var ws := ["good", "success", "down", "fall"];
    Vocabulary();
    assert ws[..0] == [];
    CountPositiveStep(ws, 0);
    CountPositiveStep(ws, 1);
    CountPositiveStep(ws, 2);
    CountPositiveStep(ws, 3);
    assert ws[..4] == ws;
  }

  lemma CountHighSuccessRiseFallLow()
    ensures CountPositive(["high", "success", "rise", "fall", "low"]) == 3
  {
    var ws := ["high", "success", "rise", "fall", "low"];
    Vocabulary();
    assert ws[..0] == [];
    CountPositiveStep(ws, 0);
    CountPositiveStep(ws, 1);
    CountPositiveStep(ws, 2);
    CountPositiveStep(ws, 3);
    CountPositiveStep(ws, 4);
    assert ws[..5] == ws;
  }

  lemma CountDownSuccess()
    ensures CountPositive(["down", "success"]) == 1
  {
    var ws := ["down", "success"];
    Vocabulary();
    assert ws[..0] == [];
    CountPositiveStep(ws, 0);
    CountPositiveStep(ws, 1);
    assert ws[..2] == ws;
  }

  lemma ExampleUpRiseGood()
    ensures Positive(Some("UP rise good"))
  {
    var ws := ["up", "rise", "good"];
    LowerUpRiseGood();
    JoinUpRiseGood();
    assert "UP rise good"[0] > ' ';
    Vocabulary();
    CountPositiveAll(ws);
    PositiveOfJoin("UP rise good", ws);
  }

  lemma ExampleExactlyHalfOfFour()
    ensures !Positive(Some("good success DOWN fall"))
  {
    LowerGoodSuccessDownFall();
    JoinGoodSuccessDownFall();
    CountGoodSuccessDownFall();
    NotPositiveOfJoin("good success DOWN fall", ["good", "success", "down", "fall"]);
  }

  lemma ExampleThreeOfFive()
    ensures Positive(Some("HIGH success rise fall low"))
  {
    LowerHighSuccessRiseFallLow();
    JoinHighSuccessRiseFallLow();
    CountHighSuccessRiseFallLow();
    assert "HIGH success rise fall low"[0] > ' ';
    PositiveOfJoin("HIGH success rise fall low", ["high", "success", "rise", "fall", "low"]);
  }

  lemma ExampleNonePositive()
    ensures !Positive(Some("bad failure low"))
  {
    var ws := ["bad", "failure", "low"];
    LowerBadFailureLow();
    JoinBadFailureLow();
    Vocabulary();
    CountPositiveNone(ws);
    NotPositiveOfJoin("bad failure low", ws);
  }

  lemma ExampleSingleUp()
    ensures Positive(Some("up"))
  {
    WholeWordMatch("up");
    assert ToLower("up") == "up";
  }

  lemma ExampleExactlyHalfOfTwo()
    ensures !Positive(Some("down success"))
  {
    LowerDownSuccess();
    JoinDownSuccess();
    CountDownSuccess();
    NotPositiveOfJoin("down success", ["down", "success"]);
  }

  lemma ExampleMixedCase()
    ensures Positive(Some("High Rise Success"))
  {
    var ws := ["high", "rise", "success"];
    LowerHighRiseSuccess();
    JoinHighRiseSuccess();
    assert "High Rise Success"[0] > ' ';
    Vocabulary();
    CountPositiveAll(ws);
    PositiveOfJoin("High Rise Success", ws);
  }

  lemma ExampleEmptyAndSpaces()
    ensures !Positive(Some(""))
    ensures !Positive(Some("   "))
    ensures !Positive(None)
  {
  }

  /** A word that contains "up" but is not "up" does not count. */
  lemma ExampleSubstringIsNoMatch()
    ensures !Positive(Some("Upside"))
  {
    WholeWordMatch("Upside");
    assert ToLower("Upside") == "upside";
  }

  // --------------------------------------------------------- the finding

  /**
   * As written, `split` keeps an empty first piece when the headline starts
   * with whitespace, and that piece counts as a non-positive token: " up" is
   * not positive although its only word is.
   */
  lemma LeadingSpaceFinding()
    ensures Positive(Some("up"))
    ensures !Positive(Some(" up"))
  {
    ExampleSingleUp();
    LeadingSpaceSplit();
    CountEmptyUp();
  }

  lemma LeadingSpaceSplit()
    ensures Split(ToLower(" up")) == ["", "up"]
  {
    assert ToLower(" up") == " up";
    assert Words(" up") == Words("up") by { WordsLeadingSpace(" ", "up"); }
    SplitOfJoin(["up"]);
  }

  lemma CountEmptyUp()
    ensures CountPositive(["", "up"]) == 1
  {
    var ws := ["", "up"];
    Vocabulary();
    assert ws[..0] == [];
    CountPositiveStep(ws, 0);
    CountPositiveStep(ws, 1);
    assert ws[..2] == ws;
  }

  /** The evidently intended test: strictly more than half of the words are positive. */
  predicate PositiveByWords(headline: Option<string>) {
    headline.Some? && !IsBlank(headline.value) && MajorityPositive(Words(ToLower(headline.value)))
  }

  /** The corrected test agrees with `isPositive` whenever no whitespace leads the headline. */
  lemma CorrectedAgreesWithoutLeadingSpace(h: string)
    requires h == [] || !IsSpace(h[0])
    ensures PositiveByWords(Some(h)) == Positive(Some(h))
  {
    ToLowerKeepsBlank(h);
    if !IsBlank(h) {
      WordsNonEmptyOfNotBlank(ToLower(h));
      LowerKeepsSpaces(h);
    }
  }

  lemma BlankConcat(a: string, b: string)
    requires IsBlank(a)
    ensures IsBlank(a + b) <==> IsBlank(b)
  {
    if IsBlank(b) {
      forall i | 0 <= i < |a + b| ensures (a + b)[i] <= ' ' {
        if i >= |a| { assert (a + b)[i] == b[i - |a|]; }
      }
    } else {
      var i :| 0 <= i < |b| && b[i] > ' ';
      assert (a + b)[|a| + i] == b[i];
    }
  }

  /** Whitespace in front of a headline does not change the corrected verdict. */
  lemma CorrectedIgnoresLeadingSpace(ws: string, h: string)
    requires ws != [] && forall i :: 0 <= i < |ws| ==> IsSpace(ws[i])
    ensures PositiveByWords(Some(ws + h)) == PositiveByWords(Some(h))
  {
    var lws := ToLower(ws);
    assert ToLower(ws + h) == lws + ToLower(h);
    assert forall i :: 0 <= i < |lws| ==> IsSpace(lws[i]);
    WordsLeadingSpace(lws, ToLower(h));
    BlankConcat(ws, h);
  }

  /** For the corrected test, all words positive always gives a positive verdict, " up" included. */
  lemma CorrectedAllWordsPositive(h: string)
    requires !IsBlank(h)
    requires forall k :: 0 <= k < |Words(ToLower(h))| ==> Words(ToLower(h))[k] in PositiveWords
    ensures PositiveByWords(Some(h))
  {
    ToLowerKeepsBlank(h);
    WordsNonEmptyOfNotBlank(ToLower(h));
    CountPositiveAll(Words(ToLower(h)));
  }
}
