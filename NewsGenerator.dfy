/**
 * The deterministic part of `org.mhh.domain.NewsGenerator`: what it makes of
 * the values `ThreadLocalRandom` draws. The draws themselves are parameters.
 */
module NewsGenerator {
  import opened Wrappers
  import opened JavaString
  import opened FeedNewsItem
  import HeadlineAnalyzer

  /** `WORDS`. */
  const GeneratorWords: seq<string> := ["up", "down", "rise", "fall", "good", "bad", "success", "failure", "high", "low"]

  /** `CUMULATIVE_PRIORITY_WEIGHTS`: entry i is the total weight of priorities 0..i. */
  const CumulativeWeights: seq<int> := [30, 50, 60, 70, 78, 85, 91, 95, 98, 100]

  /** `TOTAL_WEIGHT`, the last cumulative weight. */
  const TotalWeight: int := CumulativeWeights[|CumulativeWeights| - 1]

  /** The table is strictly increasing, has one entry per priority, and ends at 100. */
  lemma WeightTable()
    ensures |CumulativeWeights| == MaxPriority + 1 && TotalWeight == 100
    ensures forall i, j :: 0 <= i < j < |CumulativeWeights| ==> CumulativeWeights[i] < CumulativeWeights[j]
    ensures CumulativeWeights[0] > 0
  {
  }

  /** The weight at which priority `p` starts being chosen. */
  function BandStart(p: nat): int
    requires p < |CumulativeWeights|
  {
    if p == 0 then 0 else CumulativeWeights[p - 1]
  }

  /** `p` is the least index whose cumulative weight exceeds `w`. */
  predicate IsChosenPriority(w: int, p: int) {
    0 <= p < |CumulativeWeights| && w < CumulativeWeights[p]
    && forall j :: 0 <= j < p ==> CumulativeWeights[j] <= w
  }

  /**
   * `generateRandomPriority` for the drawn weight `randomWeight`: the scan of
   * the table with its early return, and the fallback after the loop.
   */
  method GenerateRandomPriority(randomWeight: int) returns (priority: int)
    ensures MinPriority <= priority <= MaxPriority
    ensures randomWeight < TotalWeight ==> IsChosenPriority(randomWeight, priority)
    ensures randomWeight >= TotalWeight ==> priority == |CumulativeWeights| - 1
  {
    WeightTable();
    for i := 0 to |CumulativeWeights|
      invariant forall j :: 0 <= j < i ==> CumulativeWeights[j] <= randomWeight
    {
      if randomWeight < CumulativeWeights[i] {
        return i;
      }
    }
    return |CumulativeWeights| - 1;
  }

  /** For every weight below the total, the fallback return is never taken: some entry exceeds it. */
  lemma FallbackUnreachable(w: int)
    requires w < TotalWeight
    ensures exists p :: IsChosenPriority(w, p)
  {
    var p := 0;
    while CumulativeWeights[p] <= w
      invariant 0 <= p < |CumulativeWeights|
      invariant forall j :: 0 <= j < p ==> CumulativeWeights[j] <= w
      decreases |CumulativeWeights| - p
    {
      p := p + 1;
    }
    assert IsChosenPriority(w, p);
  }

  /** The priority chosen for a drawn weight in range is unique. */
  lemma ChosenPriorityUnique(w: int, p: int, q: int)
    requires IsChosenPriority(w, p) && IsChosenPriority(w, q)
    ensures p == q
  {
  }

  /** Priority `p` is chosen exactly for the weights from `BandStart(p)` up to `CumulativeWeights[p]`. */
  lemma ChosenPriorityBand(w: int, p: nat)
    requires 0 <= w && p < |CumulativeWeights|
    ensures IsChosenPriority(w, p) <==> BandStart(p) <= w < CumulativeWeights[p]
  {
    WeightTable();
    if BandStart(p) <= w < CumulativeWeights[p] && p > 0 {
      forall j | 0 <= j < p ensures CumulativeWeights[j] <= w {
        assert CumulativeWeights[j] <= CumulativeWeights[p - 1];
      }
    }
  }

  /** The integers from `a` up to, not including, `b`. */
  function Range(a: int, b: int): (r: set<int>)
    ensures forall w :: w in r <==> a <= w < b
    decreases b - a
  {
    if a >= b then {} else Range(a, b - 1) + {b - 1}
  }

  lemma {:induction false} RangeSize(a: int, b: int)
    requires a <= b
    ensures |Range(a, b)| == b - a
    decreases b - a
  {
    if a < b {
      RangeSize(a, b - 1);
      assert b - 1 !in Range(a, b - 1);
    }
  }

  /**
   * Of the `TotalWeight` values `nextInt(TOTAL_WEIGHT)` can draw, exactly
   * `CumulativeWeights[p] - BandStart(p)` choose priority `p`.
   */
  lemma PriorityWeight(p: nat)
    requires p < |CumulativeWeights|
    ensures |set w | w in Range(0, TotalWeight) && IsChosenPriority(w, p)| == CumulativeWeights[p] - BandStart(p)
  {
    WeightTable();
    var chosen := set w | w in Range(0, TotalWeight) && IsChosenPriority(w, p);
    var band := Range(BandStart(p), CumulativeWeights[p]);
    forall w | w in band ensures w in chosen {
      ChosenPriorityBand(w, p);
    }
    forall w | w in chosen ensures w in band {
      ChosenPriorityBand(w, p);
    }
    assert chosen == band;
    RangeSize(BandStart(p), CumulativeWeights[p]);
  }

  // -------------------------------------------------------------- headline

  /** The words the drawn indices name, in draw order. */
  function DrawnWords(draws: seq<int>): seq<string>
    requires forall i :: 0 <= i < |draws| ==> 0 <= draws[i] < |GeneratorWords|
  {
    seq(|draws|, i requires 0 <= i < |draws| => GeneratorWords[draws[i]])
  }

  /**
   * `generateRandomHeadline`: `|draws|` is the drawn word count
   * (`nextInt(3, 6)`), and each draw an index `nextInt(WORDS.size())`.
   */
  function GenerateRandomHeadline(draws: seq<int>): (h: string)
    requires 3 <= |draws| <= 5
    requires forall i :: 0 <= i < |draws| ==> 0 <= draws[i] < |GeneratorWords|
    ensures Split(h) == DrawnWords(draws)
    ensures |Split(h)| == |draws| && forall i :: 0 <= i < |draws| ==> Split(h)[i] == GeneratorWords[draws[i]]
    ensures Words(h) == DrawnWords(draws)
    ensures !IsBlank(h)
  {
    var ws := DrawnWords(draws);
    WordsAreWords();
    SplitOfJoin(ws);
    WordsOfJoin(ws);
    JoinStartsWithFirstWord(ws);
    assert JoinWords(ws)[0] > ' ';
    JoinWords(ws)
  }

  /** Every entry of `WORDS` is a non-empty lower-case word without whitespace and starts above U+0020. */
  lemma WordsAreWords()
    ensures forall k :: 0 <= k < |GeneratorWords| ==> GeneratorWords[k] != [] && NoSpace(GeneratorWords[k]) && GeneratorWords[k][0] > ' '
    ensures forall k, i :: 0 <= k < |GeneratorWords| && 0 <= i < |GeneratorWords[k]| ==> 'a' <= GeneratorWords[k][i] <= 'z'
  {
  }

  /** `generateNewsItem`: the generated headline and priority always pass the constructor's checks. */
  method GenerateNewsItem(draws: seq<int>, randomWeight: int) returns (r: Result<NewsItem, ValidationError>)
    requires 3 <= |draws| <= 5
    requires forall i :: 0 <= i < |draws| ==> 0 <= draws[i] < |GeneratorWords|
    ensures r.Ok? && Valid(r.value)
    ensures r.value.headline == GenerateRandomHeadline(draws)
    ensures randomWeight < TotalWeight ==> IsChosenPriority(randomWeight, r.value.priority)
  {
    var headline := GenerateRandomHeadline(draws);
    var priority := GenerateRandomPriority(randomWeight);
    r := Create(Some(headline), priority);
  }

  // ------------------------------------------ generated headlines analysed

  lemma {:induction false} JoinWordsChars(ws: seq<string>, i: nat)
    requires i < |JoinWords(ws)|
    ensures JoinWords(ws)[i] == ' ' || exists k, j :: 0 <= k < |ws| && 0 <= j < |ws[k]| && JoinWords(ws)[i] == ws[k][j]
    decreases |ws|
  {
    if |ws| == 1 {
      assert JoinWords(ws)[i] == ws[0][i];
    } else if |ws| > 1 {
      var tail := JoinWords(ws[1..]);
      if i < |ws[0]| {
        assert JoinWords(ws)[i] == ws[0][i];
      } else if i > |ws[0]| {
        assert JoinWords(ws)[i] == tail[i - |ws[0]| - 1];
        JoinWordsChars(ws[1..], i - |ws[0]| - 1);
        if tail[i - |ws[0]| - 1] != ' ' {
          var k, j :| 0 <= k < |ws[1..]| && 0 <= j < |ws[1..][k]| && tail[i - |ws[0]| - 1] == ws[1..][k][j];
          assert ws[1..][k] == ws[k + 1];
        }
      }
    }
  }

  /**
   * The analyser judges a generated headline on exactly the drawn words, as
   * written and as corrected alike: generated headlines never start with
   * whitespace and are already lower case.
   */
  lemma GeneratedHeadlineVerdict(draws: seq<int>)
    requires 3 <= |draws| <= 5
    requires forall i :: 0 <= i < |draws| ==> 0 <= draws[i] < |GeneratorWords|
    ensures HeadlineAnalyzer.Positive(Some(GenerateRandomHeadline(draws)))
            <==> HeadlineAnalyzer.MajorityPositive(DrawnWords(draws))
    ensures HeadlineAnalyzer.PositiveByWords(Some(GenerateRandomHeadline(draws)))
            <==> HeadlineAnalyzer.MajorityPositive(DrawnWords(draws))
  {
    var ws := DrawnWords(draws);
    var h := GenerateRandomHeadline(draws);
    WordsAreWords();
    forall i | 0 <= i < |h| ensures LowerChar(h[i]) == h[i] {
      JoinWordsChars(ws, i);
    }
    assert ToLower(h) == h;
  }
}
