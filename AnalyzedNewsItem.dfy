/**
 * The values the analyser stores: the item received on the wire, the
 * verdict, and the record `AnalyzedNewsItem` built from them.
 */
module AnalyzedNewsItem {
  import opened Wrappers

  /**
   * The analyser's `org.mhh.common.NewsItem`, as received from a feed. Its
   * class is not part of this model, so nothing is assumed of its fields:
   * the headline may be null.
   */
  datatype ReceivedItem = ReceivedItem(headline: Option<string>, priority: int)

  /** `HeadlineAnalyzer.AnalysisResult`. */
  datatype AnalysisResult = Positive | Negative | Neutral {
    /** `name()` of the enum constant. */
    function Name(): string {
      match this
      case Positive => "POSITIVE"
      case Negative => "NEGATIVE"
      case Neutral => "NEUTRAL"
    }
  }

  /** An `Instant`, already rendered by the ISO-8601 offset formatter. */
  type Timestamp = string

  /** `AnalyzedNewsItem`: the original item (possibly null), its verdict and when it was analysed. */
  datatype AnalyzedRecord = AnalyzedRecord(originalItem: Option<ReceivedItem>, result: AnalysisResult, timestamp: Timestamp)
}
