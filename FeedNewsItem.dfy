/**
 * `org.mhh.domain.NewsItem` of the feed: an immutable headline and priority,
 * built only through a constructor that rejects a null or blank headline and
 * a priority outside 0..9. A datatype value never changes, which is the
 * immutability the `@Value` class promises.
 */
module FeedNewsItem {
  import opened Wrappers
  import opened JavaString

  datatype NewsItem = NewsItem(headline: string, priority: int)

  /** The two `IllegalArgumentException`s the constructor throws. */
  datatype ValidationError = BlankHeadline | PriorityOutOfRange

  const MinPriority := 0
  const MaxPriority := 9

  /** What every constructed item satisfies. */
  predicate Valid(item: NewsItem) {
    !IsBlank(item.headline) && MinPriority <= item.priority <= MaxPriority
  }

  /** The constructor: the headline check runs first, then the priority check. */
  function Create(headline: Option<string>, priority: int): (r: Result<NewsItem, ValidationError>)
    ensures r.Ok? <==> headline.Some? && !IsBlank(headline.value) && MinPriority <= priority <= MaxPriority
    ensures r.Ok? ==> r.value.headline == headline.value && r.value.priority == priority
    ensures r == Err(BlankHeadline) <==> headline.None? || IsBlank(headline.value)
    ensures r == Err(PriorityOutOfRange) <==>
      headline.Some? && !IsBlank(headline.value) && (priority < MinPriority || priority > MaxPriority)
  {
    if headline.None? then Err(BlankHeadline)
    else if (TrimEmptyIffBlank(headline.value); Trim(headline.value) == []) then Err(BlankHeadline)
    else if priority < MinPriority || priority > MaxPriority then Err(PriorityOutOfRange)
    else Ok(NewsItem(headline.value, priority))
  }

  /** Construction only ever yields valid items. */
  lemma CreateYieldsValid(headline: Option<string>, priority: int)
    requires Create(headline, priority).Ok?
    ensures Valid(Create(headline, priority).value)
  {
  }

  /** Every valid item is what the constructor builds from its own fields. */
  lemma CreateFromFields(item: NewsItem)
    requires Valid(item)
    ensures Create(Some(item.headline), item.priority) == Ok(item)
  {
  }

  /** The boundary priorities: -1 and 10 are rejected, 0 and 9 accepted. */
  lemma PriorityBoundaries(h: string)
    requires !IsBlank(h)
    ensures Create(Some(h), -1) == Err(PriorityOutOfRange)
    ensures Create(Some(h), 10) == Err(PriorityOutOfRange)
    ensures Create(Some(h), 0) == Ok(NewsItem(h, 0))
    ensures Create(Some(h), 9) == Ok(NewsItem(h, 9))
  {
  }

  /** With both arguments bad, the headline error is the one reported. */
  lemma HeadlineErrorFirst(headline: Option<string>, priority: int)
    requires headline.None? || IsBlank(headline.value)
    requires priority < MinPriority || priority > MaxPriority
    ensures Create(headline, priority) == Err(BlankHeadline)
  {
  }

  /** The headline is stored as given: surrounding spaces are not trimmed away. */
  lemma HeadlineNotTrimmed()
    ensures Create(Some(" news "), 5) == Ok(NewsItem(" news ", 5))
  {
    assert " news "[1] > ' ';
  }
}
