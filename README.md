# NewsFeedSystem, modelled in Dafny

NewsFeedSystem is a small pipeline for news headlines. A feed generates
`NewsItem(headline, priority)` values. An analyser server receives them over
a socket, judges each headline, keeps every verdict in a store, prints live
counts and, at shutdown, appends the store to a CSV file. This project models
the sequential logic inside that plumbing and proves what the code promises
about it.

One module per source file:

- `HeadlineAnalyzer` covers `isPositive`. The method `IsPositive` keeps the
  counting loop. `Positive` is the verdict stated as a predicate. The table in
  the file's `main` is proved headline by headline.
- `FeedNewsItem` covers the feed's `NewsItem`: its validating constructor
  `Create`, which returns a `Result`, and the `Valid` predicate.
- `NewsGenerator` covers `generateRandomPriority` (a method with the source's
  scan and early return), `generateRandomHeadline` and `generateNewsItem`.
  Every random draw is a parameter.
- `AnalyzedNewsItem` holds the values the analyser stores: the received item,
  the three-valued verdict and the record.
- `NewsAnalyzerServer` covers the analyser:
  - the class `Server`, whose `store` is a sequence that `RecordAnalysis`
    appends to;
  - the method `SaveAnalyzedItems`, which writes the CSV file;
  - the counts of `printLiveStatistics`;
  - the CSV row format, with a reader proved to read the rows back;
  - the port chosen by `main`.
- `ClientHandler` covers `run`. The class `Handler` works through a sequence
  of frames, where each frame is what one `readObject` call does. It
  records items through the server and closes a `Socket` object.
- `SkeletonServer` covers the port choice of the earlier server skeleton. It
  is proved to agree with the analyser's.
- `JavaString` models the Java string operations the code relies on:
  - `trim`;
  - ASCII `toLowerCase`;
  - `split("\\s+")`, including Java's leading empty piece;
  - joining with spaces;
  - `replace("\"", "\"\"")`;
  - `%d`.
- `Wrappers` provides `Option` (Java's `null`) and `Result` (a thrown
  exception).

Things outside the program are parameters:

- the classifier `analyze`;
- `Integer.parseInt`, as a function `string -> Option<int>`;
- the clock, which gives each record's timestamp as an already formatted
  string;
- the earlier content of the CSV file;
- the random draws.

## Model

| member | source | states |
|---|---|---|
| HeadlineAnalyzer.IsPositive | news-analyzer/src/main/java/org/mhh/analyzer/HeadlineAnalyzer.java:18-42 | A null or blank headline is not positive. Otherwise the verdict is true iff twice the number of lower-cased pieces in the five-word set exceeds the number of pieces. The loop's count agrees with `Positive`. |
| HeadlineAnalyzer.CountPositive | news-analyzer/src/main/java/org/mhh/analyzer/HeadlineAnalyzer.java:30-37 | The positive count never exceeds the number of pieces. |
| HeadlineAnalyzer.CountPositiveIsPositions | news-analyzer/src/main/java/org/mhh/analyzer/HeadlineAnalyzer.java:30-37 | The count is the size of the set of positions that hold a word of `POSITIVE_WORDS`. This is an independent definition of what the loop counts. |
| HeadlineAnalyzer.CaseInsensitive | news-analyzer/src/main/java/org/mhh/analyzer/HeadlineAnalyzer.java:24 | Two headlines that lower-case to the same text get the same verdict. |
| HeadlineAnalyzer.WholeWordMatch | news-analyzer/src/main/java/org/mhh/analyzer/HeadlineAnalyzer.java:34 | A one-word headline is positive iff its lower-cased word equals one of the five words. Containing one is not enough. |
| HeadlineAnalyzer.AllWordsPositive | news-analyzer/src/main/java/org/mhh/analyzer/HeadlineAnalyzer.java:30-41 | A non-blank headline whose pieces are all positive words is positive. |
| HeadlineAnalyzer.NoWordPositive | news-analyzer/src/main/java/org/mhh/analyzer/HeadlineAnalyzer.java:30-41 | A headline with no positive piece is not positive. |
| HeadlineAnalyzer.HalfIsNotPositive | news-analyzer/src/main/java/org/mhh/analyzer/HeadlineAnalyzer.java:41 | Exactly half of the pieces being positive gives false. |
| HeadlineAnalyzer.ExampleUpRiseGood | news-analyzer/src/main/java/org/mhh/analyzer/HeadlineAnalyzer.java:48 | "UP rise good" is positive. |
| HeadlineAnalyzer.ExampleExactlyHalfOfFour | news-analyzer/src/main/java/org/mhh/analyzer/HeadlineAnalyzer.java:49 | "good success DOWN fall" (2 of 4) is not positive. |
| HeadlineAnalyzer.ExampleThreeOfFive | news-analyzer/src/main/java/org/mhh/analyzer/HeadlineAnalyzer.java:50 | "HIGH success rise fall low" (3 of 5) is positive. |
| HeadlineAnalyzer.ExampleNonePositive | news-analyzer/src/main/java/org/mhh/analyzer/HeadlineAnalyzer.java:51 | "bad failure low" is not positive. |
| HeadlineAnalyzer.ExampleSingleUp | news-analyzer/src/main/java/org/mhh/analyzer/HeadlineAnalyzer.java:52 | "up" is positive. |
| HeadlineAnalyzer.ExampleExactlyHalfOfTwo | news-analyzer/src/main/java/org/mhh/analyzer/HeadlineAnalyzer.java:53 | "down success" (1 of 2) is not positive. |
| HeadlineAnalyzer.ExampleMixedCase | news-analyzer/src/main/java/org/mhh/analyzer/HeadlineAnalyzer.java:54 | "High Rise Success" is positive, whatever the case. |
| HeadlineAnalyzer.ExampleEmptyAndSpaces | news-analyzer/src/main/java/org/mhh/analyzer/HeadlineAnalyzer.java:55-56 | "", "   " and null are not positive. |
| HeadlineAnalyzer.ExampleSubstringIsNoMatch | news-analyzer/src/main/java/org/mhh/analyzer/HeadlineAnalyzer.java:34 | "Upside" is not positive, although it contains "up". |
| HeadlineAnalyzer.LeadingSpaceFinding | news-analyzer/src/main/java/org/mhh/analyzer/HeadlineAnalyzer.java:24 | As written, "up" is positive and " up" is not, because of the empty first piece. |
| HeadlineAnalyzer.CorrectedAgreesWithoutLeadingSpace | news-analyzer/src/main/java/org/mhh/analyzer/HeadlineAnalyzer.java:24-41 | Counting only the words gives the source's verdict for every headline that does not start with whitespace. |
| HeadlineAnalyzer.CorrectedIgnoresLeadingSpace | news-analyzer/src/main/java/org/mhh/analyzer/HeadlineAnalyzer.java:24 | Counting only the words, leading whitespace never changes the verdict. |
| HeadlineAnalyzer.CorrectedAllWordsPositive | news-analyzer/src/main/java/org/mhh/analyzer/HeadlineAnalyzer.java:30-41 | Counting only the words, a non-blank headline whose words are all positive is positive, " up" included. |
| JavaString.TrimEmptyIffBlank | news-analyzer/src/main/java/org/mhh/analyzer/HeadlineAnalyzer.java:19 | `trim()` gives the empty string iff every character is at most U+0020. |
| JavaString.SplitOfJoin | news-feed/src/main/java/org/mhh/domain/NewsGenerator.java:35-36 | Splitting words joined by single spaces gives back the words. |
| JavaString.UndoubleDoubleQuotes | news-analyzer/src/main/java/org/mhh/analyzer/NewsAnalyzerServer.java:155 | Un-doubling the escaped headline gives back the original. |
| JavaString.DoubleQuotes | news-analyzer/src/main/java/org/mhh/analyzer/NewsAnalyzerServer.java:155 | The escaped headline is as long as the original plus its number of quotes. |
| JavaString.ReadIntOfIntToString | news-analyzer/src/main/java/org/mhh/analyzer/NewsAnalyzerServer.java:158 | A priority written with `%d` reads back as the same integer, negatives included. |
| FeedNewsItem.Create | news-feed/src/main/java/org/mhh/domain/NewsItem.java:20-29 | Construction succeeds iff the headline is non-null and non-blank and the priority is in [0,9]. On success the fields are exactly the arguments. A bad headline is reported as `BlankHeadline`. A bad priority with a good headline is reported as `PriorityOutOfRange`. |
| FeedNewsItem.CreateYieldsValid | news-feed/src/main/java/org/mhh/domain/NewsItem.java:20-29 | Every constructed item satisfies the validity invariant. |
| FeedNewsItem.CreateFromFields | news-feed/src/main/java/org/mhh/domain/NewsItem.java:27-28 | Every valid item is what the constructor builds from its own fields. |
| FeedNewsItem.PriorityBoundaries | news-feed/src/main/java/org/mhh/domain/NewsItem.java:24-26 | Priorities -1 and 10 are rejected. Priorities 0 and 9 are accepted. |
| FeedNewsItem.HeadlineErrorFirst | news-feed/src/main/java/org/mhh/domain/NewsItem.java:21-26 | With both arguments invalid, the headline error is the one reported. |
| FeedNewsItem.HeadlineNotTrimmed | news-feed/src/main/java/org/mhh/domain/NewsItem.java:27-28 | " news " is stored with its spaces. |
| NewsGenerator.WeightTable | news-feed/src/main/java/org/mhh/domain/NewsGenerator.java:20-23 | The table has ten entries, is strictly increasing, starts above 0 and ends at `TOTAL_WEIGHT` = 100. |
| NewsGenerator.GenerateRandomPriority | news-feed/src/main/java/org/mhh/domain/NewsGenerator.java:40-51 | The priority is always in [0,9]. For a weight below the total it is the least index whose cumulative weight exceeds the weight. |
| NewsGenerator.FallbackUnreachable | news-feed/src/main/java/org/mhh/domain/NewsGenerator.java:49-50 | Every weight below the total has a chosen index, so the fallback return is never reached. |
| NewsGenerator.ChosenPriorityUnique | news-feed/src/main/java/org/mhh/domain/NewsGenerator.java:44-48 | A weight has at most one chosen priority. |
| NewsGenerator.ChosenPriorityBand | news-feed/src/main/java/org/mhh/domain/NewsGenerator.java:44-48 | Priority p is chosen exactly for the weights in [CUM[p-1], CUM[p]). |
| NewsGenerator.PriorityWeight | news-feed/src/main/java/org/mhh/domain/NewsGenerator.java:40-48 | Of the 100 drawable weights, exactly CUM[p] − CUM[p-1] choose priority p. |
| NewsGenerator.WordsAreWords | news-feed/src/main/java/org/mhh/domain/NewsGenerator.java:16-18 | Every entry of `WORDS` is a non-empty word of lower-case letters. |
| NewsGenerator.GenerateRandomHeadline | news-feed/src/main/java/org/mhh/domain/NewsGenerator.java:31-38 | The headline splits back into exactly the drawn words: word i is the entry of `WORDS` at draw i, so there are between 3 and 5 of them, and the headline is never blank. |
| NewsGenerator.GenerateNewsItem | news-feed/src/main/java/org/mhh/domain/NewsGenerator.java:25-29 | Construction of a generated item always succeeds, with a valid item holding the generated headline and the chosen priority. |
| NewsGenerator.GeneratedHeadlineVerdict | news-feed/src/main/java/org/mhh/domain/NewsGenerator.java:31-38 | The analyser judges a generated headline on exactly its drawn words, both as written and as corrected. |
| NewsAnalyzerServer.Server.constructor | news-analyzer/src/main/java/org/mhh/analyzer/NewsAnalyzerServer.java:36-42 | A new server has the given port and an empty store. |
| NewsAnalyzerServer.Server.RecordAnalysis | news-analyzer/src/main/java/org/mhh/analyzer/NewsAnalyzerServer.java:83-87 | The store grows by exactly one record holding the given item and verdict. The earlier records are unchanged. |
| NewsAnalyzerServer.Server.SaveAnalyzedItems | news-analyzer/src/main/java/org/mhh/analyzer/NewsAnalyzerServer.java:136-170 | An empty store leaves the file as it was and saves nothing. Otherwise the file is its earlier content, or the header when it was empty or missing, followed by `Rows(store)`: the CSV line of each record, in store order, which `DecodeRowsOfRows` reads back one record per row. |
| NewsAnalyzerServer.SavedFileReadsBack | news-analyzer/src/main/java/org/mhh/analyzer/NewsAnalyzerServer.java:148-163 | An empty or missing file starts with the header line afterwards. A non-empty file keeps its content as a prefix. What follows reads back as the stored records, in order. |
| NewsAnalyzerServer.Count | news-analyzer/src/main/java/org/mhh/analyzer/NewsAnalyzerServer.java:95-101 | A verdict's count never exceeds the store size. |
| NewsAnalyzerServer.CountsSum | news-analyzer/src/main/java/org/mhh/analyzer/NewsAnalyzerServer.java:95-101 | The positive, negative and neutral counts sum to the store size. |
| NewsAnalyzerServer.CountAfterRecord | news-analyzer/src/main/java/org/mhh/analyzer/NewsAnalyzerServer.java:83-101 | Recording an item raises the count of its verdict by one and leaves the other counts. |
| NewsAnalyzerServer.LiveStatistics | news-analyzer/src/main/java/org/mhh/analyzer/NewsAnalyzerServer.java:89-101 | "No items yet" exactly for an empty store. Otherwise the total is the store size and the three counts sum to it. |
| NewsAnalyzerServer.ReadEscaped | news-analyzer/src/main/java/org/mhh/analyzer/NewsAnalyzerServer.java:155 | A headline with its quotes doubled, inside CSV quotes, reads back as the original headline. |
| NewsAnalyzerServer.DecodeLine | news-analyzer/src/main/java/org/mhh/analyzer/NewsAnalyzerServer.java:158 | A line in the layout `"%s","%s",%d,%s%n` reads back as its four columns. |
| NewsAnalyzerServer.DecodeRowOfRow | news-analyzer/src/main/java/org/mhh/analyzer/NewsAnalyzerServer.java:154-162 | The row of a record reads back as its timestamp, its original headline (empty for a null item or headline), its priority (-1 for a null item) and its verdict's name. |
| NewsAnalyzerServer.DecodeRowsOfRows | news-analyzer/src/main/java/org/mhh/analyzer/NewsAnalyzerServer.java:153-163 | The rows of a store read back as one row per record, in store order: row i holds record i's timestamp, headline (the original text, quotes undoubled), priority and verdict name. |
| NewsAnalyzerServer.ChosenPort | news-analyzer/src/main/java/org/mhh/analyzer/NewsAnalyzerServer.java:173-185 | The port is always in [1,65535]. Any port other than 9090 is the parsed first argument. |
| NewsAnalyzerServer.ChosenPortCases | news-analyzer/src/main/java/org/mhh/analyzer/NewsAnalyzerServer.java:174-185 | No argument, a non-numeric argument or an out-of-range number gives 9090. A number in range is kept. |
| NewsAnalyzerServer.PortFromArguments | news-analyzer/src/main/java/org/mhh/analyzer/NewsAnalyzerServer.java:173-185 | The reassignments of `portArg` produce `ChosenPort`. |
| SkeletonServer.PortFromArguments | news-analyzer/src/main/java/org/mhh/domain/NewsAnalyzerServer.java:16-28 | The skeleton's port is in [1,65535] and equals the analyser's choice for the same arguments. |
| ClientHandler.Socket.Close | news-analyzer/src/main/java/org/mhh/analyzer/ClientHandler.java:62 | Closing leaves the socket closed and counts one close. |
| ClientHandler.Handler.constructor | news-analyzer/src/main/java/org/mhh/analyzer/ClientHandler.java:21-26 | The handler keeps its socket, classifier and recorder. |
| ClientHandler.Handler.Run | news-analyzer/src/main/java/org/mhh/analyzer/ClientHandler.java:29-70 | The socket always ends closed, and close is called once iff the socket was open. A closed socket ends in a socket error with nothing read. A failed stream header ends in that fault. Otherwise the exit and the number of frames read come from the first throwing read, or EOF after the last frame. The recorder receives exactly the records of the items before that read, in order. |
| ClientHandler.FirstTerminal | news-analyzer/src/main/java/org/mhh/analyzer/ClientHandler.java:33-58 | The loop stops at the first read that throws. Every earlier frame is an object. |
| ClientHandler.Consumed | news-analyzer/src/main/java/org/mhh/analyzer/ClientHandler.java:33-58 | The handler never reads more frames than the stream holds. |
| ClientHandler.RecordsFollowItems | news-analyzer/src/main/java/org/mhh/analyzer/ClientHandler.java:35-44 | There is one record per item frame, in frame order. Each holds its item and `analyze` of its headline. |
| ClientHandler.SkippedFrame | news-analyzer/src/main/java/org/mhh/analyzer/ClientHandler.java:46-49 | An object that is not an item, or null, adds no record. |
| ClientHandler.LaterFramesUnread | news-analyzer/src/main/java/org/mhh/analyzer/ClientHandler.java:51-58 | Frames after the first throwing read change neither the exit nor the number of frames read. |
| ClientHandler.OtherObjectThenItem | news-analyzer/src/main/java/org/mhh/analyzer/ClientHandler.java:33-50 | An unexpected object, then an item, then EOF: both frames are read and exactly that item is recorded. |
| ClientHandler.UnknownClassStops | news-analyzer/src/main/java/org/mhh/analyzer/ClientHandler.java:57-58 | An unknown class ends the handler. An item after it is never recorded. |

## Left out

- Sockets, `ServerSocket` accept loops, Java serialization, shutdown hooks and all console output are not modelled. They are I/O. A connection is a sequence of frames, and a CSV file is its content as a string.
- Executors, `synchronized` and the thread-safety of `CopyOnWriteArrayList` are not modelled. They are concurrency. The store is a sequence changed by one caller at a time.
- The percentages of `printLiveStatistics` are left out because they are floating point. Only the integer counts are modelled.
- `Instant.now()` and the ISO-8601 formatter are not modelled. They are a clock and a library formatter. A record's timestamp is an opaque string, chosen per frame position by a `clock` parameter.
- `NewsAnalyzerServer.DecodeRowOfRow`: read-back is proved only for timestamps without a `"`. The ISO-8601 rendering never contains one.
- The classifier `HeadlineAnalyzer.analyze` does not appear in the analyser's source. It is a parameter of the handler, and its keyword sets are not modelled.
- `org.mhh.common.NewsItem`, the analyser's item class, is not part of this model. A received item is a nullable headline and a priority, with nothing assumed of them.
- `Integer.parseInt` is a parameter `string -> Option<int>`. `None` stands for a `NumberFormatException`.
- `toLowerCase` is restricted to ASCII letters, and `\s` to the six ASCII whitespace characters. Java does the same for `\s` by default, but its `toLowerCase` also maps non-ASCII letters.
- The model assumes a JVM default locale with ASCII case rules and ASCII digits. `String.toLowerCase()` and `printf("%d")` both follow the default locale. In a Turkish or Azerbaijani locale, `I` lowercases to the dotless `ı` (U+0131), so "HIGH" or "RISE" would not count as positive. Some locales format `%d` with non-ASCII digits, whereas `IntToString` always writes ASCII ones. The model captures neither case.
- `%n` and `println` are modelled as `"\n"`.
- The `IOException` paths of the CSV save and of `clientSocket.close()` are not modelled. A save always completes, and closing always succeeds.
- `FileWriter` creates a missing file, so a missing file is modelled like an empty one.
- A null client socket is not modelled. `ClientHandler` is always built with a socket.
- The `main` methods are not modelled where they only print: the distribution check of `NewsGenerator` and the test driver of `HeadlineAnalyzer`. The outcomes listed in the latter are proved as lemmas.
- Both `MockNewsFeedApp` files are network client plumbing and are not modelled.
- The accept loop of the earlier server skeleton, which closes every connection at once, is not modelled. It is I/O.

## Findings

| source | as written | input that shows it | evidently intended | confidence | as-written member | corrected member |
|---|---|---|---|---|---|---|
| news-analyzer/src/main/java/org/mhh/analyzer/HeadlineAnalyzer.java:24 | `split("\\s+")` keeps an empty first piece when the headline starts with whitespace, and that piece counts as a non-positive token. | `" up"` is not positive, while `"up"` is. | Strictly more than half of the headline's words are positive, whatever whitespace surrounds them. | not executed | HeadlineAnalyzer.LeadingSpaceFinding | HeadlineAnalyzer.CorrectedIgnoresLeadingSpace |
