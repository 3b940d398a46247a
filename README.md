# reddit_stats: the computations behind the dashboard

reddit_stats turns a subreddit's submissions into a CSV file and shows that
file on a dc.js dashboard. This project models the small, exactly specified
computations in that pipeline and proves properties about them.

- **Per-topic reducer** (`TopicReducer`). This is the `add` / `remove` /
  `initial` triple that the bubble chart hands to crossfilter. The
  accumulator is a class with fields for the post count, the sum of
  up-votes, the sum of words and the two averages. Ghost sequences record
  every post passed to `add` and to `remove`. The averages are JavaScript
  numbers: a finite quotient, or `NaN` for 0/0, or an infinity.
- **Dimension keys** (`Dimensions`). The bar chart's word-count bucket is
  `Math.round(w / 25) * 25`. The row chart's day-of-week key is
  `day + '.' + name[day]`, and its label is cut back out with
  `key.split('.')[1]`.
- **Scatter matrix** (`ScatterMatrix`). `cross(a, b)` builds the row-major
  product of the trait list with itself.
- **Feature extraction** (`FeatureExtraction`). This covers:
  - `sanitize_column_name`, which produces the headers the dashboard reads;
  - the loop that inverts the vectorizer's `{word: index}` vocabulary into
    a list;
  - the end of `preprocess`: lemmatize, drop stop words, join with spaces.
- **String operations** (`StringOps`). These are Python's `str.replace`, the
  `split(sep)` that Python and JavaScript share for a one-character
  separator, and `sep.join`, each with its language's edge cases.

Where the code and the intended behaviour differ, the model follows the code:

- A group that the filters empty does not get a defined average. Its
  `remove` computes `0/0`, so both averages become `NaN`
  (`TopicReducer.EmptiedGroupIsNaN`).
- The day-of-week names are off by one day (see "## Findings").

The first view parses up-votes from a column named `'up votes'`
(web/reddit.js:23). `sanitize_column_name('ups')` is `'ups'`, so that column
is not among the headers the script writes. The second view reads `d.ups`
instead (web/reddit.js:271). The reducer model takes each post's up-votes as
a number that has already been parsed.

## Model

| member | source | states |
|---|---|---|
| TopicReducer.Divide | web/reddit.js:48-49 | JavaScript `/` on the sums: finite exactly when the count is non-zero, and then the quotient times the count is the sum. `NaN` exactly for 0/0, `Infinity` or `-Infinity` for a non-zero sum over 0. |
| TopicReducer.Accumulator.Initial | web/reddit.js:66-74 | `initial()`: count, both sums and both averages are zero. No post has been added or removed. |
| TopicReducer.Accumulator.Add | web/reddit.js:42-52 | `add`: count grows by exactly 1 and each sum grows by the post's field. The averages are recomputed from the new sums. The post is recorded as added, and the sums stay equal to added minus removed. |
| TopicReducer.Accumulator.Remove | web/reddit.js:54-64 | `remove`: count shrinks by exactly 1 and each sum shrinks by the post's field. The averages are recomputed. The post is recorded as removed, and the invariant is kept. |
| TopicReducer.AddThenRemove | web/reddit.js:42-64 | `remove` after `add` of the same post restores the count, both sums and the set of active posts. |
| TopicReducer.Sum | web/reddit.js:45-46 | The running sum of one field over a run of posts: 0 for no posts, and the post's own field for one post. |
| TopicReducer.SumNonNegative | web/reddit.js:46 | A field that is never negative, such as the word count, never gives a negative sum. |
| TopicReducer.SumAppend | web/reddit.js:45-46 | The sum over two runs of posts is the sum of their sums. |
| TopicReducer.RemoveAt | web/reddit.js:57-58 | Taking one post out of a run takes its field out of the sum and the post out of the multiset. |
| TopicReducer.SumPermutation | web/reddit.js:42-64 | Two runs with the same multiset of posts have the same sums. |
| TopicReducer.ActiveTotals | web/reddit.js:42-64 | If only posts that are in get removed, the count is the number of active posts. Each sum is the total over the active posts, listed in any order. |
| TopicReducer.EmptiedGroupIsNaN | web/reddit.js:55-61 | Once a group's count returns to 0, no posts are active and both averages are `NaN` (0/0), not a defined value. |
| TopicReducer.EventStep | web/reddit.js:40-64 | One more filter event adds its post to the entered or to the left posts. |
| TopicReducer.EventMultiplicity | web/reddit.js:40-64 | How often a post entered or left equals how often its event occurs, whatever the event order. |
| TopicReducer.ReorderedEvents | web/reddit.js:40-64 | Reordering the events changes neither the multisets of posts entered and left nor their sums. |
| TopicReducer.Replay | web/reddit.js:40-64 | Driving the reducer through a run of events moves the count by entered minus left. Each sum moves by the sum over entered minus the sum over left. After at least one event both averages are again the sums divided by the count. With no events they are unchanged. |
| TopicReducer.TopicScenario | web/reddit.js:40-75 | Topic A gets posts with 10 and 20 up-votes and topic B one post with 15. B's post is then filtered out. A's average is 15, and B's is `NaN`. |
| Dimensions.RoundHalfUp | web/reddit.js:127 | `Math.round`: the result is within half a unit of the input, and halves round up. |
| Dimensions.WordBucket | web/reddit.js:127 | The bucket is a multiple of 25 at most 12 words away from the count. |
| Dimensions.BucketClosedForm | web/reddit.js:127 | For integer counts the bucket is `25 * ((2w + 25) / 50)` with floor division. |
| Dimensions.BucketIsNearest | web/reddit.js:127 | No multiple of 25 is closer to the count than its bucket. |
| Dimensions.BucketMonotone | web/reddit.js:127 | More words never give a lower bucket. |
| Dimensions.BucketExamples | web/reddit.js:127 | 110 words are in bucket 100, and 113 words in bucket 125. |
| Dimensions.DigitText | web/reddit.js:186 | A day number as `+` writes it: one decimal digit, never '.'. |
| Dimensions.DayKey | web/reddit.js:183-187 | The key is the day's digit and its table name joined by '.'. This restates the body through `Join`, so that `SplitJoin` applies to it. |
| Dimensions.RowLabel | web/reddit.js:199-201 | `key.split('.')[1]`: defined exactly when the key holds a '.'. Without one, JavaScript's `undefined` is `None` here. |
| Dimensions.SplitHasTwoPieces | web/reddit.js:200 | A key holding a '.' splits into at least two pieces. |
| Dimensions.DayLabelRoundTrip | web/reddit.js:184-186 | For every day 0..6, the label of the key is that day's entry of the name table. |
| Dimensions.DayKeyInjective | web/reddit.js:183-187 | Different days give different keys. |
| Dimensions.GetDay | web/reddit.js:184 | `getDay()` numbers the weekdays 0..6 starting at Sunday. |
| Dimensions.AsWrittenLabelIsNextDay | web/reddit.js:184-186 | With the table as written, every post is labelled with the name of the following weekday, never its own. |
| Dimensions.SundayLabelledMonday | web/reddit.js:184-186 | A Sunday post lands in the row labelled "Mon". |
| Dimensions.CorrectedDayKey | web/reddit.js:183-187 | The key with the table in `getDay()` order, joined the same way. Like `DayKey`, this restates the body through `Join`. |
| Dimensions.CorrectedLabelIsOwnDay | web/reddit.js:184-186 | With the corrected table every post is labelled with its own weekday, and the key's leading digit is still `getDay()`. |
| ScatterMatrix.Row | web/reddit.js:371 | One pass of the inner loop: `|b|` cells pairing `a[i]` with each `b[j]`. |
| ScatterMatrix.RowsLength | web/reddit.js:370-371 | After `k` outer passes, `k * |b|` cells have been pushed. |
| ScatterMatrix.RowsAt | web/reddit.js:370-371 | After `k` outer passes, the cell for `a[i]`, `b[j]` with `i < k` is at position `i * |b| + j`. |
| ScatterMatrix.RowMajorOrder | web/reddit.js:370-371 | After `k` outer passes, every cell `(i', j')` of an earlier row comes before every cell `(i, j)` of a later row. Both cells are where `RowsAt` puts them. |
| ScatterMatrix.AllRows | web/reddit.js:369-373 | All rows together are the row-major product, with every position given. |
| ScatterMatrix.Cross | web/reddit.js:369-373 | `cross(a, b)` has `|a| * |b|` cells. Position `i * |b| + j` holds `{x: a[i], i: i, y: b[j], j: j}`. |
| StringOps.Contains | code/feature_extraction.py:199-200 | Python's `pat in s`, which decides where `replace` matches. It holds only when the pattern fits in the text. |
| StringOps.ContainsAt | code/feature_extraction.py:199-200 | `Contains` holds exactly when some slice of the text equals the pattern. |
| StringOps.ContainsChar | code/feature_extraction.py:199 | A one-character text occurs exactly where that character does. |
| StringOps.NoFirstChar | code/feature_extraction.py:200 | A pattern whose first character is absent does not occur. |
| StringOps.NoSecondChar | code/feature_extraction.py:200 | A pattern whose second character is absent does not occur. |
| StringOps.ReplaceAll | code/feature_extraction.py:199-200 | Python's `s.replace(old, new)`, which scans left to right and replaces non-overlapping matches. An empty `old` inserts `new` before every character and at the end. A non-empty pattern replaced by text of the same length keeps the length. |
| StringOps.ReplaceFirstChar | code/feature_extraction.py:199 | Replacing a character copies the text before its first occurrence and substitutes that occurrence. |
| StringOps.CopyFirstChar | code/feature_extraction.py:199 | The inductive step of `ReplaceFirstChar`. |
| StringOps.ReplaceAbsent | code/feature_extraction.py:199-200 | Where the pattern does not occur, `replace` changes nothing. |
| StringOps.ReplaceCharRemovesIt | code/feature_extraction.py:199 | Replacing a character by text without it leaves none of it. |
| StringOps.ReplaceKeepsCharOut | code/feature_extraction.py:200 | A character in neither the text nor the replacement is not in the result. |
| StringOps.Split | web/reddit.js:200 | `split(sep)` gives at least one piece, and no piece holds the separator. |
| StringOps.Join | code/feature_extraction.py:113 | `sep.join` is empty exactly for no words or one empty word. With two or more words it holds the separator, and each word fits in it. |
| StringOps.SplitNoSeparator | web/reddit.js:200 | A text without the separator splits into itself. |
| StringOps.SplitAfterWord | web/reddit.js:200 | A separator after a separator-free word cuts exactly there. |
| StringOps.SplitJoin | web/reddit.js:186-200 | Splitting a join of separator-free words gives back the words. |
| FeatureExtraction.SanitizeColumnName | code/feature_extraction.py:198-201 | No header contains an underscore. |
| FeatureExtraction.SanitizeLeavesPlainNames | code/feature_extraction.py:198-201 | A name with no '_' and no "num" is returned unchanged. |
| FeatureExtraction.SanitizeTwoWords | code/feature_extraction.py:198-201 | `a_b` with no "num" anywhere becomes `a b`. |
| FeatureExtraction.UnderscoreOfCountColumn | code/feature_extraction.py:199 | The first `replace` turns `num_<what>` into `num <what>`. |
| FeatureExtraction.NumOfCountColumn | code/feature_extraction.py:200 | The second `replace` turns `num <what>` into `number of <what>`. |
| FeatureExtraction.SanitizeCountColumn | code/feature_extraction.py:198-201 | `num_<what>` becomes `number of <what>`. |
| FeatureExtraction.PlainHeader | code/feature_extraction.py:207-209 | `date`, `ups` and `score` (no '_', no 'n') keep their names. |
| FeatureExtraction.WordsHeader | code/feature_extraction.py:207-209 | `num_words` becomes "number of words", the header read at web/reddit.js:21. |
| FeatureExtraction.CommentsHeader | code/feature_extraction.py:207-209 | `num_comments` becomes "number of comments". |
| FeatureExtraction.TopicNameHeader | code/feature_extraction.py:207-209 | `topic_name` becomes "topic name". |
| FeatureExtraction.Over18Header | code/feature_extraction.py:207-209 | `over_18` becomes "over 18". |
| FeatureExtraction.WebHeadersMatch | code/feature_extraction.py:207-209 | Renaming the seven web columns gives exactly the seven headers the dashboard reads, in order. |
| FeatureExtraction.MaxIndex | code/feature_extraction.py:175 | `max(vocab_dict.values())` bounds every value. |
| FeatureExtraction.MaxIndexAttained | code/feature_extraction.py:175 | The maximum is one of the values. |
| FeatureExtraction.ListLength | code/feature_extraction.py:175 | The length of `[None] * count`: the count itself, or 0 when the count is negative. |
| FeatureExtraction.Written | code/feature_extraction.py:177-178 | What the loop leaves in slot `p`: the word of the last item aimed at it, or `None`. Only a slot inside the list is ever written. |
| FeatureExtraction.Slot | code/feature_extraction.py:178 | `vocab[value]` on a list of length n: defined exactly for `-n <= value < n`, with negative values counting from the end. |
| FeatureExtraction.WrittenMeaning | code/feature_extraction.py:175-178 | A slot stays `None` exactly when no item targets it. Otherwise it holds the word of an item targeting it, and no later item targets it. |
| FeatureExtraction.WrittenStep | code/feature_extraction.py:177-178 | One more assignment changes only the slot it targets. |
| FeatureExtraction.InvertVocabulary | code/feature_extraction.py:174-178 | An empty vocabulary fails as `max()` does. Otherwise the loop fails exactly at the first out-of-range value, with that value. On success the list has length `max + 1`, and each slot holds its last writer or `None`. |
| FeatureExtraction.WordAtItsIndex | code/feature_extraction.py:177-178 | With distinct non-negative values, each word is at its own index. |
| FeatureExtraction.ItemInRange | code/feature_extraction.py:177-178 | With distinct non-negative values, an item whose value lies inside the list reads back its word at that value. |
| FeatureExtraction.ItemInverts | code/feature_extraction.py:175-178 | For a vectorizer's vocabulary, `vocab[vocab_dict[w]] == w` for each item. |
| FeatureExtraction.InversionSucceeds | code/feature_extraction.py:175-178 | For a vectorizer's vocabulary, every value fits in the list, so the loop raises no IndexError. |
| FeatureExtraction.StopList | code/feature_extraction.py:105-108 | The English list extended by the two `extend` calls. The English words come first and unchanged, and 22 words follow, every custom stop word among them. |
| FeatureExtraction.Lemmatize | code/feature_extraction.py:100-102 | The loop appends one lemma per token, in token order. |
| FeatureExtraction.RemoveStopWords | code/feature_extraction.py:110 | `filter` keeps every non-stop lemma as often as it occurs and in order, as a subsequence. No stop word is kept. |
| FeatureExtraction.Lemmas | code/feature_extraction.py:100-102 | The lemmas of the tokens, one per token. |
| FeatureExtraction.Preprocess | code/feature_extraction.py:100-113 | The output is the kept lemmas joined by single spaces. When every lemma is non-empty, it is empty exactly when every lemma is a stop word. |
| FeatureExtraction.EmptyOutput | code/feature_extraction.py:110-113 | With non-empty lemmas, the joined text is empty exactly when every lemma is a stop word. |
| FeatureExtraction.CustomStopWordsRemoved | code/feature_extraction.py:106-110 | None of the 22 added stop words survives the filter. |
| FeatureExtraction.OutputSplitsBack | code/feature_extraction.py:110-113 | When some lemma survives and no lemma contains a space, splitting the output on spaces gives back the kept lemmas. |

## Left out

- Loading the CSV with `d3.csv`, the `+x` coercion of fields to numbers, and parsing dates with `d3.time.format` are left out. Posts arrive as integer up-votes and word counts, and the weekday arrives as a `Weekday` or a day number.
- Floating point is left out: sums are unbounded integers and averages are exact rationals. Precision loss above 2^53 and rounding of the quotient are not modelled.
- Crossfilter's indexing, filter propagation and the charts are left out. `Replay` stands in for crossfilter calling the reducer once per post entering or leaving the filter. The line chart's `reduceCount()` group (web/reddit.js:155), the chart configuration, the scatter-matrix layout and its domain padding are left out too.
- The second view's nulling of `score`, `topic name` and `over 18` (web/reddit.js:263-277) is left out.
- `getDay()` on an invalid date (`NaN`) is left out, because the key is only defined for day numbers 0..6.
- In `preprocess`, link and punctuation stripping, lower-casing, `nltk.word_tokenize`, the WordNet lemmatizer and the English stop-word corpus are inputs, not models. Tokens, the lemmatizer and the corpus are given values.
- LDA training, the CountVectorizer, the `argsort` top-word selection, `add_nlp_features`, and the pandas, pickle and CSV writes in `convert_to_web_df` and `main` are left out. These are foreign libraries and I/O.
- FeatureExtraction.InvertVocabulary: the dictionary comes as a sequence of items in its iteration order, which Python leaves unspecified. Its result is stated for any order.
- TopicReducer.ActiveTotals: the count and sums equal the totals over the active posts only if no post is removed before it was added. The reducer itself does not check this; crossfilter guarantees it.

## Findings

| source | as written | input that shows it | evidently intended | confidence | as-written member | corrected member |
|---|---|---|---|---|---|---|
| web/reddit.js:184-186 | The name table starts at `'Mon'`, but `getDay()` numbers Sunday 0, so `name[day]` is the next day's name and Saturday's key is `6.Sun` | A post dated on a Sunday: `getDay()` is 0, the key is `0.Mon`, and the row label is "Mon" | The table in `getDay()` order, `['Sun', 'Mon', ..., 'Sat']`, so each post is labelled with its own weekday | not executed | Dimensions.AsWrittenLabelIsNextDay | Dimensions.CorrectedLabelIsOwnDay |
