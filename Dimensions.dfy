/**
 * Two of the dashboard's dimension keys: the word-count bucket of the bar
 * chart and the day-of-week key of the row chart, with the label the row
 * chart cuts back out of that key.
 */
module Dimensions {
  import StringOps
  import opened Wrappers

  // ---------------------------------------------------------------------
  // Word-count bucket: `Math.round(d.num_words / 25) * 25`
  // ---------------------------------------------------------------------

  /** JavaScript's `Math.round`: the nearest integer, halves rounded up
      (towards +infinity, so -2.5 rounds to -2). */
  function RoundHalfUp(x: real): (n: int)
    ensures n as real - 0.5 <= x < n as real + 0.5
  {
    (x + 0.5).Floor
  }

  /** The bucket a post with `numWords` words falls in: a multiple of 25
      no more than 12 words away. */
  function WordBucket(numWords: int): (key: int)
    ensures key % 25 == 0
    ensures -12 <= key - numWords <= 12
  {
    var q := RoundHalfUp(numWords as real / 25.0);
    assert q as real * 25.0 - 12.5 <= numWords as real < q as real * 25.0 + 12.5;
    q * 25
  }

  /** For integer word counts the bucket is pure integer arithmetic with
      floor division. */
  lemma BucketClosedForm(w: int)
    ensures WordBucket(w) == 25 * ((2 * w + 25) / 50)
  {
    var q, r := (2 * w + 25) / 50, (2 * w + 25) % 50;
    assert 2 * w + 25 == 50 * q + r && 0 <= r < 50;
    var x := w as real / 25.0 + 0.5;
    assert x == q as real + r as real / 50.0;
    assert q as real <= x < q as real + 1.0;
    assert x.Floor == q;
  }

  function Abs(x: int): nat
  {
    if x < 0 then -x else x
  }

  /** The bucket is the nearest multiple of 25: no multiple is closer. */
  lemma BucketIsNearest(w: int, m: int)
    requires m % 25 == 0
    ensures Abs(WordBucket(w) - w) <= Abs(m - w)
  {
    var k := WordBucket(w);
    if m != k {
      assert (m - k) % 25 == 0;
      assert m - k >= 25 || m - k <= -25;
    }
  }

  /** More words never fall in a lower bucket. */
  lemma BucketMonotone(w1: int, w2: int)
    requires w1 <= w2
    ensures WordBucket(w1) <= WordBucket(w2)
  {
    BucketClosedForm(w1);
    BucketClosedForm(w2);
    assert (2 * w1 + 25) / 50 <= (2 * w2 + 25) / 50;
  }

  /** 110 words are in bucket 100, 113 words in bucket 125. */
  lemma BucketExamples()
    ensures WordBucket(110) == 100
    ensures WordBucket(113) == 125
  {
    BucketClosedForm(110);
    BucketClosedForm(113);
  }

  // ---------------------------------------------------------------------
  // Day of week: `day + '.' + name[day]`, labelled by `key.split('.')[1]`
  // ---------------------------------------------------------------------

  /** The name table exactly as the dashboard writes it. */
  const DayNames: seq<string> := ["Mon", "Tue", "Wed", "Thu", "Fri", "Sat", "Sun"]

  /** The decimal text of a digit, as JavaScript's `+` writes a number. */
  function DigitText(d: int): (s: string)
    requires 0 <= d < 10
    ensures |s| == 1 && '0' <= s[0] <= '9' && s[0] != '.'
  {
    [('0' as int + d) as char]
  }

  /** The dimension key of a post whose date falls on day number `day`. */
  function DayKey(day: int): (key: string)
    requires 0 <= day < 7
    ensures key == StringOps.Join([DigitText(day), DayNames[day]], '.')
  {
    DigitText(day) + "." + DayNames[day]
  }

  /** The row label: the second piece of the key split on '.'; JavaScript
      gives `undefined`, here `None`, when the key has no '.'. */
  function RowLabel(key: string): (l: Option<string>)
    ensures l.Some? <==> '.' in key
  {
    var parts := StringOps.Split(key, '.');
    if '.' !in key then
      StringOps.SplitNoSeparator(key, '.');
      None
    else
      SplitHasTwoPieces(key);
      Some(parts[1])
  }

  /** A text with a '.' splits into at least two pieces. */
  lemma {:induction false} SplitHasTwoPieces(s: string)
    requires '.' in s
    ensures |StringOps.Split(s, '.')| >= 2
    decreases |s|
  {
    if s[0] != '.' {
      SplitHasTwoPieces(s[1..]);
    }
  }

  /** The label recovers the name the key was built from. */
  lemma DayLabelRoundTrip(day: int)
    requires 0 <= day < 7
    ensures RowLabel(DayKey(day)) == Some(DayNames[day])
  {
    var parts := [DigitText(day), DayNames[day]];
    assert '.' !in parts[0] && '.' !in parts[1];
    StringOps.SplitJoin(parts, '.');
  }

  /** Different days give different keys, so no two days share a row. */
  lemma DayKeyInjective(d1: int, d2: int)
    requires 0 <= d1 < 7 && 0 <= d2 < 7 && d1 != d2
    ensures DayKey(d1) != DayKey(d2)
  {
    assert DayKey(d1)[0] != DayKey(d2)[0];
  }

  // ---------------------------------------------------------------------
  // Which day `getDay()` numbers how
  // ---------------------------------------------------------------------

  datatype Weekday = Sunday | Monday | Tuesday | Wednesday | Thursday | Friday | Saturday

  /** `Date.prototype.getDay()`: Sunday is 0, Saturday is 6. */
  function GetDay(w: Weekday): (day: int)
    ensures 0 <= day < 7
  {
    match w
    case Sunday => 0
    case Monday => 1
    case Tuesday => 2
    case Wednesday => 3
    case Thursday => 4
    case Friday => 5
    case Saturday => 6
  }

  /** The three-letter name a reader expects for a weekday. */
  function ShortName(w: Weekday): string
  {
    match w
    case Sunday => "Sun"
    case Monday => "Mon"
    case Tuesday => "Tue"
    case Wednesday => "Wed"
    case Thursday => "Thu"
    case Friday => "Fri"
    case Saturday => "Sat"
  }

  function NextDay(w: Weekday): Weekday
  {
    match w
    case Sunday => Monday
    case Monday => Tuesday
    case Tuesday => Wednesday
    case Wednesday => Thursday
    case Thursday => Friday
    case Friday => Saturday
    case Saturday => Sunday
  }

  /** As written, the table starts at Monday while `getDay()` starts at
      Sunday: every post is labelled with the day after its own. */
  lemma AsWrittenLabelIsNextDay(w: Weekday)
    ensures RowLabel(DayKey(GetDay(w))) == Some(ShortName(NextDay(w)))
    ensures RowLabel(DayKey(GetDay(w))) != Some(ShortName(w))
  {
    DayLabelRoundTrip(GetDay(w));
  }

  /** A Sunday post lands in the row labelled "Mon". */
  lemma SundayLabelledMonday()
    ensures RowLabel(DayKey(GetDay(Sunday))) == Some("Mon")
  {
    AsWrittenLabelIsNextDay(Sunday);
  }

  /** The table in `getDay()` order. */
  const SundayFirstDayNames: seq<string> := ["Sun", "Mon", "Tue", "Wed", "Thu", "Fri", "Sat"]

  /** The key with the table in `getDay()` order. */
  function CorrectedDayKey(day: int): (key: string)
    requires 0 <= day < 7
    ensures key == StringOps.Join([DigitText(day), SundayFirstDayNames[day]], '.')
  {
    DigitText(day) + "." + SundayFirstDayNames[day]
  }

  /** With the corrected table every post is labelled with its own day, and
      the keys still sort in `getDay()` order. */
  lemma CorrectedLabelIsOwnDay(w: Weekday)
    ensures RowLabel(CorrectedDayKey(GetDay(w))) == Some(ShortName(w))
    ensures CorrectedDayKey(GetDay(w))[0] as int == '0' as int + GetDay(w)
  {
    var parts := [DigitText(GetDay(w)), SundayFirstDayNames[GetDay(w)]];
    assert '.' !in parts[0] && '.' !in parts[1];
    StringOps.SplitJoin(parts, '.');
  }
}
