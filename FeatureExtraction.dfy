/**
 * The self-contained computations of the feature-extraction script: the
 * column renaming that produces the dashboard's CSV headers, the inversion
 * of the vectorizer's vocabulary into a list indexed by word number, and the
 * stop-word filter and join that end `preprocess`.
 */
module FeatureExtraction {
  import StringOps
  import opened Wrappers

  // ---------------------------------------------------------------------
  // sanitize_column_name
  // ---------------------------------------------------------------------

  /** `sanitize_column_name`: underscores become spaces, then every "num"
      becomes "number of". No underscore is left, since the second
      replacement brings none in. */
  function SanitizeColumnName(name: string): (header: string)
    ensures '_' !in header
  {
    var spaced := StringOps.ReplaceAll(name, "_", " ");
    StringOps.ReplaceCharRemovesIt(name, '_', " ");
    StringOps.ReplaceKeepsCharOut(spaced, "num", "number of", '_');
    StringOps.ReplaceAll(spaced, "num", "number of")
  }

  /** The seven columns `convert_to_web_df` keeps, in its order. */
  const WebColumns: seq<string> :=
    ["date", "num_words", "ups", "score", "num_comments", "topic_name", "over_18"]

  /** The headers the dashboard reads for them. */
  const WebHeaders: seq<string> :=
    ["date", "number of words", "ups", "score", "number of comments", "topic name", "over 18"]

  /** A name with no underscore and no "num" in it is left as it is. */
  lemma SanitizeLeavesPlainNames(name: string)
    requires '_' !in name && !StringOps.Contains(name, "num")
    ensures SanitizeColumnName(name) == name
  {
    StringOps.ContainsChar(name, '_');
    StringOps.ReplaceAbsent(name, "_", " ");
    StringOps.ReplaceAbsent(name, "num", "number of");
  }

  /** Two words joined by one underscore, with no "num" anywhere: the
      underscore becomes a space and nothing else changes. */
  lemma SanitizeTwoWords(a: string, b: string)
    requires '_' !in a && '_' !in b && !StringOps.Contains(a + " " + b, "num")
    ensures SanitizeColumnName(a + "_" + b) == a + " " + b
  {
    StringOps.ReplaceFirstChar(a, '_', b, " ");
    StringOps.ContainsChar(b, '_');
    StringOps.ReplaceAbsent(b, "_", " ");
    StringOps.ReplaceAbsent(a + " " + b, "num", "number of");
  }

  /** The first replacement on a count column: `num_<what>` to `num <what>`. */
  lemma UnderscoreOfCountColumn(what: string)
    requires '_' !in what
    ensures StringOps.ReplaceAll("num_" + what, "_", " ") == "num " + what
  {
    assert "num_" + what == "num" + ['_'] + what;
    StringOps.ReplaceFirstChar("num", '_', what, " ");
    StringOps.ContainsChar(what, '_');
    StringOps.ReplaceAbsent(what, "_", " ");
  }

  /** The second replacement on a count column: `num <what>` to
      `number of <what>`. */
  lemma NumOfCountColumn(what: string)
    requires !StringOps.Contains(" " + what, "num")
    ensures StringOps.ReplaceAll("num " + what, "num", "number of") == "number of " + what
  {
    assert "num " + what == "num" + (" " + what);
    StringOps.ReplaceAtMatch("num", " " + what, "number of");
    StringOps.ReplaceAbsent(" " + what, "num", "number of");
  }

  /** A count column `num_<what>`: its header is `number of <what>`. */
  lemma SanitizeCountColumn(what: string)
    requires '_' !in what && !StringOps.Contains(" " + what, "num")
    ensures SanitizeColumnName("num_" + what) == "number of " + what
  {
    UnderscoreOfCountColumn(what);
    NumOfCountColumn(what);
  }

  /** A name with neither an underscore nor an 'n' keeps its name. */
  lemma PlainHeader(name: string)
    requires '_' !in name && 'n' !in name
    ensures SanitizeColumnName(name) == name
  {
    StringOps.NoFirstChar(name, "num");
    SanitizeLeavesPlainNames(name);
  }

  /** `num_words` reads "number of words". */
  lemma WordsHeader()
    ensures SanitizeColumnName("num_words") == "number of words"
  {
    var name, header := "num_" + "words", "number of " + "words";
    assert SanitizeColumnName(name) == header by {
      var tail := " " + "words";
      assert 'n' !in tail;
      StringOps.NoFirstChar(tail, "num");
      SanitizeCountColumn("words");
    }
    assert name == "num_words";
    assert header == "number of words";
  }

  /** `num_comments` reads "number of comments". */
  lemma CommentsHeader()
    ensures SanitizeColumnName("num_comments") == "number of comments"
  {
    var name, header := "num_" + "comments", "number of " + "comments";
    assert SanitizeColumnName(name) == header by {
      var tail := " " + "comments";
      assert 'u' !in tail;
      StringOps.NoSecondChar(tail, "num");
      SanitizeCountColumn("comments");
    }
    assert name == "num_comments";
    assert header == "number of comments";
  }

  /** `topic_name` reads "topic name". */
  lemma TopicNameHeader()
    ensures SanitizeColumnName("topic_name") == "topic name"
  {
    var name, header := "topic" + "_" + "name", "topic" + " " + "name";
    assert SanitizeColumnName(name) == header by {
      assert 'u' !in header;
      StringOps.NoSecondChar(header, "num");
      SanitizeTwoWords("topic", "name");
    }
    assert name == "topic_name";
    assert header == "topic name";
  }

  /** `over_18` reads "over 18". */
  lemma Over18Header()
    ensures SanitizeColumnName("over_18") == "over 18"
  {
    var name, header := "over" + "_" + "18", "over" + " " + "18";
    assert SanitizeColumnName(name) == header by {
      assert 'n' !in header;
      StringOps.NoFirstChar(header, "num");
      SanitizeTwoWords("over", "18");
    }
    assert name == "over_18";
    assert header == "over 18";
  }

  /** Renaming the web columns gives exactly the dashboard's headers. */
  lemma WebHeadersMatch()
    ensures |WebColumns| == |WebHeaders|
    ensures forall k :: 0 <= k < |WebColumns| ==> SanitizeColumnName(WebColumns[k]) == WebHeaders[k]
  {
    forall k | 0 <= k < |WebColumns|
      ensures SanitizeColumnName(WebColumns[k]) == WebHeaders[k]
    {
      if k == 0 || k == 2 || k == 3 {
        PlainHeader(WebColumns[k]);
      } else if k == 1 {
        WordsHeader();
      } else if k == 4 {
        CommentsHeader();
      } else if k == 5 {
        TopicNameHeader();
      } else {
        Over18Header();
      }
    }
  }

  // ---------------------------------------------------------------------
  // Vocabulary inversion in create_topic_top_words_df
  // ---------------------------------------------------------------------

  /** What stops the inversion: `max()` of no values (ValueError) or a word
      number outside the list (IndexError). */
  datatype VocabError = EmptyVocabulary | IndexOutOfRange(index: int)

  datatype Result<T> = Ok(value: T) | Err(error: VocabError)

  /** `max(vocab_dict.values())`, the dictionary given by its items. */
  function MaxIndex(items: seq<(string, int)>): (top: int)
    requires items != []
    ensures forall k :: 0 <= k < |items| ==> items[k].1 <= top
  {
    if |items| == 1 then items[0].1
    else
      var rest, last := MaxIndex(items[..|items| - 1]), items[|items| - 1].1;
      if last >= rest then last else rest
  }

  /** The maximum is one of the values. */
  lemma {:induction false} MaxIndexAttained(items: seq<(string, int)>)
    requires items != []
    ensures exists k :: 0 <= k < |items| && items[k].1 == MaxIndex(items)
    decreases |items|
  {
    if |items| > 1 {
      var init := items[..|items| - 1];
      MaxIndexAttained(init);
      var k :| 0 <= k < |init| && init[k].1 == MaxIndex(init);
      if items[|items| - 1].1 >= MaxIndex(init) {
        assert items[|items| - 1].1 == MaxIndex(items);
      } else {
        assert items[k] == init[k];
      }
    } else {
      assert items[0].1 == MaxIndex(items);
    }
  }

  /** Length of `[None] * (count)`: a count below one gives an empty list. */
  function ListLength(count: int): (len: nat)
    ensures len == count || (count < 0 && len == 0)
  {
    if count > 0 then count else 0
  }

  /** The slot `vocab[index]` refers to in a list of length `n`: negative
      indices count from the end, as in Python; `None` is an IndexError. */
  function Slot(index: int, n: nat): (s: Option<int>)
    ensures s.Some? <==> -(n as int) <= index < n
    ensures s.Some? ==> 0 <= s.value < n && (s.value == index || s.value == index + n)
  {
    if 0 <= index < n then Some(index)
    else if -(n as int) <= index < 0 then Some(index + n)
    else None
  }

  /** What slot `p` of a list of length `n` holds after the items were
      written in order: the word of the last item aimed at it, `None` if
      no item was. */
  function Written(items: seq<(string, int)>, n: nat, p: int): (w: Option<string>)
    ensures w.Some? ==> 0 <= p < n
  {
    if items == [] then None
    else
      var last := items[|items| - 1];
      if Slot(last.1, n) == Some(p) then Some(last.0) else Written(items[..|items| - 1], n, p)
  }

  /** A slot is left empty exactly when no item is aimed at it; otherwise it
      holds the word of an item aimed at it, and no later item is. */
  lemma {:induction false} WrittenMeaning(items: seq<(string, int)>, n: nat, p: int)
    ensures Written(items, n, p).None? <==> forall k :: 0 <= k < |items| ==> Slot(items[k].1, n) != Some(p)
    ensures Written(items, n, p).Some? ==> exists k :: (0 <= k < |items| && Slot(items[k].1, n) == Some(p) &&
      items[k].0 == Written(items, n, p).value && forall l :: k < l < |items| ==> Slot(items[l].1, n) != Some(p))
    decreases |items|
  {
    if items != [] {
      var init := items[..|items| - 1];
      WrittenMeaning(init, n, p);
      assert forall k :: 0 <= k < |init| ==> init[k] == items[k];
      if Slot(items[|items| - 1].1, n) != Some(p) && Written(init, n, p).Some? {
        var k :| 0 <= k < |init| && Slot(init[k].1, n) == Some(p) &&
          init[k].0 == Written(init, n, p).value && forall l :: k < l < |init| ==> Slot(init[l].1, n) != Some(p);
        assert forall l :: k < l < |items| ==> Slot(items[l].1, n) != Some(p);
      }
    }
  }

  /** The first `k` items all refer to a slot of a list of length `n`. */
  ghost predicate SlotsValid(items: seq<(string, int)>, n: nat, k: int)
    requires 0 <= k <= |items|
  {
    forall l :: 0 <= l < k ==> Slot(items[l].1, n).Some?
  }

  /** Item `k` is the first whose index is outside a list of length `n`. */
  ghost predicate FirstBadItem(items: seq<(string, int)>, n: nat, k: int)
    requires 0 <= k < |items|
  {
    SlotsValid(items, n, k) && Slot(items[k].1, n).None?
  }

  /** Writing one more item changes only the slot it is aimed at. */
  lemma WrittenStep(items: seq<(string, int)>, k: int, n: nat, p: int)
    requires 0 <= k < |items|
    ensures Written(items[..k + 1], n, p) ==
      if Slot(items[k].1, n) == Some(p) then Some(items[k].0) else Written(items[..k], n, p)
  {
    assert items[..k + 1][..k] == items[..k];
  }

  /** The loop of `create_topic_top_words_df` that turns `{word: index}`
      into a list with every word at its index. The items come in the
      dictionary's iteration order, which Python leaves unspecified. */
  method InvertVocabulary(items: seq<(string, int)>) returns (r: Result<seq<Option<string>>>)
    ensures r == Err(EmptyVocabulary) <==> items == []
    ensures r.Ok? <==> items != [] && SlotsValid(items, ListLength(MaxIndex(items) + 1), |items|)
    ensures r.Err? && items != [] ==>
      exists k :: 0 <= k < |items| && FirstBadItem(items, ListLength(MaxIndex(items) + 1), k) && r.error == IndexOutOfRange(items[k].1)
    ensures r.Ok? ==> |r.value| == MaxIndex(items) + 1
    ensures r.Ok? ==> forall p :: 0 <= p < |r.value| ==> r.value[p] == Written(items, |r.value|, p)
  {
    if items == [] {
      return Err(EmptyVocabulary);
    }
    var n := ListLength(MaxIndex(items) + 1);
    var vocab := new Option<string>[n](_ => None);
    for k := 0 to |items|
      invariant SlotsValid(items, n, k)
      invariant forall p :: 0 <= p < n ==> vocab[p] == Written(items[..k], n, p)
    {
      var (word, index) := items[k];
      var slot := Slot(index, n);
      if slot.None? {
        assert FirstBadItem(items, n, k);
        return Err(IndexOutOfRange(index));
      }
      vocab[slot.value] := Some(word);
      forall p | 0 <= p < n
        ensures vocab[p] == Written(items[..k + 1], n, p)
      {
        WrittenStep(items, k, n, p);
      }
    }
    assert items[..|items|] == items;
    return Ok(vocab[..]);
  }

  /** The values are distinct, non-negative word numbers, as a vectorizer's
      vocabulary has them. */
  ghost predicate DistinctIndices(items: seq<(string, int)>)
  {
    (forall k :: 0 <= k < |items| ==> items[k].1 >= 0) &&
    (forall k, l :: 0 <= k < l < |items| ==> items[k].1 != items[l].1)
  }

  /** With distinct non-negative indices every word sits at its own index
      after the loop: `vocab[vocab_dict[w]] == w`. */
  lemma {:induction false} WordAtItsIndex(items: seq<(string, int)>, n: nat, k: nat)
    requires DistinctIndices(items) && k < |items| && items[k].1 < n
    ensures Written(items, n, items[k].1) == Some(items[k].0)
    decreases |items|
  {
    var init := items[..|items| - 1];
    if k < |items| - 1 {
      assert init[k] == items[k];
      assert DistinctIndices(init);
      WordAtItsIndex(init, n, k);
    }
  }

  /** One item of a vectorizer's vocabulary: its index is in range and its
      word ends up there. */
  lemma ItemInverts(items: seq<(string, int)>, k: int)
    requires items != [] && DistinctIndices(items) && 0 <= k < |items|
    ensures MaxIndex(items) >= 0
    ensures Slot(items[k].1, MaxIndex(items) + 1) == Some(items[k].1)
    ensures Written(items, MaxIndex(items) + 1, items[k].1) == Some(items[k].0)
  {
    assert 0 <= items[k].1 <= MaxIndex(items);
    ItemInRange(items, MaxIndex(items) + 1, k);
  }

  /** An item whose index lies inside the list is read back at that index. */
  lemma ItemInRange(items: seq<(string, int)>, n: nat, k: int)
    requires DistinctIndices(items) && 0 <= k < |items| && items[k].1 < n
    ensures Slot(items[k].1, n) == Some(items[k].1)
    ensures Written(items, n, items[k].1) == Some(items[k].0)
  {
    WordAtItsIndex(items, n, k);
  }

  /** A vectorizer's vocabulary always inverts: every index is inside the
      list `[None] * (max + 1)`, so the loop raises no IndexError (and by
      `ItemInverts` each index gets its own word back). */
  lemma InversionSucceeds(items: seq<(string, int)>)
    requires items != [] && DistinctIndices(items)
    ensures MaxIndex(items) >= 0
    ensures SlotsValid(items, ListLength(MaxIndex(items) + 1), |items|)
  {
    var n := ListLength(MaxIndex(items) + 1);
    assert items[0].1 >= 0;
    forall k | 0 <= k < |items|
      ensures Slot(items[k].1, n).Some?
    {
      assert 0 <= items[k].1 < n;
    }
  }

  // ---------------------------------------------------------------------
  // The end of preprocess: lemmatize, drop stop words, join
  // ---------------------------------------------------------------------

  /** The stop words `preprocess` adds to the English list, first batch. */
  const ExtraStopWords: seq<string> :=
    ["gay", "guy", "im", "ive", "like", "feel", "dont", "life", "ha", "wa", "doesnt", "really", "think",
     "thing", "said", "didnt", "did", "do"]

  /** The second batch. */
  const MoreStopWords: seq<string> := ["friend", "little", "got", "went"]

  /** The English stop-word corpus, extended with both batches. */
  function StopList(english: seq<string>): (stop: seq<string>)
    ensures |stop| == |english| + 22 && stop[..|english|] == english
    ensures forall w :: w in ExtraStopWords || w in MoreStopWords ==> w in stop
  {
    english + ExtraStopWords + MoreStopWords
  }

  /** The loop of `preprocess` that appends the lemma of every token to
      `stems`; the lemmatizer is a given function. */
  method Lemmatize(words: seq<string>, lemmatize: string -> string) returns (stems: seq<string>)
    ensures |stems| == |words|
    ensures forall i :: 0 <= i < |words| ==> stems[i] == lemmatize(words[i])
  {
    stems := [];
    for i := 0 to |words|
      invariant |stems| == i
      invariant forall l :: 0 <= l < i ==> stems[l] == lemmatize(words[l])
    {
      stems := stems + [lemmatize(words[i])];
    }
  }

  /** `xs` is `ys` with some elements left out, the rest in order. */
  predicate IsSubsequence(xs: seq<string>, ys: seq<string>)
    decreases |ys|
  {
    if xs == [] then true
    else if ys == [] then false
    else if xs[0] == ys[0] then IsSubsequence(xs[1..], ys[1..])
    else IsSubsequence(xs, ys[1..])
  }

  /** `filter(lambda x: x not in stop, stems)`: every stem outside the stop
      list is kept, as often as it occurs and in its order, and no stop word
      is. */
  function RemoveStopWords(stems: seq<string>, stop: seq<string>): (kept: seq<string>)
    ensures forall k :: 0 <= k < |kept| ==> kept[k] !in stop
    ensures forall w :: w !in stop ==> multiset(kept)[w] == multiset(stems)[w]
    ensures IsSubsequence(kept, stems)
    decreases |stems|
  {
    if stems == [] then []
    else
      var rest := RemoveStopWords(stems[1..], stop);
      assert stems == [stems[0]] + stems[1..];
      if stems[0] in stop then rest
      else
        assert ([stems[0]] + rest)[1..] == rest;
        [stems[0]] + rest
  }

  /** The lemmas of the tokens, in order. */
  function Lemmas(tokens: seq<string>, lemmatize: string -> string): (stems: seq<string>)
    ensures |stems| == |tokens|
  {
    seq(|tokens|, i requires 0 <= i < |tokens| => lemmatize(tokens[i]))
  }

  /** The tail of `preprocess` on the tokens of the cleaned text: lemmatize,
      drop the stop words, join with single spaces. When every lemma is
      non-empty the result is empty exactly when every lemma is a stop word. */
  method Preprocess(tokens: seq<string>, lemmatize: string -> string, english: seq<string>) returns (output: string)
    ensures output == StringOps.Join(RemoveStopWords(Lemmas(tokens, lemmatize), StopList(english)), ' ')
    ensures (forall i :: 0 <= i < |tokens| ==> lemmatize(tokens[i]) != []) ==>
      (output == [] <==> forall i :: 0 <= i < |tokens| ==> lemmatize(tokens[i]) in StopList(english))
  {
    var stems := Lemmatize(tokens, lemmatize);
    assert stems == Lemmas(tokens, lemmatize);
    var kept := RemoveStopWords(stems, StopList(english));
    output := StringOps.Join(kept, ' ');
    if forall i :: 0 <= i < |tokens| ==> lemmatize(tokens[i]) != [] {
      EmptyOutput(stems, StopList(english));
    }
  }

  /** With non-empty stems, nothing survives the filter exactly when every
      stem is a stop word, and then the joined text is empty. */
  lemma EmptyOutput(stems: seq<string>, stop: seq<string>)
    requires forall i :: 0 <= i < |stems| ==> stems[i] != []
    ensures StringOps.Join(RemoveStopWords(stems, stop), ' ') == [] <==> forall i :: 0 <= i < |stems| ==> stems[i] in stop
  {
    var kept := RemoveStopWords(stems, stop);
    if !forall i :: 0 <= i < |stems| ==> stems[i] in stop {
      var i :| 0 <= i < |stems| && stems[i] !in stop;
      assert stems[i] in multiset(stems);
      assert stems[i] in multiset(kept);
      if |kept| == 1 {
        assert kept[0] == stems[i];
      }
    }
  }

  /** None of the dashboard-specific stop words survives. */
  lemma CustomStopWordsRemoved(stems: seq<string>, english: seq<string>)
    ensures forall k :: 0 <= k < |RemoveStopWords(stems, StopList(english))| ==>
      RemoveStopWords(stems, StopList(english))[k] !in ExtraStopWords + MoreStopWords
  {
  }

  /** Splitting the output on spaces gives back the kept lemmas, as long as
      some lemma survives and none contains a space. */
  lemma OutputSplitsBack(stems: seq<string>, stop: seq<string>)
    requires forall i :: 0 <= i < |stems| ==> ' ' !in stems[i]
    requires RemoveStopWords(stems, stop) != []
    ensures StringOps.Split(StringOps.Join(RemoveStopWords(stems, stop), ' '), ' ') == RemoveStopWords(stems, stop)
  {
    var kept := RemoveStopWords(stems, stop);
    forall k | 0 <= k < |kept|
      ensures ' ' !in kept[k]
    {
      assert kept[k] in multiset(kept);
      assert kept[k] in multiset(stems);
      assert kept[k] in stems;
    }
    StringOps.SplitJoin(kept, ' ');
  }
}
