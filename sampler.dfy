/** `get_random_examples`: pick a topic with at least five documents, draw
    five of its documents, and highlight in each the keywords all five share.
    The two random draws are inputs: the position of the chosen topic in the
    list of eligible topics, and five distinct positions within its cluster. */
module Sampler {
  import opened Text
  import opened Keywords
  import opened Highlighter
  import opened Dataset

  /** A topic is eligible when it has at least this many documents. */
  const MinClusterSize: nat := 5

  /** How many documents are drawn from the chosen topic. */
  const SampleSize: nat := 5

  /** A drawn document with its `highlighted` column. */
  datatype Example = Example(record: Record, highlighted: string)

  /** The chosen topic and its five examples, indexed 0 to 4. */
  datatype Sample = Sample(topic: int, examples: seq<Example>)

  datatype SampleError = NoEligibleTopic

  datatype Result<T, E> = Ok(value: T) | Err(error: E)

  /** `df[df['topic'] == t]`: the documents of topic `t`, in table order. */
  function Cluster(df: seq<Record>, t: int): (c: seq<Record>)
    ensures |c| <= |df|
    ensures forall k :: 0 <= k < |c| ==> c[k].topic == t
    ensures forall r :: r in c <==> r in df && r.topic == t
  {
    if df == [] then []
    else
      var last := df[|df| - 1];
      var pre := df[..|df| - 1];
      assert df == pre + [last];
      Cluster(pre, t) + (if last.topic == t then [last] else [])
  }

  /** The positions of the documents of topic `t`, in increasing order. */
  function ClusterIndices(df: seq<Record>, t: int): (r: seq<nat>)
    ensures forall k :: 0 <= k < |r| ==> r[k] < |df| && df[r[k]].topic == t
    ensures forall k, l :: 0 <= k < l < |r| ==> r[k] < r[l]
    ensures forall i :: 0 <= i < |df| && df[i].topic == t ==> i in r
  {
    if df == [] then []
    else
      var n := |df| - 1;
      var p := ClusterIndices(df[..n], t);
      assert forall i :: 0 <= i < n ==> df[..n][i] == df[i];
      p + (if df[n].topic == t then [n] else [])
  }

  /** The cluster of `t` is the subsequence of the table at exactly the
      positions whose topic is `t`, in table order. */
  lemma {:induction false} ClusterSelects(df: seq<Record>, t: int)
    ensures |Cluster(df, t)| == |ClusterIndices(df, t)|
    ensures forall k :: 0 <= k < |Cluster(df, t)| ==> Cluster(df, t)[k] == df[ClusterIndices(df, t)[k]]
  {
    if df != [] {
      var n := |df| - 1;
      var pre := df[..n];
      ClusterSelects(pre, t);
      var c, ix := Cluster(pre, t), ClusterIndices(pre, t);
      var whole, positions := Cluster(df, t), ClusterIndices(df, t);
      ClusterUnfold(df, t);
      forall k | 0 <= k < |c|
        ensures whole[k] == df[positions[k]]
      {
        assert whole[k] == c[k] && positions[k] == ix[k];
        assert pre[ix[k]] == df[ix[k]];
      }
    }
  }

  /** The last document of the table joins the cluster, and its position the
      indices, exactly when it has topic `t`. */
  lemma ClusterUnfold(df: seq<Record>, t: int)
    requires df != []
    ensures Cluster(df, t) == Cluster(df[..|df| - 1], t) + (if df[|df| - 1].topic == t then [df[|df| - 1]] else [])
    ensures ClusterIndices(df, t) == ClusterIndices(df[..|df| - 1], t) + (if df[|df| - 1].topic == t then [|df| - 1] else [])
  {
  }

  /** How many documents topic `t` has, its entry in `value_counts()`: the
      number of positions whose topic is `t`. */
  function Count(df: seq<Record>, t: int): (c: nat)
    ensures c == |ClusterIndices(df, t)|
  {
    ClusterSelects(df, t);
    |Cluster(df, t)|
  }

  /** A topic with a document is one of the table's topics. */
  lemma CountedTopicsAppear(df: seq<Record>)
    ensures forall t :: |Cluster(df, t)| > 0 ==> t in Topics(df)
  {
    forall t | |Cluster(df, t)| > 0
      ensures t in Topics(df)
    {
      var c := Cluster(df, t);
      assert c[0] in c;
    }
  }

  /** The distinct topics of the table, in order of first appearance. */
  function Topics(df: seq<Record>): (ts: seq<int>)
    ensures forall t :: t in ts <==> exists r :: r in df && r.topic == t
    ensures forall i, j :: 0 <= i < j < |ts| ==> ts[i] != ts[j]
  {
    if df == [] then []
    else
      var last := df[|df| - 1];
      var pre := df[..|df| - 1];
      assert df == pre + [last];
      var p := Topics(pre);
      if last.topic in p then p else p + [last.topic]
  }

  /** The topics of `ts` with at least five documents, keeping their order. */
  function KeepEligible(df: seq<Record>, ts: seq<int>): (es: seq<int>)
    ensures forall t :: t in es <==> t in ts && Count(df, t) >= MinClusterSize
    ensures (forall i, j :: 0 <= i < j < |ts| ==> ts[i] != ts[j])
        ==> forall i, j :: 0 <= i < j < |es| ==> es[i] != es[j]
  {
    if ts == [] then []
    else
      var rest := KeepEligible(df, ts[1..]);
      assert forall t :: t in ts <==> t == ts[0] || t in ts[1..];
      if Count(df, ts[0]) >= MinClusterSize then [ts[0]] + rest else rest
  }

  /** The eligible topics: a topic is listed exactly when it has at least
      five documents, and no topic is listed twice. */
  function EligibleTopics(df: seq<Record>): (es: seq<int>)
    ensures forall t :: t in es <==> Count(df, t) >= MinClusterSize
    ensures forall i, j :: 0 <= i < j < |es| ==> es[i] != es[j]
  {
    CountedTopicsAppear(df);
    KeepEligible(df, Topics(df))
  }

  /** `set.intersection(*sets) if sets else set()`. */
  function IntersectAll(sets: seq<set<string>>): (r: set<string>)
    ensures sets == [] ==> r == {}
    ensures sets != [] ==> forall w :: w in r <==> forall i :: 0 <= i < |sets| ==> w in sets[i]
  {
    if sets == [] then {}
    else if |sets| == 1 then sets[0]
    else
      var rest := IntersectAll(sets[1..]);
      assert forall i :: 1 <= i < |sets| ==> sets[i] == sets[1..][i - 1];
      sets[0] * rest
  }

  /** The keyword sets of the documents, one per document. */
  function KeywordSets(records: seq<Record>): (sets: seq<set<string>>)
    ensures |sets| == |records|
    ensures forall k :: 0 <= k < |records| ==> sets[k] == ExtractKeywords(records[k].combinedText)
  {
    seq(|records|, k requires 0 <= k < |records| => ExtractKeywords(records[k].combinedText))
  }

  /** The keywords every one of the documents contains: a word is common
      exactly when each document has it as a keyword, so every common word is
      a keyword. With no documents there are none. */
  function CommonKeywords(records: seq<Record>): (r: set<string>)
    ensures records == [] ==> r == {}
    ensures records != [] ==>
      forall w :: w in r <==> forall k :: 0 <= k < |records| ==> w in ExtractKeywords(records[k].combinedText)
    ensures AllKeywords(r)
  {
    var sets := KeywordSets(records);
    assert forall k :: 0 <= k < |records| ==> sets[k] == ExtractKeywords(records[k].combinedText);
    IntersectAll(sets)
  }

  /** The common keywords are a subset of each document's keywords. */
  lemma CommonKeywordsSubset(records: seq<Record>, k: int)
    requires 0 <= k < |records|
    ensures CommonKeywords(records) <= ExtractKeywords(records[k].combinedText)
  {
    forall w | w in CommonKeywords(records)
      ensures w in ExtractKeywords(records[k].combinedText)
    {
    }
  }

  /** The random draws are possible: `random.choice` picked a position in the
      eligible list, `sample(5)` five distinct positions in that topic's cluster. */
  predicate ValidDraw(df: seq<Record>, topicIndex: nat, picks: seq<nat>) {
    topicIndex < |EligibleTopics(df)|
    && |picks| == SampleSize
    && (forall k :: 0 <= k < |picks| ==> picks[k] < Count(df, EligibleTopics(df)[topicIndex]))
    && (forall k, l :: 0 <= k < l < |picks| ==> picks[k] != picks[l])
  }

  /** The documents of a list of examples, in order. */
  function Records(examples: seq<Example>): (rs: seq<Record>)
    ensures |rs| == |examples|
    ensures forall k :: 0 <= k < |examples| ==> rs[k] == examples[k].record
  {
    seq(|examples|, k requires 0 <= k < |examples| => examples[k].record)
  }

  /** Each document with its `combined_text` highlighted for `common`. */
  function HighlightedExamples(chosen: seq<Record>, common: set<string>): (examples: seq<Example>)
    ensures Records(examples) == chosen
    ensures HighlightedFor(examples, common)
  {
    var examples := seq(|chosen|, k requires 0 <= k < |chosen| =>
      Example(chosen[k], Highlighted(chosen[k].combinedText, common)));
    assert forall k :: 0 <= k < |chosen| ==> Records(examples)[k] == chosen[k];
    forall k | 0 <= k < |chosen| && common == {}
      ensures examples[k].highlighted == chosen[k].combinedText
    {
      assert Highlighted(chosen[k].combinedText, common) == chosen[k].combinedText;
    }
    examples
  }

  /** The documents of `cluster` at the drawn positions, in draw order. */
  function Pick(cluster: seq<Record>, picks: seq<nat>): (chosen: seq<Record>)
    requires forall k :: 0 <= k < |picks| ==> picks[k] < |cluster|
    ensures |chosen| == |picks|
    ensures forall k :: 0 <= k < |picks| ==> chosen[k] == cluster[picks[k]]
  {
    seq(|picks|, k requires 0 <= k < |picks| => cluster[picks[k]])
  }

  /** Drawing every position of `cluster` once, in any order, yields its
      documents rearranged: the same multiset. */
  lemma {:induction false} PickAllIsPermutation(cluster: seq<Record>, picks: seq<nat>)
    requires |picks| == |cluster|
    requires forall k :: 0 <= k < |picks| ==> picks[k] < |cluster|
    requires forall k, l :: 0 <= k < l < |picks| ==> picks[k] != picks[l]
    ensures multiset(Pick(cluster, picks)) == multiset(cluster)
    decreases |picks|
  {
    if picks != [] {
      var n := |picks| - 1;
      var q := picks[n];
      var rest := cluster[..q] + cluster[q + 1..];
      var shifted := seq(n, k requires 0 <= k < n => if picks[k] > q then picks[k] - 1 else picks[k]);
      forall k | 0 <= k < n
        ensures shifted[k] < |rest| && rest[shifted[k]] == cluster[picks[k]]
      {
        assert picks[k] != q;
      }
      PickAllIsPermutation(rest, shifted);
      assert Pick(cluster, picks) == Pick(rest, shifted) + [cluster[q]];
      assert cluster == cluster[..q] + [cluster[q]] + cluster[q + 1..];
    }
  }

  /** What `get_random_examples` returns for the given draws: an error
      exactly when no topic is eligible, and otherwise the drawn topic with
      five examples. */
  function RandomExamples(df: seq<Record>, topicIndex: nat, picks: seq<nat>): (r: Result<Sample, SampleError>)
    requires EligibleTopics(df) != [] ==> ValidDraw(df, topicIndex, picks)
    ensures r.Err? <==> EligibleTopics(df) == []
    ensures r.Ok? ==> r.value.topic == EligibleTopics(df)[topicIndex] && |r.value.examples| == SampleSize
  {
    if EligibleTopics(df) == [] then Err(NoEligibleTopic)
    else
      var topic := EligibleTopics(df)[topicIndex];
      var chosen := Pick(Cluster(df, topic), picks);
      Ok(Sample(topic, HighlightedExamples(chosen, CommonKeywords(chosen))))
  }

  /** `get_random_examples` fails exactly when no topic has five documents.
      Otherwise it returns the drawn eligible topic, which has at least five
      documents, and five examples indexed 0 to 4: each is the cluster's
      document at its drawn position, all five are of that topic, and each is
      highlighted for the keywords all five share (unchanged when they share
      none). */
  lemma RandomExamplesSpec(df: seq<Record>, topicIndex: nat, picks: seq<nat>)
    requires EligibleTopics(df) != [] ==> ValidDraw(df, topicIndex, picks)
    ensures RandomExamples(df, topicIndex, picks).Err? <==> EligibleTopics(df) == []
    ensures RandomExamples(df, topicIndex, picks).Ok? ==>
      var s := RandomExamples(df, topicIndex, picks).value;
      && s.topic == EligibleTopics(df)[topicIndex]
      && Count(df, s.topic) >= MinClusterSize
      && |s.examples| == SampleSize
      && (forall k :: 0 <= k < SampleSize ==>
            s.examples[k].record == Cluster(df, s.topic)[picks[k]] && s.examples[k].record.topic == s.topic)
      && HighlightedFor(s.examples, CommonKeywords(Records(s.examples)))
  {
    if EligibleTopics(df) != [] {
      var topic := EligibleTopics(df)[topicIndex];
      assert topic in EligibleTopics(df);
      SampleRecords(df, topicIndex, picks);
      SampleHighlighted(df, topicIndex, picks);
    }
  }

  lemma SampleRecords(df: seq<Record>, topicIndex: nat, picks: seq<nat>)
    requires EligibleTopics(df) != [] && ValidDraw(df, topicIndex, picks)
    ensures
      var s := RandomExamples(df, topicIndex, picks).value;
      forall k :: 0 <= k < SampleSize ==>
        s.examples[k].record == Cluster(df, s.topic)[picks[k]] && s.examples[k].record.topic == s.topic
  {
    var topic := EligibleTopics(df)[topicIndex];
    var cluster := Cluster(df, topic);
    var chosen := Pick(cluster, picks);
    DrawnSample(df, topicIndex, picks);
    var s := RandomExamples(df, topicIndex, picks).value;
    assert s.topic == topic;
    forall k | 0 <= k < SampleSize
      ensures s.examples[k].record == cluster[picks[k]] && s.examples[k].record.topic == topic
    {
      assert s.examples[k].record == Records(s.examples)[k] == chosen[k];
      assert picks[k] < |cluster|;
    }
  }

  lemma SampleHighlighted(df: seq<Record>, topicIndex: nat, picks: seq<nat>)
    requires EligibleTopics(df) != [] && ValidDraw(df, topicIndex, picks)
    ensures
      var s := RandomExamples(df, topicIndex, picks).value;
      HighlightedFor(s.examples, CommonKeywords(Records(s.examples)))
  {
    DrawnSample(df, topicIndex, picks);
  }

  /** Unfolds the result for a possible draw. */
  lemma DrawnSample(df: seq<Record>, topicIndex: nat, picks: seq<nat>)
    requires EligibleTopics(df) != [] && ValidDraw(df, topicIndex, picks)
    ensures
      var topic := EligibleTopics(df)[topicIndex];
      var chosen := Pick(Cluster(df, topic), picks);
      && RandomExamples(df, topicIndex, picks) == Ok(Sample(topic, HighlightedExamples(chosen, CommonKeywords(chosen))))
      && Records(RandomExamples(df, topicIndex, picks).value.examples) == chosen
  {
  }

  /** The five examples are five different rows of the table, all of the
      chosen topic: the rows at distinct positions whose topic it is. */
  lemma DrawnRows(df: seq<Record>, topicIndex: nat, picks: seq<nat>)
    requires EligibleTopics(df) != [] && ValidDraw(df, topicIndex, picks)
    ensures
      var s := RandomExamples(df, topicIndex, picks).value;
      var positions := ClusterIndices(df, s.topic);
      && (forall k :: 0 <= k < SampleSize ==>
            picks[k] < |positions| && s.examples[k].record == df[positions[picks[k]]])
      && (forall k, l :: 0 <= k < l < SampleSize ==> positions[picks[k]] != positions[picks[l]])
  {
    var topic := EligibleTopics(df)[topicIndex];
    DrawnSample(df, topicIndex, picks);
    ClusterSelects(df, topic);
    var positions := ClusterIndices(df, topic);
    forall k, l | 0 <= k < l < SampleSize
      ensures positions[picks[k]] != positions[picks[l]]
    {
      if picks[k] < picks[l] {
        assert positions[picks[k]] < positions[picks[l]];
      } else {
        assert positions[picks[l]] < positions[picks[k]];
      }
    }
  }

  /** Drawing five documents without replacement from a topic that has
      exactly five returns all of them, whatever the draw. */
  lemma WholeClusterDrawn(df: seq<Record>, topicIndex: nat, picks: seq<nat>)
    requires EligibleTopics(df) != [] && ValidDraw(df, topicIndex, picks)
    requires Count(df, EligibleTopics(df)[topicIndex]) == SampleSize
    ensures
      var s := RandomExamples(df, topicIndex, picks).value;
      multiset(Records(s.examples)) == multiset(Cluster(df, s.topic))
  {
    var topic := EligibleTopics(df)[topicIndex];
    var cluster := Cluster(df, topic);
    DrawnSample(df, topicIndex, picks);
    PickAllIsPermutation(cluster, picks);
  }

  /** `get_random_examples`, computed step by step as the source does. */
  method GetRandomExamples(df: seq<Record>, topicIndex: nat, picks: seq<nat>)
      returns (result: Result<Sample, SampleError>)
    requires EligibleTopics(df) != [] ==> ValidDraw(df, topicIndex, picks)
    ensures result == RandomExamples(df, topicIndex, picks)
  {
    var eligible := EligibleTopics(df);
    if eligible == [] {
      return Err(NoEligibleTopic);
    }
    var topic := eligible[topicIndex];
    var cluster := Cluster(df, topic);
    var chosen := Draw(cluster, picks);
    var common := IntersectKeywords(chosen);
    var examples := HighlightAll(chosen, common);
    return Ok(Sample(topic, examples));
  }

  /** `cluster.sample(5).reset_index(drop=True)`, the draw given as positions. */
  method Draw(cluster: seq<Record>, picks: seq<nat>) returns (chosen: seq<Record>)
    requires forall k :: 0 <= k < |picks| ==> picks[k] < |cluster|
    ensures chosen == Pick(cluster, picks)
  {
    chosen := [];
    var i := 0;
    while i < |picks|
      invariant 0 <= i <= |picks|
      invariant |chosen| == i
      invariant forall k :: 0 <= k < i ==> chosen[k] == cluster[picks[k]]
    {
      chosen := chosen + [cluster[picks[i]]];
      i := i + 1;
    }
    assert forall k :: 0 <= k < |picks| ==> chosen[k] == Pick(cluster, picks)[k];
  }

  /** The keyword set of each document, then their intersection (empty when
      there are no documents). */
  method IntersectKeywords(chosen: seq<Record>) returns (common: set<string>)
    ensures common == CommonKeywords(chosen)
    ensures AllKeywords(common)
  {
    var sets: seq<set<string>> := [];
    var i := 0;
    while i < |chosen|
      invariant 0 <= i <= |chosen|
      invariant sets == KeywordSets(chosen[..i])
    {
      assert chosen[..i + 1] == chosen[..i] + [chosen[i]];
      sets := sets + [ExtractKeywords(chosen[i].combinedText)];
      i := i + 1;
    }
    assert chosen[..|chosen|] == chosen;
    common := if sets != [] then IntersectAll(sets) else {};
  }

  /** Each example's `highlighted` text is its `combined_text` with every
      whole word of `common` marked; with nothing in common it is the
      `combined_text` itself. */
  predicate HighlightedFor(examples: seq<Example>, common: set<string>) {
    (forall k :: 0 <= k < |examples| ==>
       examples[k].highlighted == Highlighted(examples[k].record.combinedText, common))
    && (common == {} ==> forall k :: 0 <= k < |examples| ==>
       examples[k].highlighted == examples[k].record.combinedText)
  }

  /** One document with its `combined_text` highlighted. */
  method HighlightOne(record: Record, common: set<string>) returns (e: Example)
    requires AllKeywords(common)
    ensures e.record == record
    ensures e.highlighted == Highlighted(record.combinedText, common)
  {
    var h;
    ghost var order;
    h, order := Highlight(record.combinedText, common);
    e := Example(record, h);
  }

  /** `examples['combined_text'].apply(lambda x: highlight_keywords(x, common))`. */
  method HighlightAll(chosen: seq<Record>, common: set<string>) returns (examples: seq<Example>)
    requires AllKeywords(common)
    ensures examples == HighlightedExamples(chosen, common)
  {
    examples := [];
    var i := 0;
    while i < |chosen|
      invariant 0 <= i <= |chosen|
      invariant |examples| == i
      invariant forall k :: 0 <= k < i ==>
        examples[k] == Example(chosen[k], Highlighted(chosen[k].combinedText, common))
    {
      var e := HighlightOne(chosen[i], common);
      examples := examples + [e];
      i := i + 1;
    }
    assert forall k :: 0 <= k < |chosen| ==> examples[k] == HighlightedExamples(chosen, common)[k];
  }
}
