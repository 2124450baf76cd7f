/** The dataset loader: the length guard, prefix slicing of the unlabeled
    data, and the shared subsetting routine behind the labeled and gold
    loaders. Tables arrive as values; reading the CSV files is not modelled. */
module Loader {
  import opened Wrappers
  import opened Slicing
  import opened Table
  import opened Labels

  /** The exceptions the loader raises. */
  datatype Error =
    | TooManySamples(requested: int, available: nat)  // AttributeError from the length guard
    | SubtopicsNotList                                 // AttributeError for a non-list `subtopics`
    | UnknownTopic(name: string)                       // KeyError from the topic lookup
    | NoTopicsSelected                                 // `% 0` or `pd.concat([])` on an empty selection

  /** The `subtopics` argument: omitted (`None`), a list of topic names, or
      any other value. */
  datatype Subtopics = Unspecified | TopicList(names: seq<string>) | NotAList

  /** The `topic_to_ix` dictionary: topic names in insertion order and the
      index each one maps to. */
  datatype TopicIndex = TopicIndex(names: seq<string>, ix: map<string, int>) {

    /** Each key once, and exactly the keys of the map. */
    predicate Valid() {
      && Distinct(names)
      && (forall name :: name in ix ==> name in names)
      && (forall i :: 0 <= i < |names| ==> names[i] in ix)
    }

    /** `topic_to_ix.values()`, in the dictionary's order. */
    function Values(): (vs: seq<int>)
      requires Valid()
      ensures |vs| == |names|
      ensures forall i :: 0 <= i < |names| ==> vs[i] == ix[names[i]]
    {
      seq(|names|, i requires 0 <= i < |names| => ix[names[i]])
    }
  }

  // ---------------------------------------------------------------------
  // The length guard and the unlabeled loader
  // ---------------------------------------------------------------------

  /** `_verify_length`: raises exactly when more samples are requested than
      the data holds, and does nothing otherwise. */
  function VerifyLength(numSamples: int, dataLength: nat): (r: Outcome<Error>)
    ensures r.Fail? <==> numSamples > dataLength
    ensures r.Fail? ==> r.error == TooManySamples(numSamples, dataLength)
  {
    if numSamples > dataLength then Fail(TooManySamples(numSamples, dataLength)) else Pass
  }

  /** `load_unlabeled`: the guard, then `data[:num_samples]`. Every success is
      a prefix of the data, and a count within bounds gives exactly that many
      leading rows. */
  function LoadUnlabeled<T>(data: seq<T>, numSamples: int, v: Variant): (r: Result<seq<T>, Error>)
    ensures r.Failure? <==> numSamples > |data|
    ensures r.Failure? ==> r.error == TooManySamples(numSamples, |data|)
    ensures 0 <= numSamples <= |data| ==> r == Success(data[..numSamples])
    ensures r.Success? ==> r.value <= data
  {
    match VerifyLength(numSamples, |data|)
    case Fail(e) => Failure(e)
    case Pass => Success(Limit(data, numSamples, v))
  }

  /** As written, the default `num_samples=-1` loses the last row. */
  lemma UnlabeledSentinelDropsLast<T>(data: seq<T>)
    requires |data| > 0
    ensures LoadUnlabeled(data, -1, AsWritten) == Success(data[..|data| - 1])
    ensures LoadUnlabeled(data, -1, AsWritten) != Success(data)
  {
    PySliceSentinel(data);
    assert |data[..|data| - 1]| != |data|;
  }

  /** As intended, the default returns every row. */
  lemma UnlabeledIntendedKeepsAll<T>(data: seq<T>)
    ensures LoadUnlabeled(data, -1, Intended) == Success(data)
  {
  }

  // ---------------------------------------------------------------------
  // Resolving the selected topics
  // ---------------------------------------------------------------------

  /** `[topic_to_ix[st] for st in subtopics]`: the names are looked up left
      to right and the first unknown one raises. */
  function LookupAll(ix: map<string, int>, names: seq<string>): (r: Result<seq<int>, Error>)
    ensures r.Success? <==> forall i :: 0 <= i < |names| ==> names[i] in ix
    ensures r.Success? ==> |r.value| == |names| && forall i :: 0 <= i < |names| ==> r.value[i] == ix[names[i]]
    ensures r.Failure? ==> exists i :: 0 <= i < |names| && FirstUnknown(ix, names, i) && r.error == UnknownTopic(names[i])
  {
    if |names| == 0 then Success([])
    else if names[0] !in ix then
      assert FirstUnknown(ix, names, 0);
      Failure(UnknownTopic(names[0]))
    else
      match LookupAll(ix, names[1..])
      case Failure(e) =>
        var i :| 0 <= i < |names[1..]| && FirstUnknown(ix, names[1..], i) && e == UnknownTopic(names[1..][i]);
        assert FirstUnknown(ix, names, i + 1);
        Failure(e)
      case Success(rest) => Success([ix[names[0]]] + rest)
  }

  /** `names[i]` is the first name the map does not know. */
  predicate FirstUnknown(ix: map<string, int>, names: seq<string>, i: int) {
    0 <= i < |names| && names[i] !in ix && forall j :: 0 <= j < i ==> names[j] in ix
  }

  /** The topic indices `_load_subset` concatenates: all values of the map
      when `subtopics` is omitted, the looked-up names when it is a list, a
      failure for anything else or for an unknown name. */
  function ResolveSubtopics(tm: TopicIndex, subtopics: Subtopics): (r: Result<seq<int>, Error>)
    requires tm.Valid()
    ensures r.Success? ==> forall i :: 0 <= i < |r.value| ==> r.value[i] in tm.ix.Values
    ensures r.Success? && subtopics.Unspecified? ==> |r.value| == |tm.ix|
    ensures r.Success? && subtopics.TopicList? ==> |r.value| == |subtopics.names|
    ensures r.Success? && subtopics.Unspecified? ==>
      |r.value| == |tm.names| && forall i :: 0 <= i < |tm.names| ==> r.value[i] == tm.ix[tm.names[i]]
    ensures r.Success? && subtopics.TopicList? ==>
      forall i :: 0 <= i < |subtopics.names| ==> subtopics.names[i] in tm.ix && r.value[i] == tm.ix[subtopics.names[i]]
    ensures r.Failure? <==>
      subtopics.NotAList? || (subtopics.TopicList? && exists i :: 0 <= i < |subtopics.names| && subtopics.names[i] !in tm.ix)
    ensures r.Failure? ==> r.error == SubtopicsNotList || r.error.UnknownTopic?
    ensures subtopics.NotAList? ==> r == Failure(SubtopicsNotList)
    ensures subtopics.TopicList? ==> r == LookupAll(tm.ix, subtopics.names)
  {
    match subtopics
    case Unspecified =>
      var vs := tm.Values();
      KeysCount(tm);
      assert forall i :: 0 <= i < |vs| ==> tm.names[i] in tm.ix;
      Success(vs)
    case NotAList => Failure(SubtopicsNotList)
    case TopicList(names) => LookupAll(tm.ix, names)
  }

  /** A valid index has one key per listed name. */
  lemma KeysCount(tm: TopicIndex)
    requires tm.Valid()
    ensures |tm.ix| == |tm.names|
  {
    assert tm.ix.Keys == set i | 0 <= i < |tm.names| :: tm.names[i];
    DistinctNamesCard(tm.names);
  }

  lemma {:induction false} DistinctNamesCard(names: seq<string>)
    requires Distinct(names)
    ensures |set i | 0 <= i < |names| :: names[i]| == |names|
  {
    if |names| > 0 {
      var p := names[..|names| - 1];
      DistinctNamesCard(p);
      var sp := set i | 0 <= i < |p| :: p[i];
      assert (set i | 0 <= i < |names| :: names[i]) == sp + {names[|names| - 1]};
      assert names[|names| - 1] !in sp;
    }
  }

  // ---------------------------------------------------------------------
  // Balanced quotas
  // ---------------------------------------------------------------------

  /** `math.ceil(n / k)` for a positive `k`: the least `q` with `k * q >= n`. */
  function CeilDiv(n: int, k: int): (q: int)
    requires k > 0
    ensures k * (q - 1) < n <= k * q
  {
    var d := (-n) / k;
    assert -n == k * d + (-n) % k;
    -d
  }

  /** `samples_per_topic`: the balanced quota when balancing applies and a
      count is given, the sentinel -1 otherwise. */
  function Quota(numSamples: int, k: int, balanced: bool): (q: int)
    requires k > 0
    ensures balanced && numSamples != -1 ==> k * (q - 1) < numSamples <= k * q
    ensures balanced && numSamples >= 0 ==> q >= 0
    ensures !(balanced && numSamples != -1) ==> q == -1
  {
    if balanced && numSamples != -1 then CeilDiv(numSamples, k) else -1
  }

  /** The condition of the divisibility warning (star/starloader.py:96-98). */
  function WouldWarn(numSamples: int, k: int, balanced: bool): bool
    requires k > 0
  {
    balanced && numSamples != -1 && numSamples % k != 0
  }

  /** Multiplying by a non-negative factor is monotonic. */
  lemma MulMono(k: int, a: int, b: int)
    requires k >= 0 && a <= b
    ensures k * a <= k * b
  {
    assert k * b - k * a == k * (b - a);
  }

  /** The loader warns exactly when the balanced quotas overshoot the
      requested count, so that the final truncation cuts some topic short. */
  lemma WarnIffQuotaOvershoots(numSamples: int, k: int, balanced: bool)
    requires k > 0
    ensures WouldWarn(numSamples, k, balanced) <==>
      balanced && numSamples != -1 && k * Quota(numSamples, k, balanced) != numSamples
  {
    if balanced && numSamples != -1 {
      var q := Quota(numSamples, k, balanced);
      var d := numSamples / k;
      var m := numSamples % k;
      assert numSamples == k * d + m;
      if m == 0 {
        if q < d {
          MulMono(k, q, d - 1);
        } else if q > d {
          MulMono(k, d, q - 1);
        }
      } else if k * q == numSamples {
        assert k * (q - d) == m;
        if q - d >= 1 {
          MulMono(k, 1, q - d);
        } else {
          MulMono(k, q - d, 0);
        }
      }
    }
  }

  // ---------------------------------------------------------------------
  // The combined table
  // ---------------------------------------------------------------------

  /** `data[data["topic"] == topic][:samples_per_topic]`. */
  function Block(data: seq<Row>, topic: int, quota: int, v: Variant): seq<Row>
  {
    Limit(Filter(data, topic), quota, v)
  }

  /** Each block is a leading part of its topic's rows in table order: with a
      non-negative quota, up to `quota` of them; with the sentinel, all but
      the last as written and all as intended. */
  lemma BlockShape(data: seq<Row>, topic: int, quota: int, v: Variant)
    ensures Block(data, topic, quota, v) <= Filter(data, topic)
    ensures quota >= 0 ==> |Block(data, topic, quota, v)| == Min(quota, |Filter(data, topic)|)
    ensures quota == -1 && v == AsWritten && |Filter(data, topic)| > 0 ==>
      Block(data, topic, quota, v) == Filter(data, topic)[..|Filter(data, topic)| - 1]
    ensures quota == -1 && v == Intended ==> Block(data, topic, quota, v) == Filter(data, topic)
  {
    LimitLength(Filter(data, topic), quota, v);
    PySliceSentinel(Filter(data, topic));
  }

  /** `pd.concat([...  for topic in subtopics])`: the blocks one after
      another in the order of `topics`. Every row is a row of the data whose
      topic is one of the selected ones. */
  function Concat(data: seq<Row>, topics: seq<int>, quota: int, v: Variant): (r: seq<Row>)
    ensures forall x :: x in r ==> x in data && x.topic.Hard? && x.topic.index in topics
  {
    if |topics| == 0 then []
    else Block(data, topics[0], quota, v) + Concat(data, topics[1..], quota, v)
  }

  /** Concatenation follows the topic order: the blocks of `t1 + t2` are
      those of `t1` followed by those of `t2`. */
  lemma {:induction false} ConcatAppend(data: seq<Row>, t1: seq<int>, t2: seq<int>, quota: int, v: Variant)
    ensures Concat(data, t1 + t2, quota, v) == Concat(data, t1, quota, v) + Concat(data, t2, quota, v)
  {
    if |t1| == 0 {
      assert t1 + t2 == t2;
    } else {
      assert (t1 + t2)[1..] == t1[1..] + t2;
      ConcatAppend(data, t1[1..], t2, quota, v);
    }
  }

  /** The combined table is contiguous blocks: the block of the `i`-th
      selected topic sits between the blocks of the topics before it and
      those after it. */
  lemma ConcatBlocks(data: seq<Row>, topics: seq<int>, quota: int, v: Variant, i: int)
    requires 0 <= i < |topics|
    ensures Concat(data, topics, quota, v) ==
      Concat(data, topics[..i], quota, v) + Block(data, topics[i], quota, v) + Concat(data, topics[i + 1..], quota, v)
  {
    var before, rest := topics[..i], topics[i..];
    assert topics == before + rest;
    ConcatAppend(data, before, rest, quota, v);
    assert rest[0] == topics[i] && rest[1..] == topics[i + 1..];
    assert Concat(data, rest, quota, v) ==
      Block(data, topics[i], quota, v) + Concat(data, topics[i + 1..], quota, v);
  }

  /** Every row of a block carries the block's topic. */
  lemma BlockRows(data: seq<Row>, topic: int, quota: int, v: Variant)
    ensures forall x :: x in Block(data, topic, quota, v) ==> x.topic == Hard(topic)
  {
    var b := Block(data, topic, quota, v);
    var f := Filter(data, topic);
    forall x | x in b ensures x.topic == Hard(topic) {
      var j :| 0 <= j < |b| && b[j] == x;
      assert f[j] == x;
      assert f[j] in f;
    }
  }

  /** With each topic selected once, the rows of a selected topic in the
      combined table are exactly its block, and an unselected topic has none. */
  lemma {:induction false} FilterConcat(data: seq<Row>, topics: seq<int>, quota: int, v: Variant, topic: int)
    requires Distinct(topics)
    ensures topic in topics ==> Filter(Concat(data, topics, quota, v), topic) == Block(data, topic, quota, v)
    ensures topic !in topics ==> Filter(Concat(data, topics, quota, v), topic) == []
  {
    if topic !in topics {
      FilterNoneMatch(Concat(data, topics, quota, v), topic);
    } else {
      var b := Block(data, topics[0], quota, v);
      var rest := Concat(data, topics[1..], quota, v);
      FilterAppend(b, rest, topic);
      BlockRows(data, topics[0], quota, v);
      assert Distinct(topics[1..]);
      FilterConcat(data, topics[1..], quota, v, topic);
      if topics[0] == topic {
        FilterAllMatch(b, topic);
        assert topic !in topics[1..];
      } else {
        FilterNoneMatch(b, topic);
      }
    }
  }

  lemma MulSucc(n: int, q: int)
    requires n > 0
    ensures n * q == q + (n - 1) * q
  {
  }

  /** A non-negative quota bounds the combined table by `k * quota` rows. */
  lemma {:induction false} ConcatLengthBound(data: seq<Row>, topics: seq<int>, quota: int, v: Variant)
    requires quota >= 0
    ensures |Concat(data, topics, quota, v)| <= |topics| * quota
  {
    if |topics| > 0 {
      BlockShape(data, topics[0], quota, v);
      ConcatLengthBound(data, topics[1..], quota, v);
      MulSucc(|topics|, quota);
    }
  }

  /** When every selected topic has at least `quota` rows, the combined
      table has exactly `k * quota` rows. */
  lemma {:induction false} ConcatLengthFull(data: seq<Row>, topics: seq<int>, quota: int, v: Variant)
    requires quota >= 0
    requires forall i :: 0 <= i < |topics| ==> |Filter(data, topics[i])| >= quota
    ensures |Concat(data, topics, quota, v)| == |topics| * quota
  {
    if |topics| > 0 {
      BlockShape(data, topics[0], quota, v);
      assert forall i :: 0 <= i < |topics[1..]| ==> |Filter(data, topics[1..][i])| >= quota by {
        forall i | 0 <= i < |topics[1..]| ensures |Filter(data, topics[1..][i])| >= quota {
          assert topics[1..][i] == topics[i + 1];
        }
      }
      ConcatLengthFull(data, topics[1..], quota, v);
      MulSucc(|topics|, quota);
    }
  }

  // ---------------------------------------------------------------------
  // The subsetting routine
  // ---------------------------------------------------------------------

  /** The combined table after label encoding, before shuffling
      (star/starloader.py:100-106). */
  function Selection(data: seq<Row>, topics: seq<int>, numSamples: int, balanced: bool,
                     labelType: string, v: Variant): (s: seq<Row>)
    requires |topics| > 0
    ensures var c := Concat(data, topics, Quota(numSamples, |topics|, balanced), v);
      && |s| == |c|
      && (labelType != "soft" ==> s == c)
      && (labelType == "soft" ==> AllHard(c) && s == SetLabelType(c, "soft", v))
      && forall k :: 0 <= k < |s| ==> s[k].title == c[k].title && s[k].score == c[k].score
  {
    var c := Concat(data, topics, Quota(numSamples, |topics|, balanced), v);
    assert AllHard(c) by {
      forall i | 0 <= i < |c| ensures c[i].topic.Hard? {
        assert c[i] in c;
      }
    }
    SetLabelType(c, labelType, v)
  }

  /** `sklearn.utils.shuffle` under a fixed seed: some reordering of the rows. */
  ghost predicate IsShuffle(shuffle: seq<Row> -> seq<Row>) {
    forall t :: multiset(shuffle(t)) == multiset(t)
  }

  /** `_load_subset`: the length guard; the shortcut that returns the whole
      (relabelled) table when neither a count nor topics are given; topic
      resolution; the combined table of per-topic blocks; labelling; the
      shuffle; and the final `[:num_samples]`. */
  function LoadSubset(tm: TopicIndex, data: seq<Row>, numSamples: int, subtopics: Subtopics,
                      balanced: bool, labelType: string, shuffle: seq<Row> -> seq<Row>, v: Variant)
    : (r: Result<seq<Row>, Error>)
    requires tm.Valid() && AllHard(data)
    ensures numSamples > |data| <==> r == Failure(TooManySamples(numSamples, |data|))
    ensures numSamples == -1 && subtopics.Unspecified? && labelType != "soft" ==> r == Success(data)
    ensures numSamples == -1 && subtopics.Unspecified? ==> r == Success(SetLabelType(data, labelType, v))
    ensures (numSamples <= |data| && !(numSamples == -1 && subtopics.Unspecified?) &&
             ResolveSubtopics(tm, subtopics).Failure?) ==>
      r == Failure(ResolveSubtopics(tm, subtopics).error)
    ensures numSamples <= |data| && subtopics.NotAList? ==> r == Failure(SubtopicsNotList)
    ensures r.Failure? && r.error.UnknownTopic? ==>
      subtopics.TopicList? && r.error.name in subtopics.names && r.error.name !in tm.ix
    ensures r == Failure(NoTopicsSelected) <==>
      numSamples <= |data| && !(numSamples == -1 && subtopics.Unspecified?) &&
      ResolveSubtopics(tm, subtopics) == Success([])
  {
    match VerifyLength(numSamples, |data|)
    case Fail(e) => Failure(e)
    case Pass =>
      if numSamples == -1 && subtopics.Unspecified? then
        Success(SetLabelType(data, labelType, v))
      else
        var topics :- ResolveSubtopics(tm, subtopics);
        if |topics| == 0 then Failure(NoTopicsSelected)
        else Success(Limit(shuffle(Selection(data, topics, numSamples, balanced, labelType, v)), numSamples, v))
  }

  /** A leading part of a sequence holds some of its elements. */
  lemma PrefixSubMultiset(s: seq<Row>, p: seq<Row>)
    requires p <= s
    ensures multiset(p) <= multiset(s)
  {
    assert s == p + s[|p|..];
  }

  /** Past the shortcut and the failures, the result is drawn from the
      labelled combined table: a sub-multiset of it, of `min(n, |table|)`
      rows for a count `n >= 0`; for the sentinel, as written, one row short
      of the table, and as intended, all of it. */
  lemma LoadSubsetResult(tm: TopicIndex, data: seq<Row>, numSamples: int, subtopics: Subtopics,
                         balanced: bool, labelType: string, shuffle: seq<Row> -> seq<Row>, v: Variant,
                         topics: seq<int>)
    requires tm.Valid() && AllHard(data) && IsShuffle(shuffle)
    requires numSamples <= |data| && !(numSamples == -1 && subtopics.Unspecified?)
    requires ResolveSubtopics(tm, subtopics) == Success(topics) && |topics| > 0
    ensures var sel := Selection(data, topics, numSamples, balanced, labelType, v);
      var r := LoadSubset(tm, data, numSamples, subtopics, balanced, labelType, shuffle, v);
      && r.Success?
      && multiset(r.value) <= multiset(sel)
      && (numSamples >= 0 ==> |r.value| == Min(numSamples, |sel|))
      && (numSamples == -1 && v == Intended ==> multiset(r.value) == multiset(sel))
      && (numSamples == -1 && v == AsWritten && |sel| > 0 ==> |r.value| == |sel| - 1)
  {
    var sel := Selection(data, topics, numSamples, balanced, labelType, v);
    var s := shuffle(sel);
    assert multiset(s) == multiset(sel);
    assert |s| == |multiset(s)| == |multiset(sel)| == |sel|;
    var r := LoadSubset(tm, data, numSamples, subtopics, balanced, labelType, shuffle, v);
    assert r == Success(Limit(s, numSamples, v));
    PrefixSubMultiset(s, r.value);
    LimitLength(s, numSamples, v);
    PySliceSentinel(s);
  }

  /** `load_labeled`: `_load_subset` without balancing, on the labeled
      training table. */
  function LoadLabeled(tm: TopicIndex, data: seq<Row>, numSamples: int, subtopics: Subtopics,
                       labelType: string, shuffle: seq<Row> -> seq<Row>, v: Variant)
    : Result<seq<Row>, Error>
    requires tm.Valid() && AllHard(data)
  {
    LoadSubset(tm, data, numSamples, subtopics, false, labelType, shuffle, v)
  }

  /** `load_gold`: `_load_subset` with balancing, on the gold table. */
  function LoadGold(tm: TopicIndex, data: seq<Row>, numSamples: int, subtopics: Subtopics,
                    labelType: string, shuffle: seq<Row> -> seq<Row>, v: Variant)
    : Result<seq<Row>, Error>
    requires tm.Valid() && AllHard(data)
  {
    LoadSubset(tm, data, numSamples, subtopics, true, labelType, shuffle, v)
  }

  /** Called with all defaults, the labeled loader returns its table as read. */
  lemma LabeledDefaultsKeepAll(tm: TopicIndex, data: seq<Row>, shuffle: seq<Row> -> seq<Row>, v: Variant)
    requires tm.Valid() && AllHard(data)
    ensures LoadLabeled(tm, data, -1, Unspecified, "hard", shuffle, v) == Success(data)
  {
  }

  /** Balanced gold sampling with hard labels and each topic selected once:
      no topic contributes more than `ceil(n / k)` rows, the `k` quotas
      together cover `n`, and when every selected topic has a full quota of
      rows the result has exactly `n` rows. */
  lemma GoldBalanced(tm: TopicIndex, data: seq<Row>, numSamples: int, subtopics: Subtopics,
                     shuffle: seq<Row> -> seq<Row>, v: Variant, topics: seq<int>)
    requires tm.Valid() && AllHard(data) && IsShuffle(shuffle)
    requires 0 <= numSamples <= |data|
    requires ResolveSubtopics(tm, subtopics) == Success(topics) && |topics| > 0 && Distinct(topics)
    ensures var r := LoadGold(tm, data, numSamples, subtopics, "hard", shuffle, v);
      var q := Quota(numSamples, |topics|, true);
      && r.Success?
      && |topics| * q >= numSamples
      && (forall t :: t in topics ==> |Filter(r.value, t)| <= q)
      && ((forall i :: 0 <= i < |topics| ==> |Filter(data, topics[i])| >= q) ==> |r.value| == numSamples)
  {
    var q := Quota(numSamples, |topics|, true);
    var c := Concat(data, topics, q, v);
    var sel := Selection(data, topics, numSamples, true, "hard", v);
    LoadSubsetResult(tm, data, numSamples, subtopics, true, "hard", shuffle, v, topics);
    var r := LoadGold(tm, data, numSamples, subtopics, "hard", shuffle, v);
    forall t | t in topics
      ensures |Filter(r.value, t)| <= q
    {
      FilterSubMultiset(r.value, c, t);
      FilterConcat(data, topics, q, v, t);
      BlockShape(data, t, q, v);
    }
    ConcatLengthBound(data, topics, q, v);
    if forall i :: 0 <= i < |topics| ==> |Filter(data, topics[i])| >= q {
      ConcatLengthFull(data, topics, q, v);
    }
  }

  /** The sentinel on the smallest table: two rows of one topic, selected by
      name with no count. As written each block loses its last row and the
      final slice loses another, so nothing is returned; as intended both
      rows are. */
  lemma SubsetSentinelExample(x: Row, y: Row, shuffle: seq<Row> -> seq<Row>)
    requires x.topic == Hard(0) && y.topic == Hard(0)
    requires IsShuffle(shuffle)
    ensures var tm := TopicIndex(["sports"], map["sports" := 0]);
      && tm.Valid()
      && LoadLabeled(tm, [x, y], -1, TopicList(["sports"]), "hard", shuffle, AsWritten) == Success([])
      && LoadLabeled(tm, [x, y], -1, TopicList(["sports"]), "hard", shuffle, Intended).Success?
      && multiset(LoadLabeled(tm, [x, y], -1, TopicList(["sports"]), "hard", shuffle, Intended).value) == multiset{x, y}
  {
    var tm := TopicIndex(["sports"], map["sports" := 0]);
    var data := [x, y];
    assert AllHard(data);
    assert ResolveSubtopics(tm, TopicList(["sports"])) == Success([0]) by {
      assert ["sports"][1..] == [];
      assert LookupAll(tm.ix, []) == Success([]);
      assert "sports" in tm.ix && tm.ix["sports"] == 0;
      assert LookupAll(tm.ix, ["sports"]) == Success([0] + []);
      assert [0] + [] == [0];
      assert LookupAll(tm.ix, ["sports"]) == Success([0]);
      assert tm.Valid();
    }
    assert Filter(data, 0) == [x, y] by {
      assert data[1..] == [y];
      assert [y][1..] == [];
    }
    assert Concat(data, [0], -1, AsWritten) == [x] by {
      assert [0][1..] == [];
    }
    assert Concat(data, [0], -1, Intended) == [x, y] by {
      assert [0][1..] == [];
    }
    LoadSubsetResult(tm, data, -1, TopicList(["sports"]), false, "hard", shuffle, AsWritten, [0]);
    LoadSubsetResult(tm, data, -1, TopicList(["sports"]), false, "hard", shuffle, Intended, [0]);
    assert Selection(data, [0], -1, false, "hard", Intended) == [x, y];
  }
}
