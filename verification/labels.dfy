/** Soft labelling (`set_label_type`): discover the distinct topics of a
    table, rewrite each topic into an index, then replace it by a one-hot
    vector. */
module Labels {
  import opened Slicing
  import opened Table

  /** No value occurs twice. */
  predicate Distinct<T(==)>(s: seq<T>) {
    forall i, j :: 0 <= i < j < |s| ==> s[i] != s[j]
  }

  /** The topic column of a table read from disk. */
  function Topics(t: seq<Row>): (col: seq<int>)
    requires AllHard(t)
    ensures |col| == |t|
    ensures forall k :: 0 <= k < |t| ==> t[k].topic == Hard(col[k])
  {
    seq(|t|, k requires 0 <= k < |t| => t[k].topic.index)
  }

  /** The position of the first occurrence of `x` in `s`. */
  function FirstIndex(s: seq<int>, x: int): (i: nat)
    requires x in s
    ensures i < |s| && s[i] == x && x !in s[..i]
  {
    if s[0] == x then 0
    else
      assert x in s[1..];
      var j := FirstIndex(s[1..], x);
      assert s[..j + 1] == [s[0]] + s[1..][..j];
      j + 1
  }

  /** In a sequence without repetitions, `FirstIndex` inverts indexing. */
  lemma FirstIndexOfDistinct(s: seq<int>, j: int)
    requires Distinct(s) && 0 <= j < |s|
    ensures FirstIndex(s, s[j]) == j
  {
  }

  /** The first occurrence of an element of `p` is the same in `p + q`. */
  lemma FirstIndexPrefix(p: seq<int>, q: seq<int>, x: int)
    requires x in p
    ensures FirstIndex(p + q, x) == FirstIndex(p, x)
  {
    var j := FirstIndex(p, x);
    assert (p + q)[j] == x;
  }

  /** `Series.unique()`: the distinct topics in the order they are first seen. */
  function Unique(s: seq<int>): (u: seq<int>)
    ensures Distinct(u)
    ensures forall x :: x in u <==> x in s
    ensures |u| <= |s|
  {
    if |s| == 0 then []
    else
      var p := Unique(s[..|s| - 1]);
      assert s == s[..|s| - 1] + [s[|s| - 1]];
      if s[|s| - 1] in p then p else p + [s[|s| - 1]]
  }

  /** `Unique` lists the topics in order of first appearance. */
  lemma {:induction false} UniqueFirstSeenOrder(s: seq<int>)
    ensures forall i, j :: 0 <= i < j < |Unique(s)| ==>
      FirstIndex(s, Unique(s)[i]) < FirstIndex(s, Unique(s)[j])
  {
    if |s| > 0 {
      var p := s[..|s| - 1];
      var x := s[|s| - 1];
      assert s == p + [x];
      UniqueFirstSeenOrder(p);
      var u := Unique(s);
      var up := Unique(p);
      forall i, j | 0 <= i < j < |u|
        ensures FirstIndex(s, u[i]) < FirstIndex(s, u[j])
      {
        assert u[i] in up;
        FirstIndexPrefix(p, [x], u[i]);
        if j < |up| {
          FirstIndexPrefix(p, [x], u[j]);
        } else {
          assert u[j] == x && x !in p;
          assert FirstIndex(s, x) == |p|;
        }
      }
    }
  }

  // ---------------------------------------------------------------------
  // Relabelling topics into indices (star/starloader.py:113-115)
  // ---------------------------------------------------------------------

  /** `Series.replace(from, to)`: every value equal to `from` becomes `to`. */
  function ReplaceAll(col: seq<int>, from: int, to: int): (r: seq<int>)
    ensures |r| == |col|
    ensures forall k :: 0 <= k < |col| ==> r[k] == (if col[k] == from then to else col[k])
  {
    if |col| == 0 then []
    else [if col[0] == from then to else col[0]] + ReplaceAll(col[1..], from, to)
  }

  /** The replacement loop from iteration `i` on: each step rewrites the
      whole column, replacing the value `u[i]` by the index `i`. */
  function ReplaceFrom(col: seq<int>, u: seq<int>, i: nat): seq<int>
    decreases |u| - i
  {
    if i >= |u| then col else ReplaceFrom(ReplaceAll(col, u[i], i), u, i + 1)
  }

  /** Where a single value ends up after iterations `i..` of the loop. */
  function Chase(v: int, u: seq<int>, i: nat): int
    decreases |u| - i
  {
    if i >= |u| then v else Chase(if v == u[i] then i else v, u, i + 1)
  }

  /** The loop treats the column value by value. */
  lemma {:induction false} ReplaceFromPointwise(col: seq<int>, u: seq<int>, i: nat)
    ensures |ReplaceFrom(col, u, i)| == |col|
    ensures forall k :: 0 <= k < |col| ==> ReplaceFrom(col, u, i)[k] == Chase(col[k], u, i)
    decreases |u| - i
  {
    if i < |u| {
      ReplaceFromPointwise(ReplaceAll(col, u[i], i), u, i + 1);
    }
  }

  /** A value that is one of the topics still to be visited, or an index
      already handed out, ends as an index in `[0, |u|)`. */
  lemma {:induction false} ChaseInRange(v: int, u: seq<int>, i: nat)
    requires i <= |u|
    requires 0 <= v < i || v in u[i..]
    ensures 0 <= Chase(v, u, i) < |u|
    decreases |u| - i
  {
    if i < |u| {
      var w := if v == u[i] then i else v;
      if v != u[i] && !(0 <= v < i) {
        assert v in u[i + 1..] by {
          var m :| i <= m < |u| && u[m] == v;
          assert m != i;
          assert u[i + 1..][m - i - 1] == v;
        }
      }
      ChaseInRange(w, u, i + 1);
    }
  }

  /** A value no later step looks at passes through unchanged. */
  lemma {:induction false} ChaseSkip(v: int, u: seq<int>, i: nat, j: nat)
    requires i <= j <= |u|
    requires forall m :: i <= m < j ==> u[m] != v
    ensures Chase(v, u, i) == Chase(v, u, j)
    decreases j - i
  {
    if i < j {
      ChaseSkip(v, u, i + 1, j);
    }
  }

  /** The `j`-th topic becomes `j` at step `j` and is then chased onwards. */
  lemma ChaseTopic(u: seq<int>, j: nat)
    requires Distinct(u) && j < |u|
    ensures Chase(u[j], u, 0) == Chase(j, u, j + 1)
  {
    ChaseSkip(u[j], u, 0, j);
  }

  /** No topic equals an index handed out before it is visited: the
      condition under which the replacement loop is a faithful relabelling. */
  predicate NoCollision(u: seq<int>) {
    forall i :: 0 <= i < |u| ==> !(0 <= u[i] < i)
  }

  /** Distinct topics keep distinct final indices. */
  predicate RelabelInjective(u: seq<int>) {
    forall a, b :: 0 <= a < b < |u| ==> Chase(u[a], u, 0) != Chase(u[b], u, 0)
  }

  /** Without collisions, the `j`-th topic ends as exactly `j`. */
  lemma ChaseNoCollision(u: seq<int>, j: nat)
    requires Distinct(u) && NoCollision(u) && j < |u|
    ensures Chase(u[j], u, 0) == j
  {
    ChaseTopic(u, j);
    ChaseSkip(j, u, j + 1, |u|);
  }

  /** When the `i`-th topic equals the earlier index `j`, the two topics
      `u[j]` and `u[i]` end on the same index. */
  lemma ChaseCollision(u: seq<int>, i: nat, j: nat)
    requires Distinct(u) && j < i < |u| && u[i] == j
    ensures Chase(u[j], u, 0) == Chase(u[i], u, 0)
  {
    ChaseTopic(u, j);
    ChaseTopic(u, i);
    ChaseSkip(j, u, j + 1, i);
  }

  /** The replacement loop keeps distinct topics apart if and only if no
      topic equals an index assigned before it. */
  lemma RelabelInjectiveIff(u: seq<int>)
    requires Distinct(u)
    ensures RelabelInjective(u) <==> NoCollision(u)
  {
    if NoCollision(u) {
      forall a, b | 0 <= a < b < |u|
        ensures Chase(u[a], u, 0) != Chase(u[b], u, 0)
      {
        ChaseNoCollision(u, a);
        ChaseNoCollision(u, b);
      }
    } else {
      var i :| 0 <= i < |u| && 0 <= u[i] < i;
      ChaseCollision(u, i, u[i]);
    }
  }

  /** The replace loop (star/starloader.py:114-115) applied to a topic column. */
  function SequentialRelabel(col: seq<int>): (r: seq<int>)
    ensures |r| == |col|
    ensures forall k :: 0 <= k < |col| ==> 0 <= r[k] < |Unique(col)|
    ensures forall k :: 0 <= k < |col| ==> r[k] == Chase(col[k], Unique(col), 0)
  {
    var u := Unique(col);
    ReplaceFromPointwise(col, u, 0);
    SequentialRelabelInRange(col);
    ReplaceFrom(col, u, 0)
  }

  lemma SequentialRelabelInRange(col: seq<int>)
    ensures forall k :: 0 <= k < |col| ==> 0 <= Chase(col[k], Unique(col), 0) < |Unique(col)|
  {
    var u := Unique(col);
    forall k | 0 <= k < |col|
      ensures 0 <= Chase(col[k], u, 0) < |u|
    {
      assert col[k] in u;
      assert u[0..] == u;
      ChaseInRange(col[k], u, 0);
    }
  }

  /** The relabelling evidently intended: each topic becomes its position
      among the topics in order of first appearance. */
  function PositionalRelabel(col: seq<int>): (r: seq<int>)
    ensures |r| == |col|
    ensures forall k :: 0 <= k < |col| ==> 0 <= r[k] < |Unique(col)| && Unique(col)[r[k]] == col[k]
  {
    var u := Unique(col);
    seq(|col|, k requires 0 <= k < |col| => FirstIndex(u, col[k]))
  }

  /** The relabelling under the chosen reading of the source. */
  function Relabel(col: seq<int>, v: Variant): (r: seq<int>)
    ensures |r| == |col|
    ensures forall k :: 0 <= k < |col| ==> 0 <= r[k] < |Unique(col)|
  {
    if v == AsWritten then SequentialRelabel(col) else PositionalRelabel(col)
  }

  /** Without collisions the loop is exactly the positional relabelling. */
  lemma SequentialIsPositional(col: seq<int>)
    requires NoCollision(Unique(col))
    ensures SequentialRelabel(col) == PositionalRelabel(col)
  {
    var u := Unique(col);
    var a := SequentialRelabel(col);
    var b := PositionalRelabel(col);
    forall k | 0 <= k < |col|
      ensures a[k] == b[k]
    {
      FirstIndexOfDistinct(u, b[k]);
      ChaseNoCollision(u, b[k]);
    }
  }

  /** The smallest input on which the loop merges two topics: topics first
      seen in the order 1, 0. Step 0 turns 1 into 0, step 1 turns every 0
      (both topics by now) into 1. */
  lemma SequentialRelabelMerges()
    ensures Unique([1, 0]) == [1, 0]
    ensures SequentialRelabel([1, 0]) == [1, 1]
    ensures PositionalRelabel([1, 0]) == [0, 1]
  {
    var col := [1, 0];
    assert col[..1] == [1];
    assert [1][..0] == [];
    assert Unique([1]) == [1];
    var u := Unique(col);
    assert u == [1, 0];
    assert Chase(1, u, 2) == 1;
    assert Chase(0, u, 1) == 1;
    assert Chase(1, u, 0) == 1;
    assert Chase(0, u, 0) == 1;
    var r := SequentialRelabel(col);
    assert r[0] == 1 && r[1] == 1;
    FirstIndexOfDistinct(u, 0);
    FirstIndexOfDistinct(u, 1);
    var q := PositionalRelabel(col);
    assert q[0] == FirstIndex(u, u[0]) == 0;
    assert q[1] == FirstIndex(u, u[1]) == 1;
  }

  // ---------------------------------------------------------------------
  // One-hot encoding (star/starloader.py:117-118)
  // ---------------------------------------------------------------------

  /** Row `v` of the `n`-by-`n` identity matrix `np.eye(n)`. */
  function OneHot(v: int, n: nat): (vec: seq<int>)
    ensures |vec| == n
  {
    seq(n, j => if j == v then 1 else 0)
  }

  /** `vec` is a 0/1 vector of length `n` with exactly one 1. */
  predicate IsOneHot(vec: seq<int>, n: nat) {
    && |vec| == n
    && (forall j :: 0 <= j < n ==> vec[j] == 0 || vec[j] == 1)
    && (exists p :: 0 <= p < n && vec[p] == 1 && forall j :: 0 <= j < n && j != p ==> vec[j] == 0)
  }

  /** The position of the first 1 in `vec`, or -1 when there is none. */
  function Decode(vec: seq<int>): (p: int)
    ensures -1 <= p < |vec|
    ensures p >= 0 ==> vec[p] == 1 && forall j :: 0 <= j < p ==> vec[j] != 1
    ensures p == -1 ==> forall j :: 0 <= j < |vec| ==> vec[j] != 1
  {
    if |vec| == 0 then -1
    else if vec[0] == 1 then 0
    else
      var d := Decode(vec[1..]);
      if d < 0 then -1 else d + 1
  }

  /** Encoding an index in range gives a one-hot vector that decodes back
      to the index. */
  lemma OneHotDecodes(v: int, n: nat)
    requires 0 <= v < n
    ensures IsOneHot(OneHot(v, n), n)
    ensures Decode(OneHot(v, n)) == v
  {
    var h := OneHot(v, n);
    assert h[v] == 1;
    assert forall j :: 0 <= j < n && j != v ==> h[j] == 0;
    var d := Decode(h);
    assert d != -1;
  }

  /** Every one-hot vector is the encoding of the index it decodes to. */
  lemma DecodeEncodes(vec: seq<int>, n: nat)
    requires IsOneHot(vec, n)
    ensures 0 <= Decode(vec) < n
    ensures OneHot(Decode(vec), n) == vec
  {
    var p :| 0 <= p < n && vec[p] == 1 && forall j :: 0 <= j < n && j != p ==> vec[j] == 0;
    var d := Decode(vec);
    assert d != -1;
    assert d == p;
    var h := OneHot(p, n);
    assert forall j :: 0 <= j < n ==> h[j] == vec[j];
  }

  /** The label a row receives: the one-hot row `np.eye(n)[v]`, except that
      with a single topic `np.squeeze` collapses the `n`-by-1 matrix to plain
      integers, so every row is labelled `1`. */
  function Encode(v: int, n: nat): Label {
    if n == 1 then Hard(1) else Soft(OneHot(v, n))
  }

  /** `set_label_type(data, label_type)`: a no-op unless the label type is
      "soft"; then every topic is relabelled into `[0, n)`, `n` the number of
      distinct topics, and encoded one-hot. Titles and scores are untouched. */
  function SetLabelType(t: seq<Row>, labelType: string, v: Variant): (r: seq<Row>)
    requires AllHard(t)
    ensures |r| == |t|
    ensures forall k :: 0 <= k < |t| ==> r[k].title == t[k].title && r[k].score == t[k].score
    ensures labelType != "soft" ==> r == t
    ensures labelType == "soft" && |Unique(Topics(t))| >= 2 ==>
      forall k :: 0 <= k < |t| ==> r[k].topic.Soft? && IsOneHot(r[k].topic.vector, |Unique(Topics(t))|)
    ensures labelType == "soft" && |Unique(Topics(t))| == 1 ==>
      forall k :: 0 <= k < |t| ==> r[k].topic == Hard(1)
  {
    if labelType != "soft" then t
    else
      var col := Topics(t);
      var n := |Unique(col)|;
      var ixs := Relabel(col, v);
      OneHotInRange(ixs, n);
      seq(|t|, k requires 0 <= k < |t| => t[k].(topic := Encode(ixs[k], n)))
  }

  lemma OneHotInRange(ixs: seq<int>, n: nat)
    requires forall k :: 0 <= k < |ixs| ==> 0 <= ixs[k] < n
    ensures forall k :: 0 <= k < |ixs| ==> IsOneHot(OneHot(ixs[k], n), n)
  {
    forall k | 0 <= k < |ixs|
      ensures IsOneHot(OneHot(ixs[k], n), n)
    {
      OneHotDecodes(ixs[k], n);
    }
  }

  // ---------------------------------------------------------------------
  // What soft labelling preserves
  // ---------------------------------------------------------------------

  /** Rows whose topics differed before labelling still differ after it. */
  predicate SeparatesTopics(before: seq<Row>, after: seq<Row>) {
    forall a, b ::
      (0 <= a < |before| && 0 <= b < |before| && a < |after| && b < |after| &&
       before[a].topic != before[b].topic) ==> after[a].topic != after[b].topic
  }

  /** Two indices in range share an encoding only if they are equal. */
  lemma EncodeInjective(a: int, b: int, n: nat)
    requires 0 <= a < n && 0 <= b < n
    requires Encode(a, n) == Encode(b, n)
    ensures a == b
  {
    if n != 1 {
      OneHotDecodes(a, n);
      OneHotDecodes(b, n);
    }
  }

  /** Labelling through an index map that is injective on the topic column
      keeps distinct topics apart. */
  lemma SeparatesFromPositions(t: seq<Row>, v: Variant)
    requires AllHard(t)
    requires Relabel(Topics(t), v) == PositionalRelabel(Topics(t))
    ensures SeparatesTopics(t, SetLabelType(t, "soft", v))
  {
    var col := Topics(t);
    var u := Unique(col);
    var ixs := PositionalRelabel(col);
    var r := SetLabelType(t, "soft", v);
    forall a, b | 0 <= a < |t| && 0 <= b < |t| && t[a].topic != t[b].topic
      ensures r[a].topic != r[b].topic
    {
      SoftLabelOfRow(t, v, a);
      SoftLabelOfRow(t, v, b);
      if r[a].topic == r[b].topic {
        EncodeInjective(ixs[a], ixs[b], |u|);
      }
    }
  }

  /** Soft labelling as written keeps distinct topics apart if and only if no
      topic equals an index assigned before it is visited. */
  lemma SoftLabelSeparatesIff(t: seq<Row>)
    requires AllHard(t)
    ensures SeparatesTopics(t, SetLabelType(t, "soft", AsWritten)) <==> NoCollision(Unique(Topics(t)))
  {
    var col := Topics(t);
    var u := Unique(col);
    if NoCollision(u) {
      SequentialIsPositional(col);
      SeparatesFromPositions(t, AsWritten);
    } else {
      var i :| 0 <= i < |u| && 0 <= u[i] < i;
      var j := u[i];
      ChaseCollision(u, i, j);
      assert u[j] in col && u[i] in col;
      var a :| 0 <= a < |col| && col[a] == u[j];
      var b :| 0 <= b < |col| && col[b] == u[i];
      var ixs := Relabel(col, AsWritten);
      assert ixs[a] == Chase(u[j], u, 0) && ixs[b] == Chase(u[i], u, 0);
      SoftLabelOfRow(t, AsWritten, a);
      SoftLabelOfRow(t, AsWritten, b);
      var r := SetLabelType(t, "soft", AsWritten);
      assert t[a].topic != t[b].topic && r[a].topic == r[b].topic;
    }
  }

  /** Soft labelling as intended always keeps distinct topics apart, and
      decoding a row's vector recovers its topic's position among the topics
      in order of first appearance. */
  lemma SoftLabelIntended(t: seq<Row>)
    requires AllHard(t)
    ensures SeparatesTopics(t, SetLabelType(t, "soft", Intended))
    ensures |Unique(Topics(t))| >= 2 ==>
      forall k :: 0 <= k < |t| ==>
        Decode(SetLabelType(t, "soft", Intended)[k].topic.vector) == FirstIndex(Unique(Topics(t)), t[k].topic.index)
  {
    var col := Topics(t);
    var u := Unique(col);
    SeparatesFromPositions(t, Intended);
    var r := SetLabelType(t, "soft", Intended);
    var ixs := PositionalRelabel(col);
    if |u| >= 2 {
      forall k | 0 <= k < |t|
        ensures Decode(r[k].topic.vector) == FirstIndex(u, t[k].topic.index)
      {
        OneHotDecodes(ixs[k], |u|);
      }
    }
  }

  /** The label soft labelling gives row `k`. */
  lemma SoftLabelOfRow(t: seq<Row>, v: Variant, k: int)
    requires AllHard(t) && 0 <= k < |t|
    ensures SetLabelType(t, "soft", v)[k].topic == Encode(Relabel(Topics(t), v)[k], |Unique(Topics(t))|)
  {
  }

  /** As written, decoding a soft-labelled row gives the index its topic is
      chased to by the replacement loop (its position only when there is no
      collision). */
  lemma SoftLabelDecodesAsWritten(t: seq<Row>, k: int)
    requires AllHard(t) && 0 <= k < |t| && |Unique(Topics(t))| >= 2
    ensures Decode(SetLabelType(t, "soft", AsWritten)[k].topic.vector) == Chase(Topics(t)[k], Unique(Topics(t)), 0)
  {
    SoftLabelOfRow(t, AsWritten, k);
    OneHotDecodes(Relabel(Topics(t), AsWritten)[k], |Unique(Topics(t))|);
  }

  /** Topics 1 and 0, first seen in that order. */
  lemma MergeExampleColumn(x: Row, y: Row)
    requires x.topic == Hard(1) && y.topic == Hard(0)
    ensures AllHard([x, y])
    ensures Topics([x, y]) == [1, 0]
    ensures |Unique(Topics([x, y]))| == 2
    ensures Relabel(Topics([x, y]), AsWritten) == [1, 1]
    ensures Relabel(Topics([x, y]), Intended) == [0, 1]
  {
    assert Topics([x, y]) == [1, 0];
    SequentialRelabelMerges();
  }

  /** The merge on the smallest table: two rows with topics 1 and 0 both
      receive the vector [0, 1] as written, and [1, 0], [0, 1] as intended. */
  lemma SoftLabelMergesExample(x: Row, y: Row)
    requires x.topic == Hard(1) && y.topic == Hard(0)
    ensures SetLabelType([x, y], "soft", AsWritten)[0].topic == Soft([0, 1])
    ensures SetLabelType([x, y], "soft", AsWritten)[1].topic == Soft([0, 1])
    ensures SetLabelType([x, y], "soft", Intended)[0].topic == Soft([1, 0])
    ensures SetLabelType([x, y], "soft", Intended)[1].topic == Soft([0, 1])
  {
    MergeExampleColumn(x, y);
    assert OneHot(1, 2) == [0, 1];
    assert OneHot(0, 2) == [1, 0];
    SoftLabelOfRow([x, y], AsWritten, 0);
    SoftLabelOfRow([x, y], AsWritten, 1);
    SoftLabelOfRow([x, y], Intended, 0);
    SoftLabelOfRow([x, y], Intended, 1);
  }
}
