/** The loader's tables: ordered sequences of records with a title, a score
    and a topic label. */
module Table {

  /** A topic label: the integer index read from the CSV file (a hard label)
      or the one-hot vector that soft labelling puts in its place. */
  datatype Label = Hard(index: int) | Soft(vector: seq<int>)

  /** One row of a dataset; the score is carried along untouched. */
  datatype Row = Row(title: string, score: real, topic: Label)

  /** Every row still carries the integer topic index it was read with. */
  predicate AllHard(t: seq<Row>) {
    forall i :: 0 <= i < |t| ==> t[i].topic.Hard?
  }

  /** `data[data["topic"] == topic]`: the rows labelled `topic`, in table order. */
  function Filter(t: seq<Row>, topic: int): (r: seq<Row>)
    ensures |r| <= |t|
    ensures forall x :: x in r ==> x in t && x.topic == Hard(topic)
    ensures forall x :: x in t && x.topic == Hard(topic) ==> x in r
  {
    if |t| == 0 then []
    else (if t[0].topic == Hard(topic) then [t[0]] else []) + Filter(t[1..], topic)
  }

  /** Filtering keeps table order: the rows of `a + b` selected are those of
      `a` followed by those of `b`. */
  lemma {:induction false} FilterAppend(a: seq<Row>, b: seq<Row>, topic: int)
    ensures Filter(a + b, topic) == Filter(a, topic) + Filter(b, topic)
  {
    if |a| == 0 {
      assert a + b == b;
    } else {
      assert (a + b)[1..] == a[1..] + b;
      FilterAppend(a[1..], b, topic);
    }
  }

  /** Rows none of which carries `topic` filter to nothing. */
  lemma {:induction false} FilterNoneMatch(s: seq<Row>, topic: int)
    requires forall x :: x in s ==> x.topic != Hard(topic)
    ensures Filter(s, topic) == []
  {
    if |s| > 0 {
      assert s[0] in s;
      assert forall x :: x in s[1..] ==> x in s;
      FilterNoneMatch(s[1..], topic);
    }
  }

  /** Rows all of which carry `topic` filter to themselves. */
  lemma {:induction false} FilterAllMatch(s: seq<Row>, topic: int)
    requires forall x :: x in s ==> x.topic == Hard(topic)
    ensures Filter(s, topic) == s
  {
    if |s| > 0 {
      assert s[0] in s;
      assert forall x :: x in s[1..] ==> x in s;
      FilterAllMatch(s[1..], topic);
      assert s == [s[0]] + s[1..];
    }
  }

  /** A table whose rows all come from another (as multisets) holds at most
      as many rows of each topic. */
  lemma {:induction false} FilterSubMultiset(a: seq<Row>, b: seq<Row>, topic: int)
    requires multiset(a) <= multiset(b)
    ensures |Filter(a, topic)| <= |Filter(b, topic)|
    decreases |a|
  {
    if |a| > 0 {
      var x := a[0];
      assert x in multiset(b);
      var i :| 0 <= i < |b| && b[i] == x;
      var b' := b[..i] + b[i + 1..];
      assert b == b[..i] + [x] + b[i + 1..];
      assert a == [x] + a[1..];
      assert multiset(b) == multiset(b') + multiset{x};
      assert multiset(a) == multiset(a[1..]) + multiset{x};
      assert multiset(a[1..]) <= multiset(b') by {
        forall y ensures multiset(a[1..])[y] <= multiset(b')[y] {
          assert multiset(a)[y] <= multiset(b)[y];
        }
      }
      FilterSubMultiset(a[1..], b', topic);
      FilterAppend(b[..i] + [x], b[i + 1..], topic);
      FilterAppend(b[..i], [x], topic);
      FilterAppend(b[..i], b[i + 1..], topic);
      assert Filter([x], topic) == (if x.topic == Hard(topic) then [x] else []) by {
        assert [x][1..] == [];
      }
    }
  }
}
