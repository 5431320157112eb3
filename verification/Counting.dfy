/** Counting in sequences of identifiers: descriptors that name a row, queues that hold a task. */
module Counting {

  ghost function Count(q: seq<int>, x: int): nat {
    if q == [] then 0
    else Count(q[..|q| - 1], x) + if q[|q| - 1] == x then 1 else 0
  }

  /** How often x occurs in all the sequences together. */
  ghost function Total(qs: seq<seq<int>>, x: int): nat {
    if qs == [] then 0
    else Total(qs[..|qs| - 1], x) + Count(qs[|qs| - 1], x)
  }

  lemma {:induction false} CountHas(q: seq<int>, i: int)
    requires 0 <= i < |q|
    ensures Count(q, q[i]) > 0
  {
    if i < |q| - 1 {
      CountHas(q[..|q| - 1], i);
    }
  }

  lemma {:induction false} CountIn(q: seq<int>, x: int)
    ensures Count(q, x) > 0 <==> x in q
  {
    if q != [] {
      CountIn(q[..|q| - 1], x);
      assert q == q[..|q| - 1] + [q[|q| - 1]];
    }
  }

  lemma {:induction false} CountAppend(q: seq<int>, r: seq<int>, x: int)
    ensures Count(q + r, x) == Count(q, x) + Count(r, x)
  {
    if r == [] {
      assert q + r == q;
    } else {
      var n := |r| - 1;
      assert (q + r)[..|q| + n] == q + r[..n];
      CountAppend(q, r[..n], x);
    }
  }

  lemma {:induction false} CountUpdate(q: seq<int>, i: nat, y: int, x: int)
    requires i < |q|
    ensures Count(q[i := y], x) == Count(q, x) - (if q[i] == x then 1 else 0) + (if y == x then 1 else 0)
  {
    var n := |q| - 1;
    if i < n {
      CountUpdate(q[..n], i, y, x);
      assert q[i := y][..n] == q[..n][i := y];
    } else {
      assert q[i := y][..n] == q[..n];
    }
  }

  lemma {:induction false} TotalHas(qs: seq<seq<int>>, t: nat, i: int)
    requires t < |qs| && 0 <= i < |qs[t]|
    ensures Total(qs, qs[t][i]) > 0
  {
    if t < |qs| - 1 {
      TotalHas(qs[..|qs| - 1], t, i);
    } else {
      CountHas(qs[t], i);
    }
  }

  lemma {:induction false} TotalUpdate(qs: seq<seq<int>>, t: nat, q: seq<int>, x: int)
    requires t < |qs|
    ensures Total(qs[t := q], x) == Total(qs, x) - Count(qs[t], x) + Count(q, x)
  {
    var n := |qs| - 1;
    if t < n {
      TotalUpdate(qs[..n], t, q, x);
      assert qs[t := q][..n] == qs[..n][t := q];
    } else {
      assert qs[t := q][..n] == qs[..n];
    }
  }
}
