/**
  The statistics panel: how many tasks there are, how many are completed,
  and the completion percentage rounded half-up to a whole number.
 */
module TodoStats {
  import opened Seqs
  import opened TodoItem

  /** The three figures the panel shows. */
  datatype Progress = Progress(total: nat, completed: nat, percent: nat)

  /** A positive factor can be cancelled from a strict inequality between products. */
  lemma CancelFactor(d: int, a: int, b: int)
    requires d > 0 && d * a < d * b
    ensures a < b
  {
    assert d * (b - a) == d * b - d * a;
  }

  /**
    `100 * completed / total` rounded half-up (that is, to the nearest
    integer, halves upward), and 0 for an empty list: `p` is the one integer
    with `p - 1/2 <= 100 * completed / total < p + 1/2`.
   */
  function Percent(completed: nat, total: nat): (p: nat)
    requires completed <= total
    ensures p <= 100
    ensures total == 0 ==> p == 0
    ensures total > 0 ==> 2 * total * p <= 200 * completed + total < 2 * total * (p + 1)
  {
    if total == 0 then 0
    else
      var n, d := 200 * completed + total, 2 * total;
      var p := n / d;
      assert d * p <= n < d * (p + 1);
      assert d * p < d * 101;
      CancelFactor(d, p, 101);
      p
  }

  /** The percentage of a non-empty list is 100 when all tasks are completed and 0 when none is. */
  lemma PercentExtremes(total: nat)
    ensures total > 0 ==> Percent(total, total) == 100
    ensures Percent(0, total) == 0
  {
    if total > 0 {
      var d := 2 * total;
      var p := Percent(total, total);
      assert d * p <= 201 * total < d * (p + 1);
      CancelFactor(d, p, 101);
      CancelFactor(d, 99, p + 1);
      var q := Percent(0, total);
      assert d * q <= total < d * (q + 1);
      CancelFactor(d, q, 1);
    }
  }

  /** A list all of whose records are completed, or none of whose records is, is all or none of its completed view. */
  lemma CompletedExtremes(s: seq<Todo>)
    ensures (forall i :: 0 <= i < |s| ==> s[i].completed) ==> |Filter(s, IsCompleted)| == |s|
    ensures (forall i :: 0 <= i < |s| ==> !s[i].completed) ==> Filter(s, IsCompleted) == []
  {
    var c := Filter(s, IsCompleted);
    if forall i :: 0 <= i < |s| ==> s[i].completed {
      FilterKeepsAll(s, IsCompleted);
    }
    if c != [] {
      assert c[0] in c;
    }
  }

  /**
    The panel's figures for a list: its length, the number of its completed
    records, and the percentage.
   */
  function ProgressOf(s: seq<Todo>): (r: Progress)
    ensures r.total == |s| && r.completed == |Filter(s, IsCompleted)|
    ensures r.completed <= r.total
    ensures r.percent <= 100
    ensures s == [] ==> r.percent == 0
    ensures s != [] && (forall i :: 0 <= i < |s| ==> s[i].completed) ==> r.percent == 100
    ensures (forall i :: 0 <= i < |s| ==> !s[i].completed) ==> r.percent == 0
    ensures s != [] ==> 2 * r.total * r.percent <= 200 * r.completed + r.total < 2 * r.total * (r.percent + 1)
  {
    var completed := |Filter(s, IsCompleted)|;
    CompletedExtremes(s);
    PercentExtremes(|s|);
    Progress(|s|, completed, Percent(completed, |s|))
  }
}
