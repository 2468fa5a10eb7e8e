/** Runs of consecutive positions of a sequence. Pages of records are
    described as `Sub(d, from, to)`, a run of the newest-first order `d`,
    rather than with slice expressions: `Sub` is written out one element
    at a time, so a proof about page positions only sees the runs it
    names, and the link to Dafny's slices is made once, in `SubIsSlice`. */
module Windows {

  function Min(a: int, b: int): int {
    if a <= b then a else b
  }

  /** The elements of `d` at positions `from` up to, not including, `to`. */
  function Sub<T>(d: seq<T>, from: nat, to: nat): (r: seq<T>)
    requires from <= to <= |d|
    ensures |r| == to - from
    decreases |d| - from
  {
    if from == to then [] else [d[from]] + Sub(d, from + 1, to)
  }

  lemma SubIsSlice<T>(d: seq<T>, from: nat, to: nat)
    requires from <= to <= |d|
    ensures Sub(d, from, to) == d[from..to]
    decreases |d| - from
  {
    if from < to {
      SubIsSlice(d, from + 1, to);
      assert d[from..to] == [d[from]] + d[from + 1..to];
    }
  }

  /** Two adjacent runs make one. */
  lemma SubAppend<T>(d: seq<T>, i: nat, k: nat, m: nat)
    requires i <= k <= m <= |d|
    ensures Sub(d, i, k) + Sub(d, k, m) == Sub(d, i, m)
  {
    SubIsSlice(d, i, k);
    SubIsSlice(d, k, m);
    SubIsSlice(d, i, m);
    assert d[i..k] + d[k..m] == d[i..m];
  }
}
