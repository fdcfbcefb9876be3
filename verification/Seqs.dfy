/** Facts about sequences that the other modules share. */
module Seqs {

  /** All pieces in order, as one sequence. */
  function Join<T>(pieces: seq<seq<T>>): seq<T> {
    if pieces == [] then [] else pieces[0] + Join(pieces[1..])
  }

  lemma {:induction false} JoinLast<T>(pieces: seq<seq<T>>)
    requires pieces != []
    ensures Join(pieces) == Join(pieces[..|pieces| - 1]) + pieces[|pieces| - 1]
    decreases |pieces|
  {
    var n := |pieces| - 1;
    if n > 0 {
      assert pieces[1..][..n - 1] == pieces[..n][1..];
      JoinLast(pieces[1..]);
      Assoc(pieces[0], Join(pieces[..n][1..]), pieces[n]);
    }
  }

  lemma Assoc<T>(a: seq<T>, b: seq<T>, c: seq<T>)
    ensures a + b + c == a + (b + c)
  {
  }

  lemma Shift<T>(a: seq<T>, b: seq<T>)
    requires b != []
    ensures a + [b[0]] + b[1..] == a + b
  {
  }

  lemma SplitAt<T>(s: seq<T>, n: nat)
    requires n < |s|
    ensures s == s[..n] + [s[n]] + s[n + 1..]
  {
  }

  lemma LastApart<T>(a: seq<T>, b: seq<T>)
    requires b != []
    ensures a + b[..|b| - 1] + b[|b| - 1..] == a + b
  {
  }

  lemma PrefixRest<T>(p: seq<T>, m: seq<T>)
    requires p <= m
    ensures p + m[|p|..] == m && (p != m ==> m[|p|..] != [])
  {
  }

  lemma SameSlice<T>(a: seq<T>, b: seq<T>, i: int, j: int)
    requires 0 <= i <= j <= |a|
    ensures (a + b)[i..j] == a[i..j]
  {
  }

  lemma PrefixSame<T>(a: seq<T>, b: seq<T>, n: nat)
    requires n <= |a|
    ensures (a + b)[..n] == a[..n] && (a + b)[n..] == a[n..] + b
  {
  }

  lemma ConsRest<T>(a: T, b: seq<T>)
    ensures ([a] + b)[1..] == b
  {
  }

  lemma RestAppend<T>(a: seq<T>, b: seq<T>)
    requires a != []
    ensures (a + b)[1..] == a[1..] + b && (a + b)[0] == a[0]
  {
  }
}
