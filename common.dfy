/** Option and Result, used for JavaScript's `undefined` and for thrown errors, and the
    regrouping facts about sequences that the proofs use. */
module Common {

  datatype Option<+T> = None | Some(value: T)

  datatype Result<+T, +E> = Ok(value: T) | Err(error: E)

  lemma Regroup<T>(a: seq<T>, b: seq<T>, c: seq<T>)
    ensures (a + b) + c == a + (b + c)
  {
  }

  /** A suffix is a middle piece followed by a shorter suffix. */
  lemma SuffixSplit<T>(s: seq<T>, lo: nat, hi: nat)
    requires lo <= hi <= |s|
    ensures s[lo..] == s[lo..hi] + s[hi..]
  {
  }

  /** A slice grows by one element at its end. */
  lemma SliceSnoc<T>(s: seq<T>, lo: nat, hi: nat)
    requires lo < hi <= |s|
    ensures s[lo..hi] == s[lo..hi - 1] + [s[hi - 1]]
  {
  }

  /** Cutting `x + y + z` at the end of `y` gives back `x + y` and `z`. */
  lemma CutAfterMiddle<T>(x: seq<T>, y: seq<T>, z: seq<T>)
    ensures (x + y + z)[..|x| + |y|] == x + y
    ensures (x + y + z)[|x| + |y|..] == z
  {
  }

  /** A suffix is its first element followed by the rest. */
  lemma SuffixCons<T>(s: seq<T>, e: nat)
    requires e < |s|
    ensures s[e..] == [s[e]] + s[e + 1..]
  {
  }
}
