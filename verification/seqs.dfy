/** Small facts about sequences, stated once and used by the proofs of every other module. */
module Seqs {
  lemma ConsHead<T>(q: seq<T>)
    requires |q| > 0
    ensures [q[0]] + q[1..] == q
  {
  }

  lemma SnocTake<T>(q: seq<T>)
    requires |q| > 0
    ensures q[..|q| - 1] + [q[|q| - 1]] == q
  {
  }

  lemma DropAppend<T>(a: seq<T>, b: seq<T>, k: nat)
    requires k <= |a|
    ensures (a + b)[k..] == a[k..] + b
  {
  }

  lemma TakeAppend<T>(a: seq<T>, b: seq<T>, k: nat)
    requires k <= |a| + |b|
    ensures k <= |a| ==> (a + b)[..k] == a[..k]
    ensures |a| <= k ==> (a + b)[..k] == a + b[..k - |a|]
  {
  }

  lemma TakeDrop<T>(c: seq<T>, n: nat)
    requires n <= |c|
    ensures c[..n] + c[n..] == c
  {
  }

  lemma TakeAll<T>(c: seq<T>)
    ensures c[..|c|] == c
  {
  }

  lemma DropDrop<T>(c: seq<T>, a: nat, b: nat)
    requires a + b <= |c|
    ensures c[a..][b..] == c[a + b..]
  {
  }

  lemma PrefixTake<T>(a: seq<T>, c: seq<T>, n: nat)
    requires a <= c && n <= |a|
    ensures a[..n] == c[..n]
  {
  }

  lemma AppendAssoc<T>(a: seq<T>, x: T, c: seq<T>)
    ensures (a + [x]) + c == a + ([x] + c)
  {
  }

  /** Dropping k elements and then m more drops k + m. */
  lemma ShiftOffer<T>(c: seq<T>, c1: seq<T>, k: nat, m: nat, r: seq<T>)
    requires k <= |c| && c[k..] == c1 && m <= |c1| && r == c1[m..]
    ensures k + m <= |c| && r == c[k + m..]
  {
  }

  lemma AppendNothing<T>(q: seq<T>, e: seq<T>)
    requires |e| == 0
    ensures q + e == q
  {
  }

  /** Cutting n elements off the back of a + u, where u is no longer than n, cuts n - |u| off a. */
  lemma TrimStep<T>(a: seq<T>, u: seq<T>, n: nat, r: seq<T>)
    requires |u| <= n <= |a| + |u| && r == a[..|a| - (n - |u|)]
    ensures r == (a + u)[..|a| + |u| - n]
  {
  }

  lemma Assoc<T>(a: seq<T>, b: seq<T>, c: seq<T>)
    ensures (a + b) + c == a + (b + c)
  {
  }

  /** A slice that holds x + y holds x in its first |x| places and y in the rest. */
  lemma SliceSplit<T>(code: seq<T>, a: nat, x: seq<T>, y: seq<T>)
    requires a + |x| + |y| <= |code| && code[a..a + |x| + |y|] == x + y
    ensures code[a..a + |x|] == x && code[a + |x|..a + |x| + |y|] == y
  {
    assert code[a..a + |x|] == code[a..a + |x| + |y|][..|x|];
    assert code[a + |x|..a + |x| + |y|] == code[a..a + |x| + |y|][|x|..];
  }

  /** The slice of a prefix is the slice of the whole. */
  lemma SliceOfPrefix<T>(code: seq<T>, pre: seq<T>, a: nat, b: nat)
    requires pre <= code && a <= b <= |pre|
    ensures pre[a..b] == code[a..b]
  {
  }

  /** A slice of a slice is a slice of the whole. */
  lemma SliceSlice<T>(code: seq<T>, a: nat, b: nat, i: nat, j: nat)
    requires a <= b <= |code| && i <= j <= b - a
    ensures code[a..b][i..j] == code[a + i..a + j]
  {
    assert |code[a..b][i..j]| == |code[a + i..a + j]|;
    forall k | 0 <= k < j - i
      ensures code[a..b][i..j][k] == code[a + i..a + j][k]
    {
    }
  }

  /** A slice holding one element, a part, another part and a last element, taken apart. */
  lemma SplitRun<T>(code: seq<T>, pos: nat, op: T, args: seq<T>, rest: seq<T>, term: T)
    requires pos + 1 + |args| + |rest| + 1 <= |code|
    requires code[pos..pos + 1 + |args| + |rest| + 1] == [op] + args + rest + [term]
    ensures code[pos] == op && code[pos + 1..pos + 1 + |args|] == args
    ensures code[pos + 1 + |args|..pos + 1 + |args| + |rest| + 1] == rest + [term]
  {
    var n := 1 + |args| + |rest| + 1;
    var s := code[pos..pos + n];
    assert code[pos] == s[0];
    SliceSlice(code, pos, pos + n, 1, 1 + |args|);
    SliceSlice(code, pos, pos + n, 1 + |args|, n);
    assert s[1..1 + |args|] == args;
    assert s[1 + |args|..n] == rest + [term];
  }

  /** The three parts of a + (b + c), taken back out. */
  lemma Parts<T>(a: seq<T>, b: seq<T>, c: seq<T>)
    ensures (a + (b + c))[..|a|] == a
    ensures (a + (b + c))[|a|..|a| + |b|] == b
    ensures (a + (b + c))[|a| + |b|..] == c
  {
    assert (a + (b + c))[|a|..] == b + c;
    DropDrop(a + (b + c), |a|, |b|);
  }
}
