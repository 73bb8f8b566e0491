/**
 * Facts about sequences in general, used by the string and chunking
 * modules: how concatenation, slicing and indexing fit together, and the
 * element-wise image of a sequence under a function.
 */
module Seqs {

  // ---------------------------------------------------------------------
  // Concatenation, slicing and indexing
  // ---------------------------------------------------------------------

  lemma ConcatAssoc<T>(x: seq<T>, y: seq<T>, z: seq<T>)
    ensures x + (y + z) == (x + y) + z
  {
  }

  lemma ConcatEmpty<T>(s: seq<T>)
    ensures s + [] == s && [] + s == s && s[..|s|] == s
  {
  }

  lemma PrefixOfConcat<T>(a: seq<T>, b: seq<T>)
    ensures (a + b)[..|a|] == a
  {
  }

  lemma ConsParts<T>(x: T, s: seq<T>)
    ensures ([x] + s)[0] == x && ([x] + s)[1..] == s
  {
  }

  lemma ConsHeadTail<T>(s: seq<T>)
    requires s != []
    ensures [s[0]] + s[1..] == s
  {
  }

  lemma HeadTailOfConcat<T>(x: seq<T>, z: seq<T>)
    requires x != []
    ensures (x + z)[0] == x[0] && (x + z)[1..] == x[1..] + z
  {
  }

  lemma SplitAt<T>(s: seq<T>, i: nat)
    requires i <= |s|
    ensures s == s[..i] + s[i..]
  {
  }

  lemma TakeSnoc<T>(s: seq<T>, i: nat)
    requires i < |s|
    ensures s[..i + 1] == s[..i] + [s[i]]
    ensures s[..i + 1][..i] == s[..i] && s[..i + 1][i] == s[i]
  {
  }

  lemma IndexSnoc<T>(s: seq<T>, x: T, i: nat)
    requires i <= |s|
    ensures (s + [x])[i] == if i < |s| then s[i] else x
  {
  }

  lemma AppendSnoc<T>(a: seq<T>, b: seq<T>)
    requires b != []
    ensures var ab := a + b; var init := b[..|b| - 1];
      && ab[..|ab| - 1] == a + init
      && ab[|ab| - 1] == b[|b| - 1]
      && ab == (a + init) + [b[|b| - 1]]
  {
  }

  lemma DropConcat<T>(x: seq<T>, y: seq<T>, n: nat)
    requires n <= |x|
    ensures (x + y)[n..] == x[n..] + y
  {
  }

  lemma SliceOfSuffix<T>(s: seq<T>, i: nat, k: nat)
    requires i + k <= |s|
    ensures s[i..][..k] == s[i..i + k] && s[i..][k..] == s[i + k..]
  {
  }

  lemma SliceMembers<T>(s: seq<T>, i: nat, j: nat)
    requires i <= j <= |s|
    ensures forall c :: c in s[i..j] ==> c in s
  {
    forall c | c in s[i..j] ensures c in s {
      var k :| 0 <= k < j - i && s[i..j][k] == c;
      assert s[i + k] == c;
    }
  }

  lemma MoveHead<T>(done: seq<T>, x: T, later: seq<T>, whole: seq<T>)
    requires whole == [x] + later
    ensures (done + [x]) + later == done + whole
  {
  }

  lemma IndexInMiddle<T>(x: seq<T>, y: seq<T>, z: seq<T>, k: nat)
    requires k < |y|
    ensures |x| + k < |(x + y) + z| && ((x + y) + z)[|x| + k] == y[k]
  {
  }

  // ---------------------------------------------------------------------
  // Mapping a function over a sequence
  // ---------------------------------------------------------------------

  /** `f` applied to every element of `s`, in order. */
  function Map<A, B>(f: A -> B, s: seq<A>): (r: seq<B>)
    ensures |r| == |s|
  {
    if s == [] then [] else Map(f, s[..|s| - 1]) + [f(s[|s| - 1])]
  }

  lemma {:induction false} MapAt<A, B>(f: A -> B, s: seq<A>, i: nat)
    requires i < |s|
    ensures Map(f, s)[i] == f(s[i])
    decreases |s|
  {
    var init := s[..|s| - 1];
    IndexSnoc(Map(f, init), f(s[|s| - 1]), i);
    if i < |init| {
      MapAt(f, init, i);
    }
  }

  lemma MapSnoc<A, B>(f: A -> B, s: seq<A>, i: nat)
    requires i < |s|
    ensures Map(f, s[..i + 1]) == Map(f, s[..i]) + [f(s[i])]
  {
    TakeSnoc(s, i);
  }
}
