/** Concatenation of a list of lists, shared by the list-of-arrays structures of the model. */
module Seqs {

  /** The concatenation of the lists in `ss`, in order. */
  function Flat<T>(ss: seq<seq<T>>): seq<T> {
    if ss == [] then [] else Flat(ss[..|ss| - 1]) + ss[|ss| - 1]
  }

  lemma FlatStep<T>(ss: seq<seq<T>>, j: nat)
    requires j < |ss|
    ensures Flat(ss[..j + 1]) == Flat(ss[..j]) + ss[j]
  {
    assert ss[..j + 1][..j] == ss[..j];
  }

  lemma {:induction false} FlatAppend<T>(xs: seq<seq<T>>, ys: seq<seq<T>>)
    ensures Flat(xs + ys) == Flat(xs) + Flat(ys)
    decreases |ys|
  {
    if ys == [] {
      assert xs + ys == xs;
    } else {
      var ys' := ys[..|ys| - 1];
      assert (xs + ys)[..|xs + ys| - 1] == xs + ys';
      FlatAppend(xs, ys');
    }
  }

  lemma FlatPrepend<T>(a: seq<T>, ss: seq<seq<T>>)
    ensures Flat([a] + ss) == a + Flat(ss)
  {
    FlatAppend([a], ss);
    assert [a][..0] == [];
  }

  /** List j sits in the concatenation right after the lists before it. */
  lemma FlatFragment<T>(ss: seq<seq<T>>, j: nat)
    requires j < |ss|
    ensures |Flat(ss[..j])| + |ss[j]| <= |Flat(ss)|
    ensures Flat(ss)[|Flat(ss[..j])|..|Flat(ss[..j])| + |ss[j]|] == ss[j]
  {
    assert ss == ss[..j + 1] + ss[j + 1..];
    FlatAppend(ss[..j + 1], ss[j + 1..]);
    FlatStep(ss, j);
  }
}
