/**
 * `jacz.util.lists.FragmentedArray`: a virtual array kept as a list of fragments,
 * each fragment tagged with the contiguous range of virtual indexes it stores.
 * Appending or prepending a fragment never copies elements; reading a slice does.
 */
module FragmentedArrays {
  import opened Optional
  import opened Seqs

  /** `jacz.util.numeric.IntegerRange` as used here: an inclusive pair of bounds. */
  datatype IntegerRange = IntegerRange(min: int, max: int)

  /** The exceptions `getArray` can raise. */
  datatype ArrayException = ArrayIndexOutOfBounds | IndexOutOfBounds | IllegalArgument

  /**
   * The layout of the fragment list, whose virtual array is `Flat` of the fragments:
   * one range per fragment; fragment j starts where the fragments before it end and
   * covers exactly its own length; while everything is empty the indexes start at 0.
   */
  ghost predicate Indexed<T>(fs: seq<seq<T>>, ix: seq<IntegerRange>) {
    && |fs| == |ix|
    && (forall j :: 0 <= j < |ix| ==> Placed(fs, ix, j))
    && (|ix| > 0 && |Flat(fs)| == 0 ==> ix[0].min == 0)
  }

  /** Fragment j starts after the fragments before it and covers its own length. */
  ghost predicate Placed<T>(fs: seq<seq<T>>, ix: seq<IntegerRange>, j: nat)
    requires j < |fs| && j < |ix|
  {
    && ix[j].min == ix[0].min + |Flat(fs[..j])|
    && ix[j].max == ix[j].min + |fs[j]| - 1
  }

  lemma Contiguous<T>(fs: seq<seq<T>>, ix: seq<IntegerRange>, j: nat)
    requires Indexed(fs, ix) && j + 1 < |ix|
    ensures ix[j + 1].min == ix[j].max + 1
  {
    assert Placed(fs, ix, j) && Placed(fs, ix, j + 1);
    FlatStep(fs, j);
  }

  lemma FragmentAt<T>(fs: seq<seq<T>>, ix: seq<IntegerRange>, j: nat)
    requires Indexed(fs, ix) && j < |ix|
    ensures 0 <= ix[j].min - ix[0].min
    ensures ix[j].max == ix[j].min + |fs[j]| - 1
    ensures ix[j].max - ix[0].min < |Flat(fs)|
    ensures Flat(fs)[ix[j].min - ix[0].min..ix[j].max + 1 - ix[0].min] == fs[j]
  {
    assert Placed(fs, ix, j);
    FlatFragment(fs, j);
  }

  lemma LastMax<T>(fs: seq<seq<T>>, ix: seq<IntegerRange>)
    requires Indexed(fs, ix) && |ix| > 0
    ensures ix[|ix| - 1].max == ix[0].min + |Flat(fs)| - 1
  {
    var n := |ix|;
    assert Placed(fs, ix, n - 1);
    FlatStep(fs, n - 1);
    assert fs[..n] == fs;
  }

  /** The layout is kept when a fragment is appended after the last one. */
  lemma IndexedAppend<T>(fs: seq<seq<T>>, ix: seq<IntegerRange>, a: seq<T>, oldMax: int)
    requires Indexed(fs, ix)
    requires oldMax == if |Flat(fs)| > 0 then ix[|ix| - 1].max else -1
    ensures Indexed(fs + [a], ix + [IntegerRange(oldMax + 1, oldMax + |a|)])
    ensures Flat(fs + [a]) == Flat(fs) + a
  {
    var fs', ix' := fs + [a], ix + [IntegerRange(oldMax + 1, oldMax + |a|)];
    if |ix| > 0 {
      LastMax(fs, ix);
    }
    assert fs'[..|fs|] == fs;
    assert Flat(fs') == Flat(fs) + a;
    forall j | 0 <= j < |ix'|
      ensures Placed(fs', ix', j)
    {
      if j < |ix| {
        assert fs'[..j] == fs[..j];
        assert Placed(fs, ix, j);
      }
    }
  }

  /** The layout is kept when a fragment is inserted before the first one. */
  lemma IndexedPrepend<T>(fs: seq<seq<T>>, ix: seq<IntegerRange>, a: seq<T>, oldMin: int)
    requires Indexed(fs, ix)
    requires oldMin == if |Flat(fs)| > 0 then ix[0].min else 0
    ensures Indexed([a] + fs, [IntegerRange(oldMin - |a|, oldMin - 1)] + ix)
    ensures Flat([a] + fs) == a + Flat(fs)
  {
    var fs', ix' := [a] + fs, [IntegerRange(oldMin - |a|, oldMin - 1)] + ix;
    FlatPrepend(a, fs);
    forall j | 0 <= j < |ix'|
      ensures Placed(fs', ix', j)
    {
      if j == 0 {
        assert fs'[..0] == [];
      } else {
        assert Placed(fs, ix, j - 1);
        assert Placed(fs, ix, 0);
        assert fs[..0] == [];
        assert fs'[..j] == [a] + fs[..j - 1];
        FlatPrepend(a, fs[..j - 1]);
      }
    }
  }

  /** `getArray`'s search for the first fragment whose range reaches `from`. */
  method FindFragment<T>(fs: seq<seq<T>>, ix: seq<IntegerRange>, from: int) returns (i: nat)
    requires Indexed(fs, ix) && |ix| > 0 && ix[0].min <= from
    ensures i <= |ix|
    ensures i == |ix| <==> ix[0].min + |Flat(fs)| <= from
    ensures i < |ix| ==> ix[i].min <= from <= ix[i].max
  {
    LastMax(fs, ix);
    i := 0;
    while i < |ix| && ix[i].max < from
      invariant 0 <= i <= |ix|
      invariant i > 0 ==> ix[i - 1].max < from
      invariant i < |ix| ==> ix[i].min <= from
    {
      if i + 1 < |ix| {
        Contiguous(fs, ix, i);
      }
      i := i + 1;
    }
    if i < |ix| {
      FragmentAt(fs, ix, i);
    }
  }

  /**
   * `getArray`'s copy across several fragments: the tail of fragment i, the middle
   * fragments whole, the head of the last one.
   */
  method CopyAcross<T>(fs: seq<seq<T>>, ix: seq<IntegerRange>, i0: nat, from: int, to: int, result: array<T>)
    requires Indexed(fs, ix) && i0 < |ix|
    requires ix[0].min <= ix[i0].min <= from <= ix[i0].max && ix[i0].max + 1 < to
    requires to <= ix[0].min + |Flat(fs)|
    requires result.Length == to - from
    modifies result
    ensures result[..] == Flat(fs)[from - ix[0].min..to - ix[0].min]
  {
    ghost var contents := Flat(fs);
    ghost var offset := from - ix[0].min;
    var i := i0;
    LastMax(fs, ix);
    FragmentAt(fs, ix, i);
    // copy the tail of the first fragment
    var sizeCopied := |fs[i]| - (from - ix[i].min);
    ArrayCopy(fs[i], from - ix[i].min, result, 0, sizeCopied);
    assert contents[offset..offset + sizeCopied] == fs[i][from - ix[i].min..];
    Contiguous(fs, ix, i);
    CopyRest(fs, ix, i + 1, from, to, result, sizeCopied);
  }

  /** `getArray`'s copy when the slice lies inside fragment i (`Arrays.copyOfRange`). */
  method CopyWithin<T(0)>(fs: seq<seq<T>>, ix: seq<IntegerRange>, i: nat, from: int, to: int)
    returns (result: array<T>)
    requires Indexed(fs, ix) && i < |ix|
    requires ix[i].min <= from <= to <= ix[i].max + 1
    ensures 0 <= from - ix[0].min <= to - ix[0].min <= |Flat(fs)|
    ensures result[..] == Flat(fs)[from - ix[0].min..to - ix[0].min]
    ensures fresh(result)
  {
    WithinFragment(fs, ix, i, from, to);
    var start := from - ix[i].min;
    result := new T[to - from];
    ArrayCopy(fs[i], start, result, 0, to - from);
    assert result[..] == result[..0 + (to - from)];
  }

  /** A slice of the virtual array that lies inside fragment i is the same slice of that fragment. */
  lemma WithinFragment<T>(fs: seq<seq<T>>, ix: seq<IntegerRange>, i: nat, from: int, to: int)
    requires Indexed(fs, ix) && i < |ix|
    requires ix[i].min <= from <= to <= ix[i].max + 1
    ensures 0 <= from - ix[0].min <= to - ix[0].min <= |Flat(fs)|
    ensures to - ix[i].min <= |fs[i]|
    ensures fs[i][from - ix[i].min..to - ix[i].min] == Flat(fs)[from - ix[0].min..to - ix[0].min]
  {
    FragmentAt(fs, ix, i);
    SubSlice(Flat(fs), ix[i].min - ix[0].min, ix[i].max + 1 - ix[0].min, from - ix[i].min, to - ix[i].min);
  }

  /** The rest of `getArray`'s copy, once `sizeCopied` elements of the slice are in place. */
  method CopyRest<T>(fs: seq<seq<T>>, ix: seq<IntegerRange>, i0: nat, from: int, to: int, result: array<T>, copied: nat)
    requires Indexed(fs, ix) && 0 < i0 < |ix|
    requires ix[0].min <= from && from + copied == ix[i0].min < to <= ix[0].min + |Flat(fs)|
    requires 0 < copied && result.Length == to - from
    requires result[..copied] == Flat(fs)[from - ix[0].min..from - ix[0].min + copied]
    modifies result
    ensures result[..] == Flat(fs)[from - ix[0].min..to - ix[0].min]
  {
    ghost var contents := Flat(fs);
    ghost var offset := from - ix[0].min;
    var length := to - from;
    var i, sizeCopied := i0, copied;
    LastMax(fs, ix);
    // copy the fragments in the middle
    while to > ix[i].max + 1
      invariant 0 < i < |ix|
      invariant from + sizeCopied == ix[i].min < to
      invariant 0 < sizeCopied < length == result.Length
      invariant result[..sizeCopied] == contents[offset..offset + sizeCopied]
      decreases |ix| - i
    {
      FragmentFollows(fs, ix, i, offset, sizeCopied, |fs[i]|);
      ghost var before := result[..sizeCopied];
      ArrayCopy(fs[i], 0, result, sizeCopied, |fs[i]|);
      assert result[..sizeCopied + |fs[i]|] == before + fs[i][0..|fs[i]|];
      sizeCopied := sizeCopied + |fs[i]|;
      i := i + 1;
    }
    // copy the head of the last fragment
    var rest := to - ix[i].min;
    FragmentAt(fs, ix, i);
    FragmentFollows(fs, ix, i, offset, sizeCopied, rest);
    ArrayCopy(fs[i], 0, result, sizeCopied, rest);
    assert result[..] == result[..sizeCopied + rest];
  }

  /**
   * Fragment i starts where the copied prefix of the slice ends: its first n elements
   * are the next n elements of the virtual array, and fragment i + 1 starts after it.
   */
  lemma FragmentFollows<T>(fs: seq<seq<T>>, ix: seq<IntegerRange>, i: nat, offset: nat, done: nat, n: nat)
    requires Indexed(fs, ix) && i < |ix|
    requires ix[0].min + offset + done == ix[i].min
    requires n <= |fs[i]|
    ensures offset + (done + n) <= |Flat(fs)|
    ensures Flat(fs)[offset..offset + done] + fs[i][0..n] == Flat(fs)[offset..offset + (done + n)]
    ensures ix[i].max == ix[i].min + |fs[i]| - 1
    ensures i + 1 < |ix| ==> ix[i + 1].min == ix[i].max + 1
  {
    FragmentAt(fs, ix, i);
    if i + 1 < |ix| {
      Contiguous(fs, ix, i);
    }
    var c := Flat(fs);
    SubSlice(c, offset + done, offset + done + |fs[i]|, 0, n);
    Extend(c, offset, done, fs[i][0..n]);
  }

  /** A slice of a fragment is a slice of the virtual array. */
  lemma SubSlice<T>(c: seq<T>, lo: nat, hi: nat, x: nat, y: nat)
    requires lo <= hi <= |c| && x <= y <= hi - lo
    ensures c[lo..hi][x..y] == c[lo + x..lo + y]
  {
    var f := c[lo..hi];
    forall k | 0 <= k < y - x
      ensures f[x..y][k] == c[lo + x..lo + y][k]
    {
      assert f[x..y][k] == f[x + k] == c[lo + x + k];
    }
  }

  /** Appending the next piece of the virtual array to a copied prefix of the slice. */
  lemma Extend<T>(contents: seq<T>, offset: nat, done: nat, piece: seq<T>)
    requires offset + done + |piece| <= |contents|
    requires contents[offset + done..offset + done + |piece|] == piece
    ensures contents[offset..offset + done] + piece == contents[offset..offset + done + |piece|]
  {
  }

  class FragmentedArray<T(0)> {
    /** The fragments themselves (`arrays`). */
    var arrays: seq<seq<T>>
    /** The virtual indexes each fragment stores (`indexes`); they may be negative. */
    var indexes: seq<IntegerRange>

    /** The virtual array. */
    ghost function Contents(): seq<T>
      reads this
    {
      Flat(arrays)
    }

    ghost predicate Valid()
      reads this
    {
      Indexed(arrays, indexes)
    }

    constructor ()
      ensures Valid() && arrays == [] && indexes == [] && Contents() == []
    {
      arrays := [];
      indexes := [];
    }

    /** `size()`: last max - first min + 1, or 0 without fragments; it is the virtual array's length. */
    method Size() returns (n: int)
      requires Valid()
      ensures n == |Contents()|
    {
      if |indexes| == 0 {
        n := 0;
      } else {
        LastMax(arrays, indexes);
        n := indexes[|indexes| - 1].max - indexes[0].min + 1;
      }
    }

    /**
     * `generateBaseArray`'s scan for the first non-empty fragment. It runs only when
     * size() != 0 and then always stops inside the list.
     */
    method GenerateBaseArray() returns (first: Option<nat>)
      requires Valid()
      ensures first.None? <==> |Contents()| == 0
      ensures first.Some? ==> first.value < |arrays| && |arrays[first.value]| > 0
      ensures first.Some? ==> forall k :: 0 <= k < first.value ==> |arrays[k]| == 0
    {
      var size := Size();
      if size == 0 {
        return None;
      }
      var i := 0;
      while |arrays[i]| == 0
        invariant 0 <= i < |arrays|
        invariant |Flat(arrays[..i])| == 0
        invariant forall k :: 0 <= k < i ==> |arrays[k]| == 0
        decreases |arrays| - i
      {
        FlatStep(arrays, i);
        i := i + 1;
      }
      first := Some(i);
    }

    /** `add`: appends a fragment stored at the virtual indexes right after the last one. */
    method Add(a: seq<T>)
      requires Valid()
      modifies this
      ensures Valid()
      ensures arrays == old(arrays) + [a]
      ensures indexes == old(indexes) + [
        if |old(Contents())| > 0 then
          IntegerRange(old(indexes)[|old(indexes)| - 1].max + 1, old(indexes)[|old(indexes)| - 1].max + |a|)
        else IntegerRange(0, |a| - 1)]
      ensures Contents() == old(Contents()) + a
    {
      // size() only reads the indexes, so it may be taken before the fragment is stored
      var size := Size();
      var oldMax: int;
      if size > 0 {
        oldMax := indexes[|indexes| - 1].max;
      } else {
        oldMax := -1;
      }
      IndexedAppend(arrays, indexes, a, oldMax);
      arrays := arrays + [a];
      indexes := indexes + [IntegerRange(oldMax + 1, oldMax + |a|)];
      var _ := GenerateBaseArray();
    }

    /** `addLeft`: inserts a fragment at position 0, stored at the virtual indexes right before the first one. */
    method AddLeft(a: seq<T>)
      requires Valid()
      modifies this
      ensures Valid()
      ensures arrays == [a] + old(arrays)
      ensures indexes == [
        if |old(Contents())| > 0 then IntegerRange(old(indexes)[0].min - |a|, old(indexes)[0].min - 1)
        else IntegerRange(-|a|, -1)] + old(indexes)
      ensures Contents() == a + old(Contents())
    {
      var size := Size();
      var oldMin: int;
      if size > 0 {
        oldMin := indexes[0].min;
      } else {
        oldMin := 0;
      }
      IndexedPrepend(arrays, indexes, a, oldMin);
      arrays := [a] + arrays;
      indexes := [IntegerRange(oldMin - |a|, oldMin - 1)] + indexes;
      var _ := GenerateBaseArray();
    }

    /** `getArray()`: the whole virtual array, or null when it is empty. */
    method GetArray() returns (res: Result<array?<T>, ArrayException>)
      requires Valid()
      ensures |Contents()| == 0 ==> res == Ok(null)
      ensures |Contents()| > 0 ==> res.Ok? && res.value != null && res.value[..] == Contents()
      ensures res.Ok? && res.value != null ==> fresh(res.value)
    {
      var size := Size();
      res := GetArrayRange(0, size);
      assert Contents()[0..size] == Contents();
    }

    /**
     * `getArray(offset, length)`: a fresh copy of the slice [offset, offset + length) of the
     * virtual array; null for length 0; an out-of-bounds error when the slice leaves the array.
     * A negative length is not checked by the source and ends in the JDK's own exceptions.
     */
    method GetArrayRange(offset: int, length: int) returns (res: Result<array?<T>, ArrayException>)
      requires Valid()
      ensures offset < 0 ==> res == Err(ArrayIndexOutOfBounds)
      ensures offset >= 0 && offset + length > |Contents()| ==> res == Err(ArrayIndexOutOfBounds)
      ensures offset >= 0 && offset + length <= |Contents()| && length == 0 ==> res == Ok(null)
      ensures offset >= 0 && offset + length <= |Contents()| && length < 0 ==>
        res == Err(if offset >= |Contents()| then IndexOutOfBounds else IllegalArgument)
      ensures offset >= 0 && offset + length <= |Contents()| && length > 0 ==>
        res.Ok? && res.value != null && res.value[..] == Contents()[offset..offset + length]
      ensures res.Ok? && res.value != null ==> fresh(res.value)
    {
      var size := Size();
      if offset < 0 {
        return Err(ArrayIndexOutOfBounds);
      }
      if offset + length > size {
        return Err(ArrayIndexOutOfBounds);
      }
      if length == 0 {
        return Ok(null);
      }
      if |indexes| == 0 {
        // indexes.get(0) on an empty list
        return Err(IndexOutOfBounds);
      }
      var fs, ix := arrays, indexes;
      // move the offset to the internal indexes
      var from := ix[0].min + offset;
      var to := from + length;
      // find the first fragment to copy
      var i := FindFragment(fs, ix, from);
      if i == |ix| {
        // indexes.get(i) past the end of the list
        return Err(IndexOutOfBounds);
      }
      if to <= ix[i].max + 1 {
        if to < from {
          // Arrays.copyOfRange with from > to
          return Err(IllegalArgument);
        }
        // only one fragment is needed
        var result := CopyWithin(fs, ix, i, from, to);
        return Ok(result);
      }
      FragmentAt(fs, ix, i);
      var result := new T[length];
      CopyAcross(fs, ix, i, from, to, result);
      return Ok(result);
    }
  }

  /** `System.arraycopy` from a fragment into the result array. */
  method ArrayCopy<T>(src: seq<T>, srcPos: int, dest: array<T>, destPos: int, len: int)
    requires 0 <= srcPos && 0 <= len && srcPos + len <= |src|
    requires 0 <= destPos && destPos + len <= dest.Length
    modifies dest
    ensures dest[..destPos] == old(dest[..destPos])
    ensures dest[destPos..destPos + len] == src[srcPos..srcPos + len]
    ensures dest[..destPos + len] == old(dest[..destPos]) + src[srcPos..srcPos + len]
    ensures dest[destPos + len..] == old(dest[destPos + len..])
  {
    var k := 0;
    while k < len
      invariant 0 <= k <= len
      invariant dest[..destPos] == old(dest[..destPos])
      invariant dest[destPos..destPos + k] == src[srcPos..srcPos + k]
      invariant dest[destPos + len..] == old(dest[destPos + len..])
    {
      dest[destPos + k] := src[srcPos + k];
      k := k + 1;
    }
    assert dest[..destPos + len] == dest[..destPos] + dest[destPos..destPos + len];
  }
}
