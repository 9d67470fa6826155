/** Bytes and optional values. */
module Basics {
  type Byte = b: int | 0 <= b < 256
  type Bytes = seq<Byte>

  datatype Option<+T> = None | Some(value: T)

  lemma SliceOfSlice(s: Bytes, lo: nat, hi: nat, i: nat, j: nat)
    requires lo <= hi <= |s| && i <= j <= hi - lo
    ensures s[lo..hi][i..j] == s[lo + i..lo + j]
  {
    var a, b := s[lo..hi][i..j], s[lo + i..lo + j];
    forall k | 0 <= k < j - i ensures a[k] == b[k] {
      assert a[k] == s[lo..hi][i + k];
    }
  }

  // file holds bytes at pos.
  ghost predicate Holds(file: Bytes, pos: nat, bytes: Bytes) {
    pos + |bytes| <= |file| && file[pos..pos + |bytes|] == bytes
  }

  lemma HoldsInside(file: Bytes, pos: nat, bytes: Bytes)
    requires Holds(file, pos, bytes)
    ensures pos + |bytes| <= |file|
  {
  }

  lemma HoldsParts(file: Bytes, pos: nat, a: Bytes, b: Bytes)
    requires Holds(file, pos, a + b)
    ensures Holds(file, pos, a) && Holds(file, pos + |a|, b)
  {
    var s := file[pos..pos + |a + b|];
    assert file[pos..pos + |a|] == s[..|a|] == a;
    assert file[pos + |a|..pos + |a| + |b|] == s[|a|..] == b;
  }

  lemma HoldsPrefix(file: Bytes, cut: nat, pos: nat, bytes: Bytes)
    requires cut <= |file| && Holds(file, pos, bytes) && pos + |bytes| <= cut
    ensures Holds(file[..cut], pos, bytes)
  {
    assert file[..cut][pos..pos + |bytes|] == file[pos..pos + |bytes|];
  }

  lemma HoldsAppended(file: Bytes, pos: nat, bytes: Bytes, longer: Bytes)
    requires Holds(file, pos, bytes) && file <= longer
    ensures Holds(longer, pos, bytes)
  {
    assert longer[..|file|] == file;
    assert longer[pos..pos + |bytes|] == file[pos..pos + |bytes|];
  }

  lemma HoldsWithin(data: Bytes, p: nat, outer: Bytes, q: nat, inner: Bytes)
    requires Holds(data, p, outer) && Holds(outer, q, inner)
    ensures Holds(data, p + q, inner)
  {
    var s := data[p..p + |outer|];
    SliceOfSlice(data, p, p + |outer|, q, q + |inner|);
  }

  lemma WholeHolds(data: Bytes)
    ensures Holds(data, 0, data)
  {
  }
}
