/** In-place removal of repeated elements from a slice, keeping first occurrences.
    The elements are compared with ==, which stands for the pointer identity the
    engine's node slices are keyed by. */
module Dedup {

  /** The elements of s in their order, each kept at its first occurrence only. */
  function Dedup<T(==)>(s: seq<T>): (r: seq<T>)
    ensures |r| <= |s|
    ensures forall i | 0 <= i < |r| :: r[i] in s
    ensures forall i | 0 <= i < |s| :: s[i] in r
  {
    if s == [] then []
    else
      var init := s[..|s| - 1];
      var d := Dedup(init);
      assert s == init + [s[|s| - 1]];
      if s[|s| - 1] in d then d else d + [s[|s| - 1]]
  }

  ghost predicate Distinct<T>(s: seq<T>) {
    forall a, b | 0 <= a < b < |s| :: s[a] != s[b]
  }

  /** No element is kept twice. */
  lemma {:induction false} DedupDistinct<T>(s: seq<T>)
    ensures Distinct(Dedup(s))
  {
    if s != [] {
      DedupDistinct(s[..|s| - 1]);
    }
  }

  /** The kept elements are a subsequence of s, in the same relative order, each
      taken at the index of its first occurrence. */
  lemma {:induction false} DedupFirstOccurrences<T>(s: seq<T>) returns (idx: seq<nat>)
    ensures |idx| == |Dedup(s)|
    ensures forall k | 0 <= k < |idx| :: idx[k] < |s| && Dedup(s)[k] == s[idx[k]]
    ensures forall k, l | 0 <= k < l < |idx| :: idx[k] < idx[l]
    ensures forall k | 0 <= k < |idx| :: forall m | 0 <= m < idx[k] :: s[m] != s[idx[k]]
  {
    if s == [] {
      idx := [];
    } else {
      var init := s[..|s| - 1];
      var last := s[|s| - 1];
      var prev := DedupFirstOccurrences(init);
      assert forall m | 0 <= m < |init| :: init[m] == s[m];
      if last in Dedup(init) {
        assert Dedup(s) == Dedup(init);
        idx := prev;
      } else {
        assert Dedup(s) == Dedup(init) + [last];
        assert last !in init;
        idx := prev + [|s| - 1];
      }
    }
  }

  /** A slice without repetitions is left as it is. */
  lemma {:induction false} DedupOfDistinct<T>(s: seq<T>)
    requires Distinct(s)
    ensures Dedup(s) == s
  {
    if s != [] {
      var init := s[..|s| - 1];
      assert Distinct(init);
      DedupOfDistinct(init);
      assert s[|s| - 1] !in init;
      assert s == init + [s[|s| - 1]];
    }
  }

  /** Removing duplicates twice is the same as removing them once. */
  lemma DedupIdempotent<T>(s: seq<T>)
    ensures Dedup(Dedup(s)) == Dedup(s)
  {
    DedupDistinct(s);
    DedupOfDistinct(Dedup(s));
  }

  /** Compacts the slice in place: the first `len` cells end up holding the first
      occurrences, in order, and the slice is cut to that length. */
  method RemoveDuplicates<T(==)>(nodes: array<T>) returns (len: int)
    modifies nodes
    ensures 0 <= len <= nodes.Length
    ensures nodes[..len] == Dedup(old(nodes[..]))
  {
    ghost var input := nodes[..];
    var encountered: set<T> := {};
    var j := 0;
    for i := 0 to nodes.Length
      invariant 0 <= j <= i
      invariant forall k | i <= k < nodes.Length :: nodes[k] == input[k]
      invariant nodes[..j] == Dedup(input[..i])
      invariant forall x :: x in encountered <==> x in input[..i]
    {
      var x := nodes[i];
      assert x == input[i];
      assert input[..i + 1] == input[..i] + [x];
      assert Dedup(input[..i + 1]) ==
        if x in Dedup(input[..i]) then Dedup(input[..i]) else Dedup(input[..i]) + [x];
      assert x in encountered <==> x in Dedup(input[..i]);
      if x !in encountered {
        ghost var kept := nodes[..j];
        nodes[j] := x;
        assert nodes[..j + 1] == kept + [x] by {
          assert nodes[..j] == kept;
        }
        encountered := encountered + {x};
        j := j + 1;
      }
    }
    assert input[..nodes.Length] == input;
    len := j;
  }
}
