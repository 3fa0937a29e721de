/** Keypoints as produced by the corner detector, the descending-response
    comparator used to rank them, the ranking itself, and what it means to keep
    the best `limit` of them. */
module KeyPoints {

  /** A detected feature: its position, its detector response, and the other
      fields the selector carries through untouched. Floating-point fields are
      modelled as reals. */
  datatype KeyPoint = KeyPoint(x: real, y: real, size: real, angle: real,
                               response: real, octave: int, classId: int)

  function Min(a: int, b: int): int
  {
    if a <= b then a else b
  }

  /** The comparator handed to the sort: `first` goes before `second` exactly
      when its response is strictly larger. */
  predicate CompareResponse(first: KeyPoint, second: KeyPoint)
    ensures CompareResponse(first, second) ==> first != second
  {
    first.response > second.response
  }

  /** CompareResponse is a strict weak order, as the sort requires: irreflexive,
      asymmetric, transitive, and two points are unordered exactly when their
      responses are equal (so ties are left in no particular order). */
  lemma CompareResponseIsStrictWeakOrder(a: KeyPoint, b: KeyPoint, c: KeyPoint)
    ensures !CompareResponse(a, a)
    ensures CompareResponse(a, b) ==> !CompareResponse(b, a)
    ensures CompareResponse(a, b) && CompareResponse(b, c) ==> CompareResponse(a, c)
    ensures !CompareResponse(a, b) && !CompareResponse(b, a) <==> a.response == b.response
  {
  }

  /** Sorted with respect to CompareResponse: no later point compares before an
      earlier one, i.e. responses never increase along the sequence. */
  predicate SortedByResponse(s: seq<KeyPoint>)
  {
    forall i, j :: 0 <= i < j < |s| ==> s[i].response >= s[j].response
  }

  /** Inserting `p` after every point with a response at least as large, and
      before the first one with a smaller response, keeps the sequence sorted
      and adds exactly `p` to its contents. */
  lemma InsertKeepsSorted(r: seq<KeyPoint>, j: nat, p: KeyPoint)
    requires SortedByResponse(r)
    requires j <= |r|
    requires forall k :: 0 <= k < j ==> r[k].response >= p.response
    requires j < |r| ==> p.response > r[j].response
    ensures multiset(r[..j] + [p] + r[j..]) == multiset(r) + multiset{p}
    ensures SortedByResponse(r[..j] + [p] + r[j..])
  {
    assert multiset(r[..j] + [p] + r[j..]) == multiset(r) + multiset{p} by {
      assert r == r[..j] + r[j..];
    }
    var t := r[..j] + [p] + r[j..];
    InsertAt(r, j, p);
    forall a, b | 0 <= a < b < |t| ensures t[a].response >= t[b].response {
      var a', b' := if a <= j then a else a - 1, if b <= j then b else b - 1;
      assert a' <= b';
      if a == j {
        assert t[a] == p;
        if b' < |r| { assert r[j].response >= r[b'].response; }
      } else if b == j {
        assert t[a] == r[a] && t[b] == p;
      } else {
        assert t[a] == r[a'] && t[b] == r[b'];
        if a' < b' { assert r[a'].response >= r[b'].response; }
      }
    }
  }

  /** Where each element of `r` ends up once `p` is inserted at `j`. */
  lemma InsertAt(r: seq<KeyPoint>, j: nat, p: KeyPoint)
    requires j <= |r|
    ensures |r[..j] + [p] + r[j..]| == |r| + 1
    ensures (r[..j] + [p] + r[j..])[j] == p
    ensures forall a :: 0 <= a < j ==> (r[..j] + [p] + r[j..])[a] == r[a]
    ensures forall a :: j < a <= |r| ==> (r[..j] + [p] + r[j..])[a] == r[a - 1]
  {
  }

  /** The library sort over the detector's output: some permutation of `s` in
      non-increasing response order. Callers rely on this contract only; the
      insertion sort below is one way of meeting it, and the order it gives to
      equal responses is not part of the contract. */
  method SortByResponse(s: seq<KeyPoint>) returns (r: seq<KeyPoint>)
    ensures multiset(r) == multiset(s)
    ensures SortedByResponse(r)
  {
    r := [];
    for i := 0 to |s|
      invariant multiset(r) == multiset(s[..i])
      invariant SortedByResponse(r)
    {
      var p := s[i];
      var j := 0;
      while j < |r| && !CompareResponse(p, r[j])
        invariant 0 <= j <= |r|
        invariant forall k :: 0 <= k < j ==> r[k].response >= p.response
      {
        j := j + 1;
      }
      InsertKeepsSorted(r, j, p);
      assert s[..i + 1] == s[..i] + [p];
      r := r[..j] + [p] + r[j..];
    }
    assert s[..|s|] == s;
  }

  /** `kept` is a best-`limit` selection from `cand`: it has min(limit, |cand|)
      points, in non-increasing response order, all drawn from `cand` (with
      multiplicity), and none of the candidates left behind has a larger
      response than any point kept. */
  predicate IsTopK(cand: seq<KeyPoint>, limit: nat, kept: seq<KeyPoint>)
  {
    && |kept| == Min(limit, |cand|)
    && SortedByResponse(kept)
    && multiset(kept) <= multiset(cand)
    && forall p :: p in kept ==>
         forall d :: d in multiset(cand) - multiset(kept) ==> p.response >= d.response
  }

  /** In a sorted sequence every point before position k has a response at
      least as large as every point from position k on. */
  lemma SortedSplit(sorted: seq<KeyPoint>, k: nat)
    requires SortedByResponse(sorted)
    requires k <= |sorted|
    ensures forall p :: p in sorted[..k] ==> forall d :: d in sorted[k..] ==> p.response >= d.response
  {
    forall p, d | p in sorted[..k] && d in sorted[k..]
      ensures p.response >= d.response
    {
      var a :| 0 <= a < k && sorted[..k][a] == p;
      var b :| 0 <= b < |sorted| - k && sorted[k..][b] == d;
      assert sorted[a] == p && sorted[k + b] == d;
    }
  }

  /** Taking the first min(limit, n) points of any sorted permutation of the
      candidates is a best-`limit` selection, whatever order the sort gave to
      equal responses. */
  lemma TopKOfSorted(cand: seq<KeyPoint>, sorted: seq<KeyPoint>, limit: nat)
    requires multiset(sorted) == multiset(cand)
    requires SortedByResponse(sorted)
    ensures IsTopK(cand, limit, sorted[..Min(limit, |sorted|)])
  {
    var k := Min(limit, |sorted|);
    var kept, dropped := sorted[..k], sorted[k..];
    assert |kept| == Min(limit, |cand|) by {
      assert |cand| == |multiset(cand)| == |sorted|;
    }
    assert SortedByResponse(kept) by {
      forall i, j | 0 <= i < j < |kept| ensures kept[i].response >= kept[j].response {
        assert kept[i] == sorted[i] && kept[j] == sorted[j];
      }
    }
    assert multiset(cand) == multiset(kept) + multiset(dropped) by {
      assert sorted == kept + dropped;
    }
    SortedSplit(sorted, k);
    forall p, d | p in kept && d in multiset(cand) - multiset(kept)
      ensures p.response >= d.response
    {
      assert d in dropped;
    }
  }

  /** When the quota is at least the number of candidates, a best-`limit`
      selection keeps every candidate. */
  lemma TopKUnderQuotaKeepsAll(cand: seq<KeyPoint>, limit: nat, kept: seq<KeyPoint>)
    requires IsTopK(cand, limit, kept)
    requires |cand| <= limit
    ensures multiset(kept) == multiset(cand)
  {
    var rest := multiset(cand) - multiset(kept);
    assert multiset(cand) == multiset(kept) + rest;
    assert |rest| == 0;
  }

  /** The output vector `pts`, which the selector only appends to. */
  class KeyPointVector {
    var items: seq<KeyPoint>

    constructor ()
      ensures items == []
    {
      items := [];
    }

    method PushBack(p: KeyPoint)
      modifies this
      ensures items == old(items) + [p]
    {
      items := items + [p];
    }
  }
}
