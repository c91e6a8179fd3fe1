/**
  Lexicographic order on sequences of numbers, a prefix first: the order of Go's string comparison on bytes, and of
  compareNodeIDs in internal/export/export.go on the parts of an identifier.
 */
module Lexicographic {
  type Parts = seq<int>

  /** The sequences agree before position k, and there a is smaller. */
  predicate Below(a: Parts, b: Parts, k: int) { 0 <= k < |a| && k < |b| && a[..k] == b[..k] && a[k] < b[k] }

  predicate Leq(a: Parts, b: Parts) { a <= b || exists k :: 0 <= k < |a| && Below(a, b, k) }

  ghost predicate Less(a: Parts, b: Parts) { Leq(a, b) && a != b }

  lemma LeqAntisymmetric(a: Parts, b: Parts)
    ensures Leq(a, b) && Leq(b, a) ==> a == b
  {
    if Leq(a, b) && Leq(b, a) && a != b {
      if k :| 0 <= k < |a| && Below(a, b, k) {
        assert a[..k][..] == b[..k];
        if m :| 0 <= m < |b| && Below(b, a, m) {
          PrefixesAgree(a, b, k, m);
          PrefixesAgree(b, a, m, k);
        }
      }
    }
  }

  /** Where the first m positions agree, an earlier difference cannot be. */
  lemma PrefixesAgree(a: Parts, b: Parts, k: int, m: int)
    ensures 0 <= k < m <= |a| && m <= |b| && a[..m] == b[..m] ==> a[k] == b[k]
  {
    if 0 <= k < m <= |a| && m <= |b| { assert a[..m][k] == a[k] && b[..m][k] == b[k]; }
  }

  lemma LeqTotal(a: Parts, b: Parts)
    ensures Leq(a, b) || Leq(b, a)
  {
    var i := 0;
    while i < |a| && i < |b| && a[i] == b[i]
      invariant 0 <= i <= |a| && i <= |b| && a[..i] == b[..i]
    {
      i := i + 1;
    }
    if i < |a| && i < |b| { assert Below(a, b, i) || Below(b, a, i); }
  }

  lemma BelowTransitive(a: Parts, b: Parts, c: Parts, k: int, m: int)
    requires Below(a, b, k) && Below(b, c, m)
    ensures Leq(a, c)
  {
    var n := if k < m then k else m;
    assert a[..n] == a[..k][..n] && b[..n] == b[..m][..n] && b[..n] == b[..k][..n] && c[..n] == c[..m][..n];
    PrefixesAgree(a, b, m, k);
    PrefixesAgree(b, c, k, m);
    assert Below(a, c, n);
  }

  lemma LeqTransitive(a: Parts, b: Parts, c: Parts)
    requires Leq(a, b) && Leq(b, c)
    ensures Leq(a, c)
  {
    if k :| 0 <= k < |a| && Below(a, b, k) {
      if m :| 0 <= m < |b| && Below(b, c, m) {
        BelowTransitive(a, b, c, k, m);
      } else {
        assert Below(a, c, k) by { assert b[..k] == c[..k]; }
      }
    } else if m :| 0 <= m < |b| && Below(b, c, m) {
      if m < |a| { assert Below(a, c, m) by { assert a[..m] == b[..m]; } }
      else { assert c[..m][..|a|] == c[..|a|] && b[..m][..|a|] == b[..|a|]; }
    }
  }

  /** Extending the larger one changes nothing. */
  lemma LeqExtended(a: Parts, b: Parts, c: Parts)
    requires Leq(a, b)
    ensures Leq(a, b + c)
  {
    if k :| 0 <= k < |a| && Below(a, b, k) {
      assert (b + c)[..k] == b[..k];
      assert Below(a, b + c, k);
    }
  }

  /** The order in plain terms: the first difference decides, and a proper beginning comes first. */
  lemma FirstDifferenceDecides(p: Parts, a: int, b: int, x: Parts, y: Parts)
    ensures a != b ==> (Leq(p + [a] + x, p + [b] + y) <==> a < b)
    ensures Leq(p, p + x) && (x != [] ==> !Leq(p + x, p))
  {
    var u, v := p + [a] + x, p + [b] + y;
    if a < b { assert Below(u, v, |p|); }
    if b < a {
      assert Below(v, u, |p|);
      LeqAntisymmetric(u, v);
      assert u[|p|] == a && v[|p|] == b;
    }
    LeqAntisymmetric(p, p + x);
    assert x != [] ==> |p + x| > |p|;
  }
}
