/** The order in which a key-value store iterates: byte strings, lexicographically. */
module ByteOrder {
  import opened Machine

  predicate Less(a: bytes, b: bytes) {
    b != [] && (a == [] || a[0] < b[0] || (a[0] == b[0] && Less(a[1..], b[1..])))
  }

  /** The two agree up to index `k`, and there `a` has the smaller byte. */
  ghost predicate SmallerAt(a: bytes, b: bytes, k: int) {
    0 <= k < |a| && k < |b| && a[..k] == b[..k] && a[k] < b[k]
  }

  /** Lexicographic order of unsigned bytes: `a` is a proper prefix, or has the smaller byte where they first differ. */
  lemma {:induction false} LessIsLexicographic(a: bytes, b: bytes)
    ensures Less(a, b) <==> a < b || exists k :: SmallerAt(a, b, k)
  {
    if a == [] || b == [] {
    } else if a[0] != b[0] {
      assert a[0] < b[0] ==> SmallerAt(a, b, 0);
      assert forall k :: SmallerAt(a, b, k) && k > 0 ==> a[..k][0] == b[..k][0];
    } else {
      LessIsLexicographic(a[1..], b[1..]);
      assert a == [a[0]] + a[1..] && b == [b[0]] + b[1..];
      if k :| SmallerAt(a[1..], b[1..], k) {
        assert a[..k + 1] == [a[0]] + a[1..][..k] && b[..k + 1] == [b[0]] + b[1..][..k];
        assert SmallerAt(a, b, k + 1);
      }
      if k :| SmallerAt(a, b, k) {
        assert a[1..][..k - 1] == a[..k][1..] && b[1..][..k - 1] == b[..k][1..];
        assert SmallerAt(a[1..], b[1..], k - 1);
      }
    }
  }

  lemma {:induction false} LessIrreflexive(a: bytes)
    ensures !Less(a, a)
  {
    if a == [] {
    } else {
      LessIrreflexive(a[1..]);
    }
  }

  lemma {:induction false} LessTransitive(a: bytes, b: bytes, c: bytes)
    requires Less(a, b) && Less(b, c)
    ensures Less(a, c)
  {
    if a == [] || a[0] < b[0] || b[0] < c[0] {
    } else {
      LessTransitive(a[1..], b[1..], c[1..]);
    }
  }

  lemma {:induction false} LessTotal(a: bytes, b: bytes)
    ensures Less(a, b) || a == b || Less(b, a)
  {
    if a == [] || b == [] || a[0] != b[0] {
    } else {
      LessTotal(a[1..], b[1..]);
      assert a[1..] == b[1..] ==> a == [a[0]] + a[1..] == b;
    }
  }

  lemma {:induction false} LessUnderPrefix(p: bytes, a: bytes, b: bytes)
    ensures Less(p + a, p + b) == Less(a, b)
  {
    if p == [] {
      assert p + a == a && p + b == b;
    } else {
      assert (p + a)[1..] == p[1..] + a && (p + b)[1..] == p[1..] + b;
      LessUnderPrefix(p[1..], a, b);
    }
  }

  ghost predicate Ascending(ks: seq<bytes>) {
    forall i, j :: 0 <= i < j < |ks| ==> Less(ks[i], ks[j])
  }

  ghost predicate IsLeast(k: bytes, s: set<bytes>) {
    k in s && forall k' :: k' in s ==> k == k' || Less(k, k')
  }

  lemma {:induction false} LeastExists(s: set<bytes>) returns (k: bytes)
    requires s != {}
    ensures IsLeast(k, s)
    decreases |s|
  {
    k :| k in s;
    if s == {k} {
    } else {
      var k0 := LeastExists(s - {k});
      LessTotal(k, k0);
      forall k' | k' in s && k' != k && Less(k, k0) ensures Less(k, k') {
        if k' != k0 {
          LessTransitive(k, k0, k');
        }
      }
      if Less(k0, k) {
        k := k0;
      }
    }
  }

  /** The keys of a set in store order. */
  ghost function Sorted(s: set<bytes>): seq<bytes>
    decreases |s|
  {
    if s == {} then []
    else
      var k0 := Least(s);
      [k0] + Sorted(s - {k0})
  }

  ghost function Least(s: set<bytes>): (k: bytes)
    requires s != {}
    ensures IsLeast(k, s)
  {
    assert exists k :: IsLeast(k, s) by {
      var k := LeastExists(s);
    }
    var k :| IsLeast(k, s);
    k
  }

  lemma LeastUnique(k: bytes, s: set<bytes>)
    requires IsLeast(k, s)
    ensures k == Least(s)
  {
    var k' := Least(s);
    if k != k' {
      LessTransitive(k, k', k);
      LessIrreflexive(k);
    }
  }

  lemma {:induction false} SortedContents(s: set<bytes>)
    ensures Ascending(Sorted(s))
    ensures forall k :: k in Sorted(s) <==> k in s
    decreases |s|
  {
    if s == {} {
    } else {
      var least := Least(s);
      SortedContents(s - {least});
      var ks := Sorted(s);
      forall i, j | 0 <= i < j < |ks| ensures Less(ks[i], ks[j]) {
        assert ks[j] == ks[1..][j - 1] && ks[1..][j - 1] in s - {least};
        assert i > 0 ==> ks[i] == ks[1..][i - 1];
      }
    }
  }

  /** An iterator's run over the keys of a set: always the smallest one left. */
  method Iterate(s: set<bytes>) returns (ks: seq<bytes>)
    ensures ks == Sorted(s)
  {
    ks := [];
    var rest := s;
    while rest != {}
      invariant ks + Sorted(rest) == Sorted(s)
      decreases |rest|
    {
      ghost var least := LeastExists(rest);
      var k :| k in rest && forall k' :: k' in rest ==> k == k' || Less(k, k');
      LeastUnique(k, rest);
      assert ks + ([k] + Sorted(rest - {k})) == ks + [k] + Sorted(rest - {k});
      ks := ks + [k];
      rest := rest - {k};
    }
  }
}
