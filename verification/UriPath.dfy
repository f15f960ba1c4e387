/**
 Data model paths: an array of IDs that ends at the first invalid ID, whatever follows it.

 The comparison, the containment test and the normal-form test are index loops with early
 return; each is proved against what a path means, its IDs up to the terminator.
 */
module UriPath {
  import opened Ids

  /** The raw array. Its size is fixed at four in the original; nothing here depends on that. */
  type Path = seq<Id>

  /** The path an array stands for: the IDs before the first invalid one. */
  ghost function Meaning(p: Path): (m: seq<Id>)
    ensures m <= p && ID_INVALID !in m
    ensures |m| < |p| ==> p[|m|] == ID_INVALID
  {
    if p == [] || p[0] == ID_INVALID then [] else [p[0]] + Meaning(p[1..])
  }

  /** The length and the early exits fix the meaning. */
  lemma MeaningIsPrefix(p: Path, n: nat)
    requires n <= |p|
    requires forall i :: 0 <= i < n ==> p[i] != ID_INVALID
    requires n < |p| ==> p[n] == ID_INVALID
    ensures Meaning(p) == p[..n]
  {
    var m := Meaning(p);
    assert forall i :: 0 <= i < |m| ==> p[i] == m[i] && m[i] in m;
  }

  method Length(p: Path) returns (n: nat)
    ensures n == |Meaning(p)|
  {
    n := 0;
    while n < |p|
      invariant n <= |p|
      invariant forall i :: 0 <= i < n ==> p[i] != ID_INVALID
    {
      if p[n] == ID_INVALID {
        break;
      }
      n := n + 1;
    }
    MeaningIsPrefix(p, n);
  }

  /**
   The order on paths: the first differing ID decides; a proper prefix comes after every path it
   contains, because the terminator is the greatest ID.
   */
  ghost predicate Before(a: seq<Id>, b: seq<Id>)
  {
    exists k: nat :: Diverge(a, b, k)
  }

  ghost predicate Diverge(a: seq<Id>, b: seq<Id>, k: nat)
  {
    && k < |a| && k <= |b|
    && a[..k] == b[..k]
    && (k < |b| ==> a[k] < b[k])
  }

  method Compare(left: Path, right: Path) returns (r: int)
    requires |left| == |right|
    ensures r == -1 || r == 0 || r == 1
    ensures r == 0 <==> Meaning(left) == Meaning(right)
    ensures r == -1 <==> Before(Meaning(left), Meaning(right))
    ensures r == 1 <==> Before(Meaning(right), Meaning(left))
  {
    var ml, mr := Meaning(left), Meaning(right);
    for i := 0 to |left|
      invariant i <= |ml| && i <= |mr|
      invariant left[..i] == right[..i]
    {
      assert ml[..i] == left[..i] && mr[..i] == right[..i];
      if left[i] < right[i] {
        Decided(ml, mr, i);
        return -1;
      } else if left[i] > right[i] {
        Decided(mr, ml, i);
        return 1;
      } else if left[i] == ID_INVALID {
        assert |ml| == i == |mr|;
        BeforeIsIrreflexive(ml);
        return 0;
      }
    }
    assert ml == left && mr == right;
    BeforeIsIrreflexive(ml);
    return 0;
  }

  /** Both IDs differ at `k` and `a`'s is smaller (or `b` ends there): `a` comes first, and only `a`. */
  lemma Decided(a: seq<Id>, b: seq<Id>, k: nat)
    requires Diverge(a, b, k)
    ensures Before(a, b) && !Before(b, a) && a != b
  {
    forall j: nat
      ensures !Diverge(b, a, j)
    {
      if j < k {
        assert a[j] == a[..k][j] && b[j] == b[..k][j];
      } else if k < j < |b| && j <= |a| {
        assert a[k] == a[..j][k] && b[k] == b[..j][k];
      }
    }
  }

  lemma BeforeIsIrreflexive(a: seq<Id>)
    ensures !Before(a, a)
  {}

  /** The order is total: exactly one of before, equal, after. */
  lemma {:induction false} BeforeIsTotal(a: seq<Id>, b: seq<Id>)
    ensures Before(a, b) || Before(b, a) || a == b
    ensures !(Before(a, b) && Before(b, a))
    ensures a == b ==> !Before(a, b)
  {
    if Before(a, b) {
      var k: nat :| Diverge(a, b, k);
      Decided(a, b, k);
    } else {
      FirstDifference(a, b, 0);
    }
  }

  lemma {:induction false} FirstDifference(a: seq<Id>, b: seq<Id>, k: nat)
    requires k <= |a| && k <= |b| && a[..k] == b[..k]
    ensures Before(a, b) || Before(b, a) || a == b
    decreases |a| - k
  {
    if k < |a| && (k == |b| || a[k] < b[k]) {
      assert Diverge(a, b, k);
    } else if k < |b| && (k == |a| || b[k] < a[k]) {
      assert Diverge(b, a, k);
    } else if k == |a| {
      assert a == b;
    } else {
      assert a[..k + 1] == a[..k] + [a[k]] && b[..k + 1] == b[..k] + [b[k]];
      FirstDifference(a, b, k + 1);
    }
  }

  lemma BeforeIsTransitive(a: seq<Id>, b: seq<Id>, c: seq<Id>)
    requires Before(a, b) && Before(b, c)
    ensures Before(a, c)
  {
    var j: nat :| Diverge(a, b, j);
    var k: nat :| Diverge(b, c, k);
    var m := if j < k then j else k;
    assert a[..m] == a[..j][..m] == b[..j][..m] == b[..m];
    assert b[..m] == b[..k][..m] == c[..k][..m] == c[..m];
    if j < k {
      assert b[j] == b[..k][j] == c[..k][j] == c[j];
    }
    if k < j {
      assert a[k] == a[..j][k] == b[..j][k] == b[k];
    }
    assert Diverge(a, c, m);
  }

  /** Outside the base means exactly: the base is not a prefix. */
  method OutsideBase(path: Path, base: Path) returns (outside: bool)
    requires |path| == |base|
    ensures outside <==> !(Meaning(base) <= Meaning(path))
  {
    var mp, mb := Meaning(path), Meaning(base);
    for i := 0 to |base|
      invariant i <= |mb| && i <= |mp|
      invariant path[..i] == base[..i]
    {
      assert mp[..i] == path[..i] && mb[..i] == base[..i];
      if base[i] == ID_INVALID {
        assert |mb| == i;
        assert mb == mb[..i];
        return false;
      } else if path[i] != base[i] {
        assert i < |mb| && mb[i] == base[i];
        assert i < |mp| ==> mp[i] == path[i];
        return true;
      }
    }
    return false;
  }

  /**
   What lies inside a base is one contiguous stretch of the order, and the base itself is the last
   path of that stretch: anything between two inside paths is inside, and every other inside path
   comes before the base.
   */
  lemma InsideIsIntervalEndingAtBase(base: seq<Id>, low: seq<Id>, mid: seq<Id>, high: seq<Id>)
    requires base <= low && base <= high
    requires !Before(mid, low) && !Before(high, mid)
    ensures base <= mid
    ensures low != base ==> Before(low, base)
    ensures !Before(base, low)
  {
    if low != base {
      assert low[..|base|] == base[..|base|];
      assert Diverge(low, base, |base|);
      Decided(low, base, |base|);
    } else {
      BeforeIsIrreflexive(base);
    }
    if !(base <= mid) {
      BeforeIsTotal(mid, base);
      if Before(mid, base) {
        LeavesTheBase(mid, base, low);
      } else {
        LeavesTheBaseUpwards(mid, base, high);
      }
    }
  }

  lemma LeavesTheBase(mid: seq<Id>, base: seq<Id>, low: seq<Id>)
    requires base <= low && Before(mid, base)
    ensures base <= mid || Before(mid, low)
  {
    var k: nat :| Diverge(mid, base, k);
    if k == |base| {
      assert base == mid[..k];
    } else {
      assert mid[..k] == base[..k] == low[..k];
      assert Diverge(mid, low, k);
    }
  }

  lemma LeavesTheBaseUpwards(mid: seq<Id>, base: seq<Id>, high: seq<Id>)
    requires base <= high && Before(base, mid)
    ensures Before(high, mid)
  {
    var k: nat :| Diverge(base, mid, k);
    assert high[..k] == base[..k] == mid[..k];
    assert Diverge(high, mid, k);
  }

  /** Nothing but terminators after the path. */
  ghost predicate IsNormal(p: Path)
  {
    forall i :: |Meaning(p)| <= i < |p| ==> p[i] == ID_INVALID
  }

  method Normalized(p: Path) returns (normal: bool)
    ensures normal <==> IsNormal(p)
  {
    var n := Length(p);
    var i := n + 1;
    while i < |p|
      invariant i <= |p| || i == n + 1
      invariant forall j :: n + 1 <= j < i && j < |p| ==> p[j] == ID_INVALID
    {
      if p[i] != ID_INVALID {
        return false;
      }
      i := i + 1;
    }
    return true;
  }

  /** On normalised arrays of one size, equality of paths is equality of arrays. */
  lemma NormalFormIsUnique(a: Path, b: Path)
    requires |a| == |b| && IsNormal(a) && IsNormal(b)
    ensures Meaning(a) == Meaning(b) <==> a == b
  {
    if Meaning(a) == Meaning(b) {
      var m := |Meaning(a)|;
      assert a[..m] == b[..m];
      assert forall i :: 0 <= i < |a| ==> a[i] == if i < m then a[..m][i] else ID_INVALID;
      assert forall i :: 0 <= i < |b| ==> b[i] == if i < m then b[..m][i] else ID_INVALID;
    }
  }
}
