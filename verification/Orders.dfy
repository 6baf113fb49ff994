/** The dictionary order of sequences over any strict total order of their elements. */
module Orders {

  type Order<!T> = (T, T) -> bool

  ghost predicate StrictTotal<T(!new)>(lt: Order<T>) {
    && (forall x, y :: lt(x, y) || x == y || lt(y, x))
    && (forall x, y :: !(lt(x, y) && lt(y, x)))
    && (forall x, y, z :: lt(x, y) && lt(y, z) ==> lt(x, z))
  }

  predicate Precedes<T(==)>(lt: Order<T>, a: seq<T>, b: seq<T>) {
    b != [] && (a == [] || lt(a[0], b[0]) || (a[0] == b[0] && Precedes(lt, a[1..], b[1..])))
  }

  lemma {:induction false} PrecedesTotal<T(!new)>(lt: Order<T>, a: seq<T>, b: seq<T>)
    requires StrictTotal(lt)
    ensures Precedes(lt, a, b) || a == b || Precedes(lt, b, a)
    ensures !(Precedes(lt, a, b) && Precedes(lt, b, a)) && (Precedes(lt, a, b) ==> a != b)
  {
    if a != [] && b != [] {
      PrecedesTotal(lt, a[1..], b[1..]);
      assert a == [a[0]] + a[1..] && b == [b[0]] + b[1..];
    }
  }

  lemma {:induction false} PrecedesTransitive<T(!new)>(lt: Order<T>, a: seq<T>, b: seq<T>, c: seq<T>)
    requires StrictTotal(lt) && Precedes(lt, a, b) && Precedes(lt, b, c)
    ensures Precedes(lt, a, c)
  {
    if a != [] && a[0] == b[0] && b[0] == c[0] {
      PrecedesTransitive(lt, a[1..], b[1..], c[1..]);
    }
  }

  // The order place by place: the two agree up to some place where the first ends, or is below.
  lemma {:induction false} PrecedesPointwise<T(!new)>(lt: Order<T>, a: seq<T>, b: seq<T>)
    requires StrictTotal(lt)
    ensures Precedes(lt, a, b) <==>
      exists k :: 0 <= k <= |a| && k < |b| && a[..k] == b[..k] && (k == |a| || lt(a[k], b[k]))
  {
    if Precedes(lt, a, b) {
      var k := FirstDifference(lt, a, b);
      assert a[..k] == b[..k];
    }
    if k :| 0 <= k <= |a| && k < |b| && a[..k] == b[..k] && (k == |a| || lt(a[k], b[k])) {
      PrecedesFrom(lt, a, b, k);
    }
  }

  lemma {:induction false} FirstDifference<T(!new)>(lt: Order<T>, a: seq<T>, b: seq<T>) returns (k: nat)
    requires StrictTotal(lt) && Precedes(lt, a, b)
    ensures k <= |a| && k < |b| && a[..k] == b[..k] && (k == |a| || lt(a[k], b[k]))
  {
    if a == [] || lt(a[0], b[0]) {
      k := 0;
    } else {
      var m := FirstDifference(lt, a[1..], b[1..]);
      k := m + 1;
      assert a[..k] == [a[0]] + a[1..][..m] && b[..k] == [b[0]] + b[1..][..m];
    }
  }

  lemma {:induction false} PrecedesFrom<T(!new)>(lt: Order<T>, a: seq<T>, b: seq<T>, k: nat)
    requires StrictTotal(lt) && k <= |a| && k < |b| && a[..k] == b[..k] && (k == |a| || lt(a[k], b[k]))
    ensures Precedes(lt, a, b)
    decreases k
  {
    if k > 0 {
      assert a[0] == a[..k][0] == b[..k][0] == b[0];
      assert a[1..][..k - 1] == a[..k][1..] && b[1..][..k - 1] == b[..k][1..];
      PrecedesFrom(lt, a[1..], b[1..], k - 1);
    }
  }
}
