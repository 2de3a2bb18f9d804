/** Strict orders, the lexicographic order on strings, and sorted sequences. */
module Orders {

  ghost predicate Irreflexive<T(!new)>(less: (T, T) -> bool) {
    forall x :: !less(x, x)
  }

  ghost predicate Transitive<T(!new)>(less: (T, T) -> bool) {
    forall x, y, z :: less(x, y) && less(y, z) ==> less(x, z)
  }

  ghost predicate Connected<T(!new)>(less: (T, T) -> bool) {
    forall x, y :: x == y || less(x, y) || less(y, x)
  }

  ghost predicate StrictTotal<T(!new)>(less: (T, T) -> bool) {
    Irreflexive(less) && Transitive(less) && Connected(less)
  }

  predicate LexLess<T(==)>(less: (T, T) -> bool, a: seq<T>, b: seq<T>)
    decreases |a|
  {
    b != [] && (a == [] || less(a[0], b[0]) || (a[0] == b[0] && LexLess(less, a[1..], b[1..])))
  }

  predicate CharLess(a: char, b: char) {
    a < b
  }

  /** Rust's `Ord` on `str`: byte order, which for UTF-8 is code point order. */
  predicate TextLess(a: string, b: string) {
    LexLess(CharLess, a, b)
  }

  /** Rust's `Ord` on relative paths: component by component. */
  predicate PathLess(a: seq<string>, b: seq<string>) {
    LexLess(TextLess, a, b)
  }

  lemma {:induction false} LexIrreflexive<T(!new)>(less: (T, T) -> bool, a: seq<T>)
    requires Irreflexive(less)
    ensures !LexLess(less, a, a)
  {
    if a != [] {
      LexIrreflexive(less, a[1..]);
    }
  }

  lemma {:induction false} LexTransitive<T(!new)>(less: (T, T) -> bool, a: seq<T>, b: seq<T>, c: seq<T>)
    requires Transitive(less)
    requires LexLess(less, a, b) && LexLess(less, b, c)
    ensures LexLess(less, a, c)
  {
    if a != [] && a[0] == b[0] == c[0] && !less(a[0], b[0]) && !less(b[0], c[0]) {
      LexTransitive(less, a[1..], b[1..], c[1..]);
    }
  }

  lemma {:induction false} LexConnected<T(!new)>(less: (T, T) -> bool, a: seq<T>, b: seq<T>)
    requires Connected(less)
    ensures a == b || LexLess(less, a, b) || LexLess(less, b, a)
  {
    if a != [] && b != [] && a[0] == b[0] {
      LexConnected(less, a[1..], b[1..]);
      assert a == [a[0]] + a[1..] && b == [b[0]] + b[1..];
    }
  }

  lemma TextStrictTotal()
    ensures StrictTotal(TextLess)
  {
    forall a: string ensures !TextLess(a, a) { LexIrreflexive(CharLess, a); }
    forall a: string, b: string, c: string | TextLess(a, b) && TextLess(b, c)
      ensures TextLess(a, c)
    {
      LexTransitive(CharLess, a, b, c);
    }
    forall a: string, b: string ensures a == b || TextLess(a, b) || TextLess(b, a) {
      LexConnected(CharLess, a, b);
    }
  }

  lemma PathStrictTotal()
    ensures StrictTotal(PathLess)
  {
    TextStrictTotal();
    forall a: seq<string> ensures !PathLess(a, a) { LexIrreflexive(TextLess, a); }
    forall a: seq<string>, b: seq<string>, c: seq<string> | PathLess(a, b) && PathLess(b, c)
      ensures PathLess(a, c)
    {
      LexTransitive(TextLess, a, b, c);
    }
    forall a: seq<string>, b: seq<string> ensures a == b || PathLess(a, b) || PathLess(b, a) {
      LexConnected(TextLess, a, b);
    }
  }

  /** The first place where two sequences differ, and which of them is less there. */
  predicate DiffersAt<T(==)>(less: (T, T) -> bool, a: seq<T>, b: seq<T>, i: nat) {
    i < |a| && i < |b| && a[..i] == b[..i] && less(a[i], b[i])
  }

  lemma DiffersLater<T(!new)>(less: (T, T) -> bool, a: seq<T>, b: seq<T>, i: nat)
    requires a != [] && b != [] && a[0] == b[0]
    ensures DiffersAt(less, a, b, i + 1) <==> DiffersAt(less, a[1..], b[1..], i)
  {
    if i < |a[1..]| && i < |b[1..]| {
      assert a[..i + 1] == [a[0]] + a[1..][..i] && b[..i + 1] == [b[0]] + b[1..][..i];
      assert a[1..][..i] == a[..i + 1][1..] && b[1..][..i] == b[..i + 1][1..];
    }
  }

  lemma DiffersFirst<T(!new)>(less: (T, T) -> bool, a: seq<T>, b: seq<T>, i: nat)
    requires DiffersAt(less, a, b, i)
    ensures i == 0 ==> less(a[0], b[0])
    ensures i > 0 ==> a[0] == b[0]
  {
    assert i > 0 ==> a[..i][0] == b[..i][0];
  }

  lemma {:induction false} LexIff<T(!new)>(less: (T, T) -> bool, a: seq<T>, b: seq<T>)
    ensures LexLess(less, a, b) <==> a < b || exists i: nat :: DiffersAt(less, a, b, i)
  {
    if a != [] && b != [] {
      if less(a[0], b[0]) {
        assert DiffersAt(less, a, b, 0);
      } else if a[0] == b[0] {
        LexIff(less, a[1..], b[1..]);
        hide DiffersAt, LexLess;
        assert a == [a[0]] + a[1..] && b == [b[0]] + b[1..];
        forall i: nat ensures DiffersAt(less, a, b, i + 1) <==> DiffersAt(less, a[1..], b[1..], i) {
          DiffersLater(less, a, b, i);
        }
        forall i: nat | DiffersAt(less, a, b, i) ensures i > 0 && DiffersAt(less, a[1..], b[1..], i - 1) {
          DiffersFirst(less, a, b, i);
          DiffersLater(less, a, b, if i > 0 then i - 1 else 0);
        }
      } else {
        forall i: nat | DiffersAt(less, a, b, i) ensures false {
          DiffersFirst(less, a, b, i);
        }
      }
    }
  }

  /** Text is ordered by code points and paths by their components, prefixes first. */
  lemma OrdersTell(a: string, b: string, p: seq<string>, q: seq<string>)
    ensures TextLess(a, b) <==>
      a < b || exists i: nat :: i < |a| && i < |b| && a[..i] == b[..i] && a[i] as int < b[i] as int
    ensures PathLess(p, q) <==>
      p < q || exists i: nat :: i < |p| && i < |q| && p[..i] == q[..i] && TextLess(p[i], q[i])
  {
    hide LexLess;
    LexIff(CharLess, a, b);
    LexIff(TextLess, p, q);
    if i: nat :| DiffersAt(CharLess, a, b, i) {
      assert i < |a| && i < |b| && a[..i] == b[..i] && a[i] as int < b[i] as int;
    }
    if i: nat :| i < |a| && i < |b| && a[..i] == b[..i] && a[i] as int < b[i] as int {
      assert DiffersAt(CharLess, a, b, i);
    }
    if i: nat :| DiffersAt(TextLess, p, q, i) {
      assert i < |p| && i < |q| && p[..i] == q[..i] && TextLess(p[i], q[i]);
    }
    if i: nat :| i < |p| && i < |q| && p[..i] == q[..i] && TextLess(p[i], q[i]) {
      assert DiffersAt(TextLess, p, q, i);
    }
  }

  lemma TakeSnoc<T>(s: seq<T>, i: nat)
    requires i < |s|
    ensures s[..i + 1] == s[..i] + [s[i]]
  {
  }

  predicate Increasing<T>(less: (T, T) -> bool, s: seq<T>) {
    forall i, j | 0 <= i < j < |s| :: less(s[i], s[j])
  }

  /** Two strictly increasing sequences with the same elements are the same sequence. */
  lemma {:induction false} IncreasingUnique<T(!new)>(less: (T, T) -> bool, a: seq<T>, b: seq<T>)
    requires Irreflexive(less) && Transitive(less)
    requires Increasing(less, a) && Increasing(less, b)
    requires forall x :: x in a <==> x in b
    ensures a == b
  {
    assert a != [] ==> a[0] in a;
    assert b != [] ==> b[0] in b;
    if a != [] {
      assert a[0] in b && b != [];
      assert b[0] in a;
      var i :| 0 <= i < |a| && a[i] == b[0];
      var j :| 0 <= j < |b| && b[j] == a[0];
      assert a[0] == b[0];
      forall x ensures x in a[1..] <==> x in b[1..] {
        if x in a[1..] { TailMember(less, a, b, x); }
        if x in b[1..] { TailMember(less, b, a, x); }
      }
      IncreasingUnique(less, a[1..], b[1..]);
      assert a == [a[0]] + a[1..] && b == [b[0]] + b[1..];
    }
  }

  lemma TailMember<T(!new)>(less: (T, T) -> bool, a: seq<T>, b: seq<T>, x: T)
    requires Irreflexive(less) && Increasing(less, a)
    requires a != [] && b != [] && a[0] == b[0] && x in a[1..] && x in b
    ensures x in b[1..]
  {
    var i :| 0 <= i < |a[1..]| && a[1..][i] == x;
    assert a[i + 1] == x;
    assert less(a[0], a[i + 1]);
    var j :| 0 <= j < |b| && b[j] == x;
    assert j > 0;
    assert b[1..][j - 1] == x;
  }

  lemma {:induction false} FindLeast<T(!new)>(less: (T, T) -> bool, s: set<T>) returns (m: T)
    requires StrictTotal(less) && s != {}
    ensures m in s && forall y | y in s :: y == m || less(m, y)
  {
    var x :| x in s;
    var rest := s - {x};
    assert forall y | y in s :: y == x || y in rest;
    m := x;
    if rest != {} {
      var r := FindLeast(less, rest);
      if !less(x, r) {
        assert x == r || less(x, r) || less(r, x);
        m := r;
      }
    }
  }

  lemma LeastExists<T(!new)>(less: (T, T) -> bool, s: set<T>)
    requires StrictTotal(less) && s != {}
    ensures exists m :: m in s && forall y | y in s :: y == m || less(m, y)
  {
    var m := FindLeast(less, s);
  }

  /** The least element of a non-empty set (the first key of a BTreeMap). */
  function Least<T(==, !new)>(less: (T, T) -> bool, s: set<T>): (m: T)
    requires StrictTotal(less) && s != {}
    ensures m in s && forall y | y in s :: y == m || less(m, y)
  {
    LeastExists(less, s);
    var m :| m in s && forall y | y in s :: y == m || less(m, y);
    m
  }

  /** The elements of a set in increasing order (the iteration order of a BTreeSet or BTreeMap). */
  function InOrder<T(==, !new)>(less: (T, T) -> bool, s: set<T>): (r: seq<T>)
    requires StrictTotal(less)
    ensures Increasing(less, r)
    ensures forall x :: x in r <==> x in s
    ensures |r| == |s|
    decreases s
  {
    if s == {} then [] else
      var m := Least(less, s);
      [m] + InOrder(less, s - {m})
  }

  /** Insertion before the first element that must come later; with `Sort`, a stable sort. */
  function Insert<T>(less: (T, T) -> bool, x: T, s: seq<T>): (r: seq<T>)
    ensures multiset(r) == multiset{x} + multiset(s)
  {
    if s == [] || !less(s[0], x) then [x] + s
    else
      assert s == [s[0]] + s[1..];
      [s[0]] + Insert(less, x, s[1..])
  }

  /** The library's stable sort. */
  function Sort<T>(less: (T, T) -> bool, s: seq<T>): (r: seq<T>)
    ensures multiset(r) == multiset(s)
  {
    if s == [] then [] else
      assert s == [s[0]] + s[1..];
      Insert(less, s[0], Sort(less, s[1..]))
  }

  lemma SameMembers<T>(r: seq<T>, s: seq<T>)
    requires multiset(r) == multiset(s)
    ensures forall x :: x in r <==> x in s
    ensures |r| == |s|
  {
    forall x ensures x in r <==> x in s {
      assert x in r <==> x in multiset(r);
      assert x in s <==> x in multiset(s);
    }
    assert |multiset(r)| == |r| && |multiset(s)| == |s|;
  }

  ghost predicate Comparable<T>(less: (T, T) -> bool, s: seq<T>) {
    forall i, j | 0 <= i < |s| && 0 <= j < |s| && i != j :: less(s[i], s[j]) || less(s[j], s[i])
  }

  lemma IncreasingCons<T(!new)>(less: (T, T) -> bool, x: T, s: seq<T>)
    requires Increasing(less, s) && forall y | y in s :: less(x, y)
    ensures Increasing(less, [x] + s)
  {
  }

  lemma FirstBelowInserted<T(!new)>(less: (T, T) -> bool, x: T, s: seq<T>)
    requires s != [] && less(s[0], x) && Increasing(less, s)
    ensures forall y | y in Insert(less, x, s[1..]) :: less(s[0], y)
  {
    var tail := Insert(less, x, s[1..]);
    hide Insert;
    forall y | y in tail ensures less(s[0], y) {
      assert y in multiset(tail);
      if y != x {
        var i :| 1 <= i < |s| && s[i] == y;
      }
    }
  }

  lemma {:induction false} InsertIncreasing<T(!new)>(less: (T, T) -> bool, x: T, s: seq<T>)
    requires Transitive(less) && Increasing(less, s)
    requires forall y | y in s :: less(x, y) || less(y, x)
    ensures Increasing(less, Insert(less, x, s))
  {
    if s != [] && less(s[0], x) {
      assert forall y | y in s[1..] :: y in s;
      InsertIncreasing(less, x, s[1..]);
      var tail := Insert(less, x, s[1..]);
      FirstBelowInserted(less, x, s);
      IncreasingCons(less, s[0], tail);
    } else if s != [] {
      forall y | y in s ensures less(x, y) {
        var i :| 0 <= i < |s| && s[i] == y;
        assert s[0] in s;
      }
    }
  }

  /** Sorting pairwise comparable elements gives a strictly increasing sequence. */
  lemma {:induction false} SortIncreasing<T(!new)>(less: (T, T) -> bool, s: seq<T>)
    requires Transitive(less) && Comparable(less, s)
    ensures Increasing(less, Sort(less, s))
  {
    if s != [] {
      assert Comparable(less, s[1..]) by {
        forall i, j | 0 <= i < |s[1..]| && 0 <= j < |s[1..]| && i != j
          ensures less(s[1..][i], s[1..][j]) || less(s[1..][j], s[1..][i])
        {
          assert s[1..][i] == s[i + 1] && s[1..][j] == s[j + 1];
        }
      }
      SortIncreasing(less, s[1..]);
      var r := Sort(less, s[1..]);
      SameMembers(r, s[1..]);
      forall y | y in r ensures less(s[0], y) || less(y, s[0]) {
        assert y in s[1..];
        var i :| 0 <= i < |s[1..]| && s[1..][i] == y;
        assert s[i + 1] == y;
      }
      InsertIncreasing(less, s[0], r);
    }
  }

  /** Sorting changes nothing when the elements already increase. */
  lemma {:induction false} SortOfIncreasing<T(!new)>(less: (T, T) -> bool, s: seq<T>)
    requires Irreflexive(less) && Transitive(less) && Increasing(less, s)
    ensures Sort(less, s) == s
  {
    if s != [] {
      SortOfIncreasing(less, s[1..]);
      if |s| > 1 {
        assert less(s[0], s[1]);
      }
    }
  }

  lemma {:induction false} LexAfterPrefix<T(!new)>(
    less: (T, T) -> bool, prefix: seq<T>, x: T, xs: seq<T>, y: T, ys: seq<T>)
    requires less(x, y)
    ensures LexLess(less, prefix + [x] + xs, prefix + [y] + ys)
  {
    if prefix != [] {
      LexAfterPrefix(less, prefix[1..], x, xs, y, ys);
      assert (prefix + [x] + xs)[1..] == prefix[1..] + [x] + xs;
      assert (prefix + [y] + ys)[1..] == prefix[1..] + [y] + ys;
    }
  }

  // ---- Permutations ----

  function Mapped<A, B>(f: A -> B, s: seq<A>): seq<B> {
    seq(|s|, i requires 0 <= i < |s| => f(s[i]))
  }

  function Without<T>(s: seq<T>, k: nat): seq<T>
    requires k < |s|
  {
    s[..k] + s[k + 1..]
  }

  lemma WithoutOne<T>(s: seq<T>, k: nat)
    requires k < |s|
    ensures multiset(s) == multiset(Without(s, k)) + multiset{s[k]}
  {
    assert s == s[..k] + [s[k]] + s[k + 1..];
  }

  lemma MappedWithout<A, B>(f: A -> B, s: seq<A>, k: nat)
    requires k < |s|
    ensures Mapped(f, Without(s, k)) == Without(Mapped(f, s), k)
  {
  }

  /** Reordering the arguments reorders the values. */
  lemma {:induction false} MappedPermuted<A, B>(f: A -> B, a: seq<A>, b: seq<A>)
    requires multiset(a) == multiset(b)
    ensures multiset(Mapped(f, a)) == multiset(Mapped(f, b))
    decreases |a|
  {
    hide Mapped, Without;
    SameMembers(a, b);
    MappedAt(f, a);
    MappedAt(f, b);
    if a != [] {
      assert a[0] in b;
      var k :| 0 <= k < |b| && b[k] == a[0];
      WithoutSame(a, 0, b, k);
      WithoutLength(a, 0);
      MappedPermuted(f, Without(a, 0), Without(b, k));
      WithoutOne(Mapped(f, a), 0);
      WithoutOne(Mapped(f, b), k);
      MappedWithout(f, a, 0);
      MappedWithout(f, b, k);
    } else {
      assert Mapped(f, a) == Mapped(f, b);
    }
  }

  lemma WithoutLength<T>(s: seq<T>, k: nat)
    requires k < |s|
    ensures |Without(s, k)| == |s| - 1
  {
  }

  lemma MappedAt<A, B>(f: A -> B, s: seq<A>)
    ensures |Mapped(f, s)| == |s| && forall i | 0 <= i < |s| :: Mapped(f, s)[i] == f(s[i])
  {
  }

  lemma {:induction false} TwoOccurrences<T>(s: seq<T>, x: T) returns (i: nat, j: nat)
    requires multiset(s)[x] >= 2
    ensures i < j < |s| && s[i] == s[j] == x
  {
    assert s == [s[0]] + s[1..];
    if s[0] == x {
      assert x in multiset(s[1..]);
      var k :| 0 <= k < |s[1..]| && s[1..][k] == x;
      i, j := 0, k + 1;
    } else {
      i, j := TwoOccurrences(s[1..], x);
      i, j := i + 1, j + 1;
    }
  }

  lemma DistinctCount<T>(s: seq<T>, i: nat, j: nat)
    requires i < j < |s| && s[i] == s[j]
    ensures multiset(s)[s[i]] >= 2
  {
    assert s == s[..j] + s[j..];
    assert s[..j][i] in s[..j];
    assert s[j..][0] in s[j..];
  }

  ghost predicate Distinct<T>(s: seq<T>) {
    forall i, j | 0 <= i < j < |s| :: s[i] != s[j]
  }

  lemma DistinctPermuted<T>(a: seq<T>, b: seq<T>)
    requires multiset(a) == multiset(b) && Distinct(a)
    ensures Distinct(b)
  {
    forall i, j | 0 <= i < j < |b| ensures b[i] != b[j] {
      if b[i] == b[j] {
        DistinctCount(b, i, j);
        var k, l := TwoOccurrences(a, b[i]);
      }
    }
  }

  /** Taking one and the same element from two orders leaves two orders. */
  lemma WithoutSame<T>(a: seq<T>, i: nat, b: seq<T>, j: nat)
    requires multiset(a) == multiset(b) && i < |a| && j < |b| && a[i] == b[j]
    ensures multiset(Without(a, i)) == multiset(Without(b, j))
  {
    hide Without;
    WithoutOne(a, i);
    WithoutOne(b, j);
    assert multiset(Without(a, i)) == multiset(a) - multiset{a[i]};
    assert multiset(Without(b, j)) == multiset(b) - multiset{b[j]};
  }

  /** Every order of the values is the values of some order of the arguments. */
  lemma {:induction false} LiftOrder<A, B>(f: A -> B, s: seq<A>, values: seq<B>) returns (order: seq<A>)
    requires multiset(values) == multiset(Mapped(f, s))
    ensures multiset(order) == multiset(s) && Mapped(f, order) == values
    decreases |values|
  {
    hide Mapped, Without;
    SameMembers(values, Mapped(f, s));
    MappedAt(f, s);
    if values == [] {
      order := [];
      MappedAt(f, order);
    } else {
      assert values[0] in Mapped(f, s);
      var k :| 0 <= k < |s| && Mapped(f, s)[k] == values[0];
      WithoutSame(values, 0, Mapped(f, s), k);
      WithoutLength(values, 0);
      MappedWithout(f, s, k);
      var rest := LiftOrder(f, Without(s, k), Without(values, 0));
      order := [s[k]] + rest;
      OrderLifted(f, s, k, values, rest);
    }
  }

  lemma OrderLifted<A, B>(f: A -> B, s: seq<A>, k: nat, values: seq<B>, rest: seq<A>)
    requires k < |s| && values != [] && f(s[k]) == values[0]
    requires multiset(rest) == multiset(Without(s, k)) && Mapped(f, rest) == Without(values, 0)
    ensures multiset([s[k]] + rest) == multiset(s) && Mapped(f, [s[k]] + rest) == values
  {
    hide Mapped, Without;
    FirstAndRest(values);
    MappedCons(f, s[k], rest);
    WithoutOne(s, k);
    assert multiset([s[k]] + rest) == multiset{s[k]} + multiset(rest);
  }

  lemma FirstAndRest<T>(s: seq<T>)
    requires s != []
    ensures s == [s[0]] + Without(s, 0)
  {
  }

  lemma MappedCons<A, B>(f: A -> B, x: A, s: seq<A>)
    ensures Mapped(f, [x] + s) == [f(x)] + Mapped(f, s)
  {
  }
}
