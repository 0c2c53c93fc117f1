/** Comparators, lexicographic order and the stable sort (`sort_by`) and first
    minimum (`min_by_key`) that every deterministic pick in the crate rests on. */
module Order {
  import opened Machine

  datatype Ordering = Less | Equal | Greater {
    function Flip(): Ordering {
      match this case Less => Greater case Equal => Equal case Greater => Less
    }

    function Then(next: Ordering): Ordering {
      if this == Equal then next else this
    }
  }

  function CmpNat(a: nat, b: nat): Ordering {
    if a < b then Less else if a == b then Equal else Greater
  }

  function CmpChar(a: char, b: char): Ordering {
    if a < b then Less else if a == b then Equal else Greater
  }

  /** Lexicographic order, a proper prefix first: Rust's `Ord` on slices. */
  function CmpLex<T>(cmp: (T, T) -> Ordering, a: seq<T>, b: seq<T>): Ordering {
    if a == [] && b == [] then Equal
    else if a == [] then Less
    else if b == [] then Greater
    else cmp(a[0], b[0]).Then(CmpLex(cmp, a[1..], b[1..]))
  }

  function CmpByte(a: byte, b: byte): Ordering {
    CmpNat(a, b)
  }

  function CmpU64(a: u64, b: u64): Ordering {
    CmpNat(a, b)
  }

  function CmpBytes(a: seq<byte>, b: seq<byte>): Ordering {
    CmpLex(CmpByte, a, b)
  }

  function CmpString(a: string, b: string): Ordering {
    CmpLex(CmpChar, a, b)
  }

  ghost predicate TotalPreorder<T(!new)>(cmp: (T, T) -> Ordering) {
    && (forall a, b :: cmp(a, b) == cmp(b, a).Flip())
    && (forall a, b, c :: cmp(a, b) != Greater && cmp(b, c) != Greater ==> cmp(a, c) != Greater)
  }

  ghost predicate TotalOrder<T(!new)>(cmp: (T, T) -> Ordering) {
    && TotalPreorder(cmp)
    && (forall a, b :: cmp(a, b) == Equal ==> a == b)
  }

  lemma {:induction false} LexAntisymmetric<T(!new)>(cmp: (T, T) -> Ordering, a: seq<T>, b: seq<T>)
    requires TotalOrder(cmp)
    ensures CmpLex(cmp, a, b) == CmpLex(cmp, b, a).Flip()
    ensures CmpLex(cmp, a, b) == Equal <==> a == b
  {
    if a != [] && b != [] {
      LexAntisymmetric(cmp, a[1..], b[1..]);
      assert cmp(a[0], b[0]) == cmp(b[0], a[0]).Flip();
      assert a == [a[0]] + a[1..] && b == [b[0]] + b[1..];
      if a == b {
        assert cmp(a[0], a[0]) == cmp(a[0], a[0]).Flip();
      }
    }
  }

  lemma {:induction false} LexTransitive<T(!new)>(cmp: (T, T) -> Ordering, a: seq<T>, b: seq<T>, c: seq<T>)
    requires TotalOrder(cmp)
    requires CmpLex(cmp, a, b) != Greater && CmpLex(cmp, b, c) != Greater
    ensures CmpLex(cmp, a, c) != Greater
  {
    if a != [] && b != [] && c != [] {
      assert cmp(a[0], b[0]) != Greater && cmp(b[0], c[0]) != Greater;
      assert cmp(a[0], c[0]) != Greater;
      if cmp(a[0], c[0]) == Equal {
        assert a[0] == c[0] && cmp(c[0], a[0]) == Equal;
        assert cmp(a[0], b[0]) == cmp(b[0], a[0]).Flip();
        assert cmp(b[0], a[0]) != Greater;
        assert cmp(a[0], b[0]) == Equal;
        LexTransitive(cmp, a[1..], b[1..], c[1..]);
      }
    }
  }

  lemma LexTotal<T(!new)>(cmp: (T, T) -> Ordering)
    requires TotalOrder(cmp)
    ensures forall a, b {:trigger CmpLex(cmp, a, b)} ::
              CmpLex(cmp, a, b) == CmpLex(cmp, b, a).Flip() && (CmpLex(cmp, a, b) == Equal <==> a == b)
    ensures forall a, b, c {:trigger CmpLex(cmp, a, b), CmpLex(cmp, b, c)} ::
              CmpLex(cmp, a, b) != Greater && CmpLex(cmp, b, c) != Greater ==> CmpLex(cmp, a, c) != Greater
  {
    forall a, b
      ensures CmpLex(cmp, a, b) == CmpLex(cmp, b, a).Flip() && (CmpLex(cmp, a, b) == Equal <==> a == b)
    {
      LexAntisymmetric(cmp, a, b);
    }
    forall a, b, c | CmpLex(cmp, a, b) != Greater && CmpLex(cmp, b, c) != Greater
      ensures CmpLex(cmp, a, c) != Greater
    {
      LexTransitive(cmp, a, b, c);
    }
  }

  lemma BytesTotal()
    ensures TotalOrder(CmpBytes)
  {
    LexTotal(CmpByte);
  }

  lemma StringTotal()
    ensures TotalOrder(CmpString)
  {
    LexTotal(CmpChar);
  }

  // ---- what the order is ---------------------------------------------------

  /** `a` and `b` agree up to `n`, where `a` ends or has the smaller element. */
  ghost predicate SmallerAt<T(!new)>(cmp: (T, T) -> Ordering, a: seq<T>, b: seq<T>, n: nat) {
    && n <= |a| && n < |b| && a[..n] == b[..n]
    && (n == |a| || cmp(a[n], b[n]) == Less)
  }

  lemma {:induction false} LexLessIff<T(!new)>(cmp: (T, T) -> Ordering, a: seq<T>, b: seq<T>)
    requires TotalOrder(cmp)
    ensures CmpLex(cmp, a, b) == Less <==> exists n: nat :: SmallerAt(cmp, a, b, n)
  {
    if a == [] && b != [] {
      assert SmallerAt(cmp, a, b, 0);
    } else if a != [] && b != [] {
      LexLessIff(cmp, a[1..], b[1..]);
      assert cmp(a[0], b[0]) == cmp(b[0], a[0]).Flip();
      if a[0] == b[0] {
        assert cmp(a[0], a[0]) == cmp(a[0], a[0]).Flip();
        forall n: nat ensures SmallerAt(cmp, a[1..], b[1..], n) <==> SmallerAt(cmp, a, b, n + 1) {
          SmallerTail(cmp, a, b, n);
        }
        assert forall n: nat :: SmallerAt(cmp, a, b, n) ==> n > 0 && SmallerAt(cmp, a[1..], b[1..], n - 1);
      } else {
        forall n: nat | SmallerAt(cmp, a, b, n) ensures n == 0 || a[0] == b[0] {
          SameFirst(cmp, a, b, n);
        }
        assert cmp(a[0], b[0]) == Less ==> SmallerAt(cmp, a, b, 0);
      }
    }
  }

  lemma SameFirst<T(!new)>(cmp: (T, T) -> Ordering, a: seq<T>, b: seq<T>, n: nat)
    requires a != [] && b != [] && SmallerAt(cmp, a, b, n)
    ensures n == 0 || a[0] == b[0]
  {
    assert n > 0 ==> a[..n][0] == a[0] && b[..n][0] == b[0];
  }

  lemma SmallerTail<T(!new)>(cmp: (T, T) -> Ordering, a: seq<T>, b: seq<T>, n: nat)
    requires a != [] && b != [] && a[0] == b[0]
    ensures SmallerAt(cmp, a[1..], b[1..], n) <==> SmallerAt(cmp, a, b, n + 1)
  {
    if n < |a| && n < |b| {
      assert a[..n + 1] == [a[0]] + a[1..][..n] && b[..n + 1] == [b[0]] + b[1..][..n];
      assert a[..n + 1][1..] == a[1..][..n] && b[..n + 1][1..] == b[1..][..n];
    }
  }

  /** Byte strings in memory order: smaller at the first byte that differs, a proper prefix
      first. */
  ghost predicate BytesBefore(a: seq<byte>, b: seq<byte>) {
    exists n: nat :: n <= |a| && n < |b| && a[..n] == b[..n] && (n == |a| || a[n] < b[n])
  }

  lemma BytesBeforeIff(a: seq<byte>, b: seq<byte>)
    ensures CmpBytes(a, b) == Less <==> BytesBefore(a, b)
    ensures CmpBytes(a, b) == Greater <==> BytesBefore(b, a)
  {
    LexLessIff(CmpByte, a, b);
    LexLessIff(CmpByte, b, a);
    LexAntisymmetric(CmpByte, a, b);
    assert forall n: nat :: SmallerAt(CmpByte, a, b, n) <==>
      n <= |a| && n < |b| && a[..n] == b[..n] && (n == |a| || a[n] < b[n]);
    assert forall n: nat :: SmallerAt(CmpByte, b, a, n) <==>
      n <= |b| && n < |a| && b[..n] == a[..n] && (n == |b| || b[n] < a[n]);
  }

  /** Texts by the code of the first character that differs, a proper prefix first. */
  ghost predicate TextBefore(a: string, b: string) {
    exists n: nat :: n <= |a| && n < |b| && a[..n] == b[..n] && (n == |a| || a[n] < b[n])
  }

  lemma TextBeforeIff(a: string, b: string)
    ensures CmpString(a, b) == Less <==> TextBefore(a, b)
    ensures CmpString(a, b) == Greater <==> TextBefore(b, a)
  {
    LexLessIff(CmpChar, a, b);
    LexLessIff(CmpChar, b, a);
    LexAntisymmetric(CmpChar, a, b);
    assert forall n: nat :: SmallerAt(CmpChar, a, b, n) <==>
      n <= |a| && n < |b| && a[..n] == b[..n] && (n == |a| || a[n] < b[n]);
    assert forall n: nat :: SmallerAt(CmpChar, b, a, n) <==>
      n <= |b| && n < |a| && b[..n] == a[..n] && (n == |b| || b[n] < a[n]);
  }

  /** On equal-length heads, comparing concatenations is comparing heads, then tails. */
  lemma {:induction false} BytesConcat(a: seq<byte>, b: seq<byte>, c: seq<byte>, d: seq<byte>)
    requires |a| == |b|
    ensures CmpBytes(a + c, b + d) == CmpBytes(a, b).Then(CmpBytes(c, d))
  {
    if a == [] {
      assert a + c == c && b + d == d;
    } else {
      assert (a + c)[1..] == a[1..] + c && (b + d)[1..] == b[1..] + d;
      BytesConcat(a[1..], b[1..], c, d);
    }
  }

  // ---- stable sort -------------------------------------------------------

  /** `x` goes after every element that is not greater than it. */
  function Insert<T>(s: seq<T>, x: T, cmp: (T, T) -> Ordering): (r: seq<T>)
    ensures |r| == |s| + 1
  {
    if s == [] || cmp(s[|s| - 1], x) != Greater then s + [x]
    else Insert(s[..|s| - 1], x, cmp) + [s[|s| - 1]]
  }

  /** The result of Rust's stable `sort_by`, as a function of its input. */
  function StableSort<T>(s: seq<T>, cmp: (T, T) -> Ordering): (r: seq<T>)
    ensures |r| == |s|
  {
    if s == [] then [] else Insert(StableSort(s[..|s| - 1], cmp), s[|s| - 1], cmp)
  }

  ghost predicate SortedBy<T>(s: seq<T>, cmp: (T, T) -> Ordering) {
    forall i, j :: 0 <= i < j < |s| ==> cmp(s[i], s[j]) != Greater
  }

  lemma {:induction false} InsertElements<T(!new)>(s: seq<T>, x: T, cmp: (T, T) -> Ordering)
    ensures multiset(Insert(s, x, cmp)) == multiset(s) + multiset{x}
    ensures forall y :: y in Insert(s, x, cmp) <==> y in s || y == x
  {
    if s == [] || cmp(s[|s| - 1], x) != Greater {
    } else {
      InsertElements(s[..|s| - 1], x, cmp);
      assert s == s[..|s| - 1] + [s[|s| - 1]];
    }
  }

  lemma {:induction false} InsertSorted<T(!new)>(s: seq<T>, x: T, cmp: (T, T) -> Ordering)
    requires TotalPreorder(cmp) && SortedBy(s, cmp)
    ensures SortedBy(Insert(s, x, cmp), cmp)
  {
    if s != [] && cmp(s[|s| - 1], x) == Greater {
      var init, last := s[..|s| - 1], s[|s| - 1];
      InsertSorted(init, x, cmp);
      InsertElements(init, x, cmp);
      var r := Insert(init, x, cmp);
      assert cmp(x, last) == cmp(last, x).Flip();
      forall i | 0 <= i < |r| ensures cmp(r[i], last) != Greater {
        assert r[i] in r;
      }
    }
  }

  lemma {:induction false} SortSorted<T(!new)>(s: seq<T>, cmp: (T, T) -> Ordering)
    requires TotalPreorder(cmp)
    ensures SortedBy(StableSort(s, cmp), cmp)
    ensures multiset(StableSort(s, cmp)) == multiset(s)
  {
    if s != [] {
      SortSorted(s[..|s| - 1], cmp);
      InsertSorted(StableSort(s[..|s| - 1], cmp), s[|s| - 1], cmp);
      InsertElements(StableSort(s[..|s| - 1], cmp), s[|s| - 1], cmp);
      assert s == s[..|s| - 1] + [s[|s| - 1]];
    }
  }

  /** The elements of `s` that compare equal to `x`, in order. */
  ghost function Class<T>(s: seq<T>, x: T, cmp: (T, T) -> Ordering): seq<T> {
    if s == [] then []
    else Class(s[..|s| - 1], x, cmp) + (if cmp(s[|s| - 1], x) == Equal then [s[|s| - 1]] else [])
  }

  /** The first element of a class stands where its first member does. */
  lemma {:induction false} ClassFirst<T(!new)>(s: seq<T>, x: T, cmp: (T, T) -> Ordering) returns (k: nat)
    requires Class(s, x, cmp) != []
    ensures k < |s| && s[k] == Class(s, x, cmp)[0] && cmp(s[k], x) == Equal
    ensures forall i :: 0 <= i < k ==> cmp(s[i], x) != Equal
  {
    if Class(s[..|s| - 1], x, cmp) != [] {
      k := ClassFirst(s[..|s| - 1], x, cmp);
    } else {
      k := |s| - 1;
      forall i | 0 <= i < k ensures cmp(s[i], x) != Equal {
        InClass(s[..|s| - 1], x, i, cmp);
      }
    }
  }

  lemma {:induction false} InClass<T(!new)>(s: seq<T>, x: T, i: nat, cmp: (T, T) -> Ordering)
    requires i < |s|
    ensures cmp(s[i], x) == Equal ==> Class(s, x, cmp) != []
  {
    if i < |s| - 1 {
      InClass(s[..|s| - 1], x, i, cmp);
    }
  }

  lemma {:induction false} InsertStable<T(!new)>(s: seq<T>, x: T, y: T, cmp: (T, T) -> Ordering)
    requires TotalPreorder(cmp) && SortedBy(s, cmp)
    ensures Class(Insert(s, x, cmp), y, cmp) == Class(s, y, cmp) + (if cmp(x, y) == Equal then [x] else [])
  {
    var r := Insert(s, x, cmp);
    if s == [] || cmp(s[|s| - 1], x) != Greater {
      assert r[..|r| - 1] == s;
    } else {
      var init, last := s[..|s| - 1], s[|s| - 1];
      assert r[..|r| - 1] == Insert(init, x, cmp);
      InsertStable(init, x, y, cmp);
      assert cmp(x, y) == Equal && cmp(last, y) == Equal ==> false by {
        assert cmp(y, x) == cmp(x, y).Flip();
      }
    }
  }

  /** Stability: elements that compare equal keep their input order. */
  lemma {:induction false} SortStable<T(!new)>(s: seq<T>, y: T, cmp: (T, T) -> Ordering)
    requires TotalPreorder(cmp)
    ensures Class(StableSort(s, cmp), y, cmp) == Class(s, y, cmp)
  {
    if s != [] {
      SortSorted(s[..|s| - 1], cmp);
      SortStable(s[..|s| - 1], y, cmp);
      InsertStable(StableSort(s[..|s| - 1], cmp), s[|s| - 1], y, cmp);
    }
  }

  lemma {:induction false} ClassMember<T(!new)>(s: seq<T>, x: T, y: T, cmp: (T, T) -> Ordering)
    requires x in Class(s, y, cmp)
    ensures x in s && cmp(x, y) == Equal
  {
    if x in Class(s[..|s| - 1], y, cmp) {
      ClassMember(s[..|s| - 1], x, y, cmp);
    }
  }

  /** The last element of a sorted sequence is not below the last of another with the same
      classes. */
  lemma {:induction false} LastNotBelow<T(!new)>(s: seq<T>, t: seq<T>, cmp: (T, T) -> Ordering)
    requires TotalPreorder(cmp) && SortedBy(t, cmp) && s != []
    requires Class(s, s[|s| - 1], cmp) == Class(t, s[|s| - 1], cmp)
    ensures t != [] && cmp(s[|s| - 1], t[|t| - 1]) != Greater
  {
    var last := s[|s| - 1];
    assert cmp(last, last) == cmp(last, last).Flip();
    var c := Class(s, last, cmp);
    assert c[|c| - 1] == last;
    ClassMember(t, last, last, cmp);
    var i :| 0 <= i < |t| && t[i] == last;
    if i < |t| - 1 {
      assert cmp(t[i], t[|t| - 1]) != Greater;
    }
  }

  /** Both sequences list the elements of each class in the same order. */
  ghost predicate SameClassOrder<T(!new)>(s: seq<T>, t: seq<T>, cmp: (T, T) -> Ordering) {
    forall y :: Class(s, y, cmp) == Class(t, y, cmp)
  }

  lemma SameInit<T(!new)>(init: seq<T>, init': seq<T>, x: T, z: T, cmp: (T, T) -> Ordering)
    requires Class(init + [x], z, cmp) == Class(init' + [x], z, cmp)
    ensures Class(init, z, cmp) == Class(init', z, cmp)
  {
    var (s, t) := (init + [x], init' + [x]);
    assert s[..|s| - 1] == init && t[..|t| - 1] == init';
    var (a, b) := (Class(init, z, cmp), Class(init', z, cmp));
    if cmp(x, z) == Equal {
      assert (a + [x])[..|a|] == a && (b + [x])[..|b|] == b;
    }
  }

  lemma {:induction false} SameLast<T(!new)>(s: seq<T>, t: seq<T>, cmp: (T, T) -> Ordering)
    requires TotalPreorder(cmp) && SortedBy(s, cmp) && SortedBy(t, cmp) && s != []
    requires SameClassOrder(s, t, cmp)
    ensures t != [] && s[|s| - 1] == t[|t| - 1]
  {
    LastNotBelow(s, t, cmp);
    LastNotBelow(t, s, cmp);
    var (x, y) := (s[|s| - 1], t[|t| - 1]);
    assert cmp(x, x) == cmp(x, x).Flip() && cmp(y, x) == cmp(x, y).Flip();
    var c, d := Class(s, x, cmp), Class(t, x, cmp);
    assert c[|c| - 1] == x && d[|d| - 1] == y;
  }

  /** Sorted sequences with the same classes are equal. */
  lemma {:induction false} SameClasses<T(!new)>(s: seq<T>, t: seq<T>, cmp: (T, T) -> Ordering)
    requires TotalPreorder(cmp) && SortedBy(s, cmp) && SortedBy(t, cmp)
    requires SameClassOrder(s, t, cmp)
    ensures s == t
  {
    if s != [] {
      SameLast(s, t, cmp);
      var (init, init', x) := (s[..|s| - 1], t[..|t| - 1], s[|s| - 1]);
      assert s == init + [x] && t == init' + [x];
      forall z ensures Class(init, z, cmp) == Class(init', z, cmp) {
        SameInit(init, init', x, z, cmp);
      }
      SameClasses(init, init', cmp);
    } else if t != [] {
      LastNotBelow(t, s, cmp);
    }
  }

  lemma SortKeepsClasses<T(!new)>(s: seq<T>, cmp: (T, T) -> Ordering)
    requires TotalPreorder(cmp)
    ensures SameClassOrder(StableSort(s, cmp), s, cmp)
  {
    forall y ensures Class(StableSort(s, cmp), y, cmp) == Class(s, y, cmp) {
      SortStable(s, y, cmp);
    }
  }

  lemma ClassOrderTransitive<T(!new)>(a: seq<T>, b: seq<T>, c: seq<T>, cmp: (T, T) -> Ordering)
    requires SameClassOrder(a, b, cmp) && (SameClassOrder(b, c, cmp) || SameClassOrder(c, b, cmp))
    ensures SameClassOrder(a, c, cmp) && SameClassOrder(c, a, cmp)
  {
    forall y ensures Class(a, y, cmp) == Class(c, y, cmp) {
      assert Class(a, y, cmp) == Class(b, y, cmp);
    }
  }

  /** A stable sort keeps exactly the order inside each class. */
  lemma {:induction false} SameSortIff<T(!new)>(s: seq<T>, t: seq<T>, cmp: (T, T) -> Ordering)
    requires TotalPreorder(cmp)
    ensures StableSort(s, cmp) == StableSort(t, cmp) <==> SameClassOrder(s, t, cmp)
  {
    var (a, b) := (StableSort(s, cmp), StableSort(t, cmp));
    SortSorted(s, cmp);
    SortSorted(t, cmp);
    SortKeepsClasses(s, cmp);
    SortKeepsClasses(t, cmp);
    if a == b {
      ClassOrderTransitive(t, a, s, cmp);
    }
    if SameClassOrder(s, t, cmp) {
      ClassOrderTransitive(a, s, t, cmp);
      ClassOrderTransitive(a, t, b, cmp);
      SameClasses(a, b, cmp);
    }
  }

  // ---- first minimum -----------------------------------------------------

  /** The index of the first minimum: `min_by_key` over indices. */
  function FirstMin<T>(s: seq<T>, cmp: (T, T) -> Ordering): (k: nat)
    requires s != []
    ensures k < |s|
  {
    if |s| == 1 then 0
    else
      var k := FirstMin(s[..|s| - 1], cmp);
      if cmp(s[k], s[|s| - 1]) == Greater then |s| - 1 else k
  }

  ghost predicate IsFirstMin<T>(s: seq<T>, cmp: (T, T) -> Ordering, k: nat) {
    && k < |s|
    && (forall m :: 0 <= m < |s| ==> cmp(s[k], s[m]) != Greater)
    && (forall m :: 0 <= m < k ==> cmp(s[k], s[m]) == Less)
  }

  lemma {:induction false} FirstMinSpec<T(!new)>(s: seq<T>, cmp: (T, T) -> Ordering)
    requires TotalPreorder(cmp) && s != []
    ensures IsFirstMin(s, cmp, FirstMin(s, cmp))
  {
    if |s| == 1 {
      assert cmp(s[0], s[0]) == cmp(s[0], s[0]).Flip();
    } else {
      var init, last := s[..|s| - 1], s[|s| - 1];
      FirstMinSpec(init, cmp);
      var k := FirstMin(init, cmp);
      assert cmp(last, last) == cmp(last, last).Flip();
      assert cmp(s[k], last) == cmp(last, s[k]).Flip();
      if cmp(s[k], last) == Greater {
        forall m | 0 <= m < |init| ensures cmp(last, s[m]) == Less {
          assert cmp(init[k], init[m]) != Greater;
          assert cmp(last, s[m]) == cmp(s[m], last).Flip();
        }
      } else {
        forall m | 0 <= m < |s| ensures cmp(s[k], s[m]) != Greater {
          if m < |init| {
            assert s[m] == init[m];
          }
        }
      }
    }
  }

  lemma FirstMinUnique<T(!new)>(s: seq<T>, cmp: (T, T) -> Ordering, k: nat)
    requires TotalPreorder(cmp) && IsFirstMin(s, cmp, k)
    ensures FirstMin(s, cmp) == k
  {
    FirstMinSpec(s, cmp);
    var f := FirstMin(s, cmp);
    assert cmp(s[f], s[k]) == cmp(s[k], s[f]).Flip();
  }

  lemma {:induction false} InsertHead<T(!new)>(s: seq<T>, x: T, cmp: (T, T) -> Ordering)
    requires TotalPreorder(cmp) && SortedBy(s, cmp) && s != []
    ensures Insert(s, x, cmp)[0] == if cmp(s[0], x) == Greater then x else s[0]
  {
    if cmp(s[|s| - 1], x) == Greater && |s| > 1 {
      InsertHead(s[..|s| - 1], x, cmp);
    } else if |s| > 1 {
      assert cmp(s[0], s[|s| - 1]) != Greater;
    }
  }

  /** Sorting and taking the first element is taking the first minimum. */
  lemma {:induction false} SortHead<T(!new)>(s: seq<T>, cmp: (T, T) -> Ordering)
    requires TotalPreorder(cmp) && s != []
    ensures StableSort(s, cmp)[0] == s[FirstMin(s, cmp)]
  {
    if |s| == 1 {
      assert s[..0] == [];
    } else {
      SortHead(s[..|s| - 1], cmp);
      SortSorted(s[..|s| - 1], cmp);
      InsertHead(StableSort(s[..|s| - 1], cmp), s[|s| - 1], cmp);
    }
  }
}
