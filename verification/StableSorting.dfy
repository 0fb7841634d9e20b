// Sorting with a comparison given by the caller, on a sequence with holes.
module StableSorting {
  import opened Wrappers

  // What the caller's comparison may give back: a number, NaN, a value that is
  // no number, or an exception.
  datatype Compared = Number(n: int) | NaN | NoNumber | Thrown

  // An element, or none for a hole.
  type Cell<T> = Option<T>

  // The answers after which the source moves an element down.
  predicate Positive(c: Compared) { c.NaN? || (c.Number? && c.n > 0) }

  // a may stand before b; NaN is read as zero, as ECMA-262 6.0, section
  // 22.1.3.24.1 has it.
  predicate Before<T>(cmp: (T, T) -> Compared, a: T, b: T) {
    cmp(a, b).NaN? || (cmp(a, b).Number? && cmp(a, b).n <= 0)
  }

  predicate Equivalent<T>(cmp: (T, T) -> Compared, a: T, b: T) { Before(cmp, a, b) && Before(cmp, b, a) }

  // The comparison gives numbers or NaN, and orders all elements.
  ghost predicate Preorder<T(!new)>(cmp: (T, T) -> Compared) {
    && (forall a, b :: cmp(a, b).Number? || cmp(a, b).NaN?)
    && (forall a, b :: Before(cmp, a, b) || Before(cmp, b, a))
    && (forall a, b, c :: Before(cmp, a, b) && Before(cmp, b, c) ==> Before(cmp, a, c))
  }

  // No two different elements compare as NaN.
  ghost predicate Quiet<T(!new)>(cmp: (T, T) -> Compared) {
    forall a, b :: cmp(a, b).NaN? ==> a == b
  }

  // NaN for elements that are equivalent only.
  ghost predicate Fair<T(!new)>(cmp: (T, T) -> Compared) {
    forall a, b :: cmp(a, b).NaN? ==> Before(cmp, b, a)
  }

  // Elements in order, then holes.
  ghost predicate Sorted<T(!new)>(cmp: (T, T) -> Compared, s: seq<Cell<T>>) {
    forall i, j | 0 <= i < j < |s| :: InOrder(cmp, s[i], s[j])
  }

  predicate InOrder<T>(cmp: (T, T) -> Compared, a: Cell<T>, b: Cell<T>) {
    b.Some? ==> a.Some? && Before(cmp, a.value, b.value)
  }

  // The elements equivalent to x, in the order in which they stand.
  function Class<T>(cmp: (T, T) -> Compared, s: seq<Cell<T>>, x: T): seq<T> {
    if s == [] then []
    else Class(cmp, s[..|s| - 1], x) + Own(cmp, s[|s| - 1], x)
  }

  function Own<T>(cmp: (T, T) -> Compared, c: Cell<T>, x: T): seq<T> {
    if c.Some? && Equivalent(cmp, x, c.value) then [c.value] else []
  }

  ghost predicate SameClasses<T(!new)>(cmp: (T, T) -> Compared, s: seq<Cell<T>>, t: seq<Cell<T>>) {
    forall x :: Class(cmp, s, x) == Class(cmp, t, x)
  }

  lemma {:induction false} ClassConcat<T>(cmp: (T, T) -> Compared, s: seq<Cell<T>>, t: seq<Cell<T>>, x: T)
    ensures Class(cmp, s + t, x) == Class(cmp, s, x) + Class(cmp, t, x)
  {
    if t == [] {
      assert s + t == s;
    } else {
      var u := t[..|t| - 1];
      assert (s + t)[..|s + t| - 1] == s + u;
      ClassConcat(cmp, s, u, x);
    }
  }

  function Swapped<T>(s: seq<Cell<T>>, n: nat): (t: seq<Cell<T>>)
    requires 0 < n < |s|
    ensures |t| == |s| && t[n - 1] == s[n]
  {
    s[n - 1 := s[n]][n := s[n - 1]]
  }

  lemma SwappedParts<T>(s: seq<Cell<T>>, n: nat)
    requires 0 < n < |s|
    ensures s == s[..n - 1] + ([s[n - 1]] + [s[n]]) + s[n + 1..]
    ensures Swapped(s, n) == s[..n - 1] + ([s[n]] + [s[n - 1]]) + s[n + 1..]
  {
  }

  lemma ClassOne<T>(cmp: (T, T) -> Compared, c: Cell<T>, x: T)
    ensures Class(cmp, [c], x) == Own(cmp, c, x)
  {
    assert [c][..0] == [];
  }

  // Two neighbours that are not equivalent change places.
  lemma ClassSwapped<T>(cmp: (T, T) -> Compared, s: seq<Cell<T>>, n: nat, x: T)
    requires 0 < n < |s|
    requires s[n - 1].Some? && s[n].Some? ==> !(Equivalent(cmp, x, s[n - 1].value) && Equivalent(cmp, x, s[n].value))
    ensures Class(cmp, Swapped(s, n), x) == Class(cmp, s, x)
  {
    hide Swapped, Class;
    var l, r, a, b := s[..n - 1], s[n + 1..], [s[n - 1]], [s[n]];
    SwappedParts(s, n);
    ClassConcat(cmp, l + (a + b), r, x);
    ClassConcat(cmp, l + (b + a), r, x);
    ClassConcat(cmp, l, a + b, x);
    ClassConcat(cmp, l, b + a, x);
    ClassConcat(cmp, a, b, x);
    ClassConcat(cmp, b, a, x);
    ClassOne(cmp, s[n - 1], x);
    ClassOne(cmp, s[n], x);
  }

  lemma MultisetSwapped<T>(s: seq<Cell<T>>, n: nat)
    requires 0 < n < |s|
    ensures multiset(Swapped(s, n)) == multiset(s)
  {
  }

  // Two sorted arrangements with the same classes are the same: stability and
  // order leave no choice.
  lemma {:induction false} OnlyOne<T(!new)>(cmp: (T, T) -> Compared, s: seq<Cell<T>>, t: seq<Cell<T>>)
    requires Preorder(cmp) && Sorted(cmp, s) && Sorted(cmp, t) && multiset(s) == multiset(t) && SameClasses(cmp, s, t)
    ensures s == t
  {
    hide Preorder;
    assert |s| == |multiset(s)| && |t| == |multiset(t)|;
    if s != [] {
      var s0, t0 := s[..|s| - 1], t[..|t| - 1];
      SameLast(cmp, s, t);
      MultisetLast(s);
      MultisetLast(t);
      ClassesCut(cmp, s, t);
      OnlyOne(cmp, s0, t0);
      assert s == s0 + [s[|s| - 1]] && t == t0 + [t[|t| - 1]];
    }
  }

  lemma MultisetLast<T>(s: seq<Cell<T>>)
    requires s != []
    ensures multiset(s[..|s| - 1]) == multiset(s) - multiset{s[|s| - 1]}
  {
    assert s == s[..|s| - 1] + [s[|s| - 1]];
  }

  lemma ClassesCut<T(!new)>(cmp: (T, T) -> Compared, s: seq<Cell<T>>, t: seq<Cell<T>>)
    requires s != [] && |s| == |t| && s[|s| - 1] == t[|t| - 1] && SameClasses(cmp, s, t)
    ensures SameClasses(cmp, s[..|s| - 1], t[..|t| - 1])
  {
    var s0, t0 := s[..|s| - 1], t[..|t| - 1];
    forall x ensures Class(cmp, s0, x) == Class(cmp, t0, x) {
      assert Class(cmp, s, x) == Class(cmp, t, x);
      var own := Own(cmp, s[|s| - 1], x);
      assert Class(cmp, s, x) == Class(cmp, s0, x) + own && Class(cmp, t, x) == Class(cmp, t0, x) + own;
      SameBefore(Class(cmp, s0, x), Class(cmp, t0, x), own);
    }
  }

  lemma SameBefore<T>(a: seq<T>, b: seq<T>, c: seq<T>)
    requires a + c == b + c
    ensures a == b
  {
    assert |a| == |b|;
    assert a == (a + c)[..|a|] && b == (b + c)[..|b|];
  }

  lemma SameLast<T(!new)>(cmp: (T, T) -> Compared, s: seq<Cell<T>>, t: seq<Cell<T>>)
    requires Preorder(cmp) && Sorted(cmp, s) && Sorted(cmp, t) && multiset(s) == multiset(t) && s != [] && |s| == |t|
    requires SameClasses(cmp, s, t)
    ensures s[|s| - 1] == t[|t| - 1]
  {
    var n := |s| - 1;
    assert s[n] in multiset(t) && t[n] in multiset(s);
    var i :| 0 <= i < |t| && t[i] == s[n];
    var j :| 0 <= j < |s| && s[j] == t[n];
    assert i == n || InOrder(cmp, t[i], t[n]);
    assert j == n || InOrder(cmp, s[j], s[n]);
    if s[n].Some? {
      var x, y := s[n].value, t[n].value;
      assert Before(cmp, x, x) && Before(cmp, x, y) && Before(cmp, y, x);
      assert Class(cmp, s, x) == Class(cmp, t, x);
      assert Class(cmp, s, x) == Class(cmp, s[..n], x) + [x];
      assert Class(cmp, t, x) == Class(cmp, t[..n], x) + [y];
      assert (Class(cmp, s[..n], x) + [x])[|Class(cmp, s, x)| - 1] == x;
    }
  }

  // ----- what the algorithm makes of a sequence -----

  // The element at n moves down over holes and over the elements that it must
  // stand before; false if an answer is no number or an exception.
  function Lowered<T>(cmp: (T, T) -> Compared, s: seq<Cell<T>>, n: nat): (r: (seq<Cell<T>>, bool))
    requires n < |s|
    ensures |r.0| == |s|
    decreases n
  {
    if n == 0 || s[n].None? then (s, true)
    else if s[n - 1].None? then Lowered(cmp, Swapped(s, n), n - 1)
    else
      var r := cmp(s[n - 1].value, s[n].value);
      if r.NoNumber? || r.Thrown? then (s, false)
      else if Positive(r) then Lowered(cmp, Swapped(s, n), n - 1)
      else (s, true)
  }

  function SortedFrom<T>(cmp: (T, T) -> Compared, s: seq<Cell<T>>, current: nat): (r: (seq<Cell<T>>, bool))
    ensures |r.0| == |s|
    decreases |s| - current
  {
    if current >= |s| then (s, true)
    else
      var r := Lowered(cmp, s, current);
      if r.1 then SortedFrom(cmp, r.0, current + 1) else r
  }

  function SortOf<T>(cmp: (T, T) -> Compared, s: seq<Cell<T>>): (seq<Cell<T>>, bool) {
    SortedFrom(cmp, s, 1)
  }

  lemma {:induction false} LoweredArranged<T(!new)>(cmp: (T, T) -> Compared, was: seq<Cell<T>>, s: seq<Cell<T>>,
                                                    current: nat, n: nat)
    requires n <= current < |s| && Inserting(cmp, was, s, current, n) && (n < current ==> s[n].Some?)
    ensures var r := Lowered(cmp, s, n);
            && multiset(r.0) == multiset(was) && (r.1 ==> Arranged(cmp, was, r.0, current + 1))
            && (Preorder(cmp) ==> r.1)
    decreases n
  {
    hide Arranged, Inserting, Preorder;
    Inserted(cmp, was, s, current, n);
    if n > 0 && s[n].Some? {
      if s[n - 1].Some? {
        Numbers(cmp, s[n - 1].value, s[n].value);
      }
      if s[n - 1].None? || Positive(cmp(s[n - 1].value, s[n].value)) {
        SwapKeeps(cmp, was, s, current, n);
        LoweredArranged(cmp, was, Swapped(s, n), current, n - 1);
      }
    }
  }

  lemma {:induction false} SortedFromArranged<T(!new)>(cmp: (T, T) -> Compared, was: seq<Cell<T>>, s: seq<Cell<T>>,
                                                       current: nat)
    requires current <= |s| && Arranged(cmp, was, s, current)
    ensures var r := SortedFrom(cmp, s, current);
            && multiset(r.0) == multiset(was) && (r.1 ==> Arranged(cmp, was, r.0, |s|)) && (Preorder(cmp) ==> r.1)
    decreases |s| - current
  {
    hide Preorder;
    if current < |s| {
      StartInserting(cmp, was, s, current);
      LoweredArranged(cmp, was, s, current, current);
      var r := Lowered(cmp, s, current);
      if r.1 {
        SortedFromArranged(cmp, was, r.0, current + 1);
      }
    }
  }

  // The elements stay the same for any comparison; they are in order for one that
  // orders them, if NaN is for equivalent elements only, and equivalent ones keep
  // their order if NaN is for equal elements only.
  lemma SortOfSorts<T(!new)>(cmp: (T, T) -> Compared, s: seq<Cell<T>>)
    ensures multiset(SortOf(cmp, s).0) == multiset(s)
    ensures Preorder(cmp) ==> SortOf(cmp, s).1
    ensures Preorder(cmp) && Fair(cmp) ==> Sorted(cmp, SortOf(cmp, s).0)
    ensures Preorder(cmp) && Quiet(cmp) ==> Sorted(cmp, SortOf(cmp, s).0) && SameClasses(cmp, SortOf(cmp, s).0, s)
  {
    if s == [] {
      StartArranged(cmp, s, 0);
      EndArranged(cmp, s, s);
    } else {
      StartArranged(cmp, s, 1);
      SortedFromArranged(cmp, s, s, 1);
      if SortOf(cmp, s).1 {
        EndArranged(cmp, s, SortOf(cmp, s).0);
      }
    }
  }

  // Two elements that compare as NaN come back swapped.
  lemma NaNSwaps<T(!new)>(cmp: (T, T) -> Compared, x: T, y: T)
    requires cmp(x, y).NaN?
    ensures SortOf(cmp, [Some(x), Some(y)]) == ([Some(y), Some(x)], true)
  {
    var s, t: seq<Cell<T>> := [Some(x), Some(y)], [Some(y), Some(x)];
    assert Swapped(s, 1) == t;
    assert Lowered(cmp, t, 0) == (t, true);
    assert Lowered(cmp, s, 1) == (t, true);
    assert SortedFrom(cmp, t, 2) == (t, true);
  }

  // With a comparison that orders the elements when NaN is read as zero, every
  // sequence is sorted stably exactly when no two different elements compare as
  // NaN.  If NaN is for equivalent elements only, every sequence is sorted, and the
  // order of equivalent elements is kept exactly under the same condition.
  lemma StableExactly<T(!new)>(cmp: (T, T) -> Compared)
    requires Preorder(cmp)
    ensures (forall s :: Sorted(cmp, SortOf(cmp, s).0) && SameClasses(cmp, SortOf(cmp, s).0, s)) <==> Quiet(cmp)
    ensures Fair(cmp) ==> forall s :: Sorted(cmp, SortOf(cmp, s).0)
    ensures Fair(cmp) ==> ((forall s :: SameClasses(cmp, SortOf(cmp, s).0, s)) <==> Quiet(cmp))
  {
    hide Sorted, SameClasses, SortOf, Preorder;
    forall s: seq<Cell<T>>
      ensures Fair(cmp) ==> Sorted(cmp, SortOf(cmp, s).0)
      ensures Quiet(cmp) ==> Sorted(cmp, SortOf(cmp, s).0) && SameClasses(cmp, SortOf(cmp, s).0, s)
    {
      SortOfSorts(cmp, s);
    }
    if !Quiet(cmp) {
      var x, y :| cmp(x, y).NaN? && x != y;
      NaNUnstable(cmp, x, y);
    }
  }

  lemma NaNUnstable<T(!new)>(cmp: (T, T) -> Compared, x: T, y: T)
    requires Preorder(cmp) && cmp(x, y).NaN? && x != y
    ensures var s := [Some(x), Some(y)];
            if Before(cmp, y, x) then !SameClasses(cmp, SortOf(cmp, s).0, s) else !Sorted(cmp, SortOf(cmp, s).0)
  {
    var s, t: seq<Cell<T>> := [Some(x), Some(y)], [Some(y), Some(x)];
    NaNSwaps(cmp, x, y);
    if Before(cmp, y, x) {
      assert Equivalent(cmp, x, y) && Equivalent(cmp, x, x);
      ClassConcat(cmp, [Some(x)], [Some(y)], x);
      ClassConcat(cmp, [Some(y)], [Some(x)], x);
      ClassOne(cmp, Some(x), x);
      ClassOne(cmp, Some(y), x);
      assert s == [Some(x)] + [Some(y)] && t == [Some(y)] + [Some(x)];
      assert Class(cmp, s, x) == [x] + [y] && Class(cmp, t, x) == [y] + [x];
      assert Class(cmp, s, x)[0] == x && Class(cmp, t, x)[0] == y;
    } else {
      assert !InOrder(cmp, t[0], t[1]);
    }
  }

  // In place, by insertion.  sorted says whether the comparison gave numbers
  // throughout; without that the elements are still the same.
  method Sort<T(!new)>(a: array<Cell<T>>, start: nat, length: nat, cmp: (T, T) -> Compared) returns (sorted: bool)
    requires start + length <= a.Length
    modifies a
    ensures a[..start] == old(a[..start]) && a[start + length..] == old(a[start + length..])
    ensures (a[start..start + length], sorted) == SortOf(cmp, old(a[start..start + length]))
    ensures multiset(a[start..start + length]) == multiset(old(a[start..start + length]))
    ensures Preorder(cmp) && Quiet(cmp) ==>
              && sorted && Sorted(cmp, a[start..start + length])
              && SameClasses(cmp, a[start..start + length], old(a[start..start + length]))
  {
    hide Preorder, Quiet, Fair, Sorted, SameClasses, Lowered;
    ghost var was := a[start..start + length];
    SortOfSorts(cmp, was);
    if length == 0 {
      return true;
    }
    var current := 1;
    while current < length
      invariant 1 <= current <= length
      invariant a[..start] == old(a[..start]) && a[start + length..] == old(a[start + length..])
      invariant SortedFrom(cmp, a[start..start + length], current) == SortOf(cmp, was)
    {
      var ok := Insert(a, start, length, current, cmp);
      if !ok {
        return false;
      }
      current := current + 1;
    }
    return true;
  }

  method Insert<T>(a: array<Cell<T>>, start: nat, length: nat, current: nat, cmp: (T, T) -> Compared) returns (ok: bool)
    requires start + length <= a.Length && 0 < current < length
    modifies a
    ensures a[..start] == old(a[..start]) && a[start + length..] == old(a[start + length..])
    ensures (a[start..start + length], ok) == Lowered(cmp, old(a[start..start + length]), current)
  {
    hide Swapped;
    ghost var was := a[start..start + length];
    var n := current;
    while n > 0 && a[start + n].Some?
      invariant 0 <= n <= current
      invariant a[..start] == old(a[..start]) && a[start + length..] == old(a[start + length..])
      invariant Lowered(cmp, a[start..start + length], n) == Lowered(cmp, was, current)
    {
      ghost var s := a[start..start + length];
      assert s[n] == a[start + n] && s[n - 1] == a[start + n - 1];
      if a[start + n - 1].Some? {
        var r := cmp(a[start + n - 1].value, a[start + n].value);
        if r.NoNumber? || r.Thrown? {
          return false;
        }
        if !Positive(r) {
          break;
        }
      }
      Swap(a, start, length, n);
      n := n - 1;
    }
    assert n == 0 || a[start..start + length][n] == a[start + n];
    return true;
  }

  method Swap<T>(a: array<Cell<T>>, start: nat, length: nat, n: nat)
    requires start + length <= a.Length && 0 < n < length
    modifies a
    ensures a[..start] == old(a[..start]) && a[start + length..] == old(a[start + length..])
    ensures a[start..start + length] == Swapped(old(a[start..start + length]), n)
  {
    var value := a[start + n];
    a[start + n] := a[start + n - 1];
    a[start + n - 1] := value;
  }

  lemma Numbers<T(!new)>(cmp: (T, T) -> Compared, a: T, b: T)
    ensures Preorder(cmp) ==> cmp(a, b).Number? || cmp(a, b).NaN?
  {
  }

  lemma StartArranged<T(!new)>(cmp: (T, T) -> Compared, was: seq<Cell<T>>, n: nat)
    requires n <= 1 && n <= |was|
    ensures Arranged(cmp, was, was, n)
  {
  }

  lemma EndArranged<T(!new)>(cmp: (T, T) -> Compared, was: seq<Cell<T>>, s: seq<Cell<T>>)
    requires Arranged(cmp, was, s, |s|)
    ensures multiset(s) == multiset(was)
    ensures Preorder(cmp) && (Fair(cmp) || Quiet(cmp)) ==> Sorted(cmp, s)
    ensures Preorder(cmp) && Quiet(cmp) ==> SameClasses(cmp, s, was)
  {
    assert s[..|s|] == s;
  }

  lemma StartInserting<T(!new)>(cmp: (T, T) -> Compared, was: seq<Cell<T>>, s: seq<Cell<T>>, current: nat)
    requires current < |s| && Arranged(cmp, was, s, current)
    ensures Inserting(cmp, was, s, current, current)
  {
    assert s[..current] + s[current + 1..current + 1] == s[..current];
  }

  // The first elements are arranged.
  ghost predicate Arranged<T(!new)>(cmp: (T, T) -> Compared, was: seq<Cell<T>>, s: seq<Cell<T>>, current: nat)
    requires current <= |s|
  {
    && multiset(s) == multiset(was)
    && (Preorder(cmp) && (Fair(cmp) || Quiet(cmp)) ==> Sorted(cmp, s[..current]))
    && (Preorder(cmp) && Quiet(cmp) ==> SameClasses(cmp, s, was))
  }

  // All up to current but the element at n are arranged, and those after n
  // belong there.
  ghost predicate Inserting<T(!new)>(cmp: (T, T) -> Compared, was: seq<Cell<T>>, s: seq<Cell<T>>, current: nat, n: nat)
    requires n <= current < |s|
  {
    && multiset(s) == multiset(was)
    && (Preorder(cmp) && (Fair(cmp) || Quiet(cmp)) ==>
          && Sorted(cmp, s[..n] + s[n + 1..current + 1])
          && (forall k | n < k <= current :: InOrder(cmp, s[n], s[k])))
    && (Preorder(cmp) && Quiet(cmp) ==> SameClasses(cmp, s, was))
  }

  lemma SwapKeeps<T(!new)>(cmp: (T, T) -> Compared, was: seq<Cell<T>>, s: seq<Cell<T>>, current: nat, n: nat)
    requires 0 < n <= current < |s| && Inserting(cmp, was, s, current, n)
    requires s[n].Some? && (s[n - 1].Some? ==> Positive(cmp(s[n - 1].value, s[n].value)))
    ensures Inserting(cmp, was, Swapped(s, n), current, n - 1)
  {
    var t := Swapped(s, n);
    MultisetSwapped(s, n);
    if Preorder(cmp) && (Fair(cmp) || Quiet(cmp)) {
      assert t[..n - 1] + t[n..current + 1] == s[..n] + s[n + 1..current + 1];
    }
    if Preorder(cmp) && Quiet(cmp) {
      if s[n - 1] == s[n] {
        assert t == s;
      } else {
        forall x ensures Class(cmp, t, x) == Class(cmp, was, x) {
          ClassSwapped(cmp, s, n, x);
        }
      }
    }
  }

  // The element at n has come to its place.
  lemma Inserted<T(!new)>(cmp: (T, T) -> Compared, was: seq<Cell<T>>, s: seq<Cell<T>>, current: nat, n: nat)
    requires n <= current < |s| && Inserting(cmp, was, s, current, n)
    ensures multiset(s) == multiset(was)
    ensures (s[n].None? ==> n == current)
            && (n > 0 && s[n].Some? ==> s[n - 1].Some? && Before(cmp, s[n - 1].value, s[n].value))
            ==> Arranged(cmp, was, s, current + 1)
  {
    if Preorder(cmp) && (Fair(cmp) || Quiet(cmp)) && (s[n].None? ==> n == current)
       && (n > 0 && s[n].Some? ==> s[n - 1].Some? && Before(cmp, s[n - 1].value, s[n].value)) {
      var rest := s[..n] + s[n + 1..current + 1];
      forall i, j | 0 <= i < j <= current ensures InOrder(cmp, s[i], s[j]) {
        assert i < n ==> rest[i] == s[i];
        assert j < n ==> rest[j] == s[j];
        assert i > n ==> rest[i - 1] == s[i];
        assert j > n ==> rest[j - 1] == s[j];
        assert 0 < n ==> rest[n - 1] == s[n - 1];
      }
    }
  }
}
