/**
 * Comparators and the stable sort that `Array.prototype.sort` promises.
 * A comparator is given as `le(x, y)`, true when JavaScript's `cmp(x, y) <= 0`.
 */
module Order {

  ghost predicate TotalPreorder<T(!new)>(le: (T, T) -> bool) {
    && (forall x, y :: le(x, y) || le(y, x))
    && (forall x, y, z :: le(x, y) && le(y, z) ==> le(x, z))
  }

  ghost predicate TotalOrder<T(!new)>(le: (T, T) -> bool) {
    && TotalPreorder(le)
    && (forall x, y :: le(x, y) && le(y, x) ==> x == y)
  }

  /** No element twice. */
  predicate Distinct<T(==)>(s: seq<T>) {
    forall i, j :: 0 <= i < j < |s| ==> s[i] != s[j]
  }

  ghost predicate Sorted<T>(le: (T, T) -> bool, s: seq<T>) {
    forall i, j :: 0 <= i < j < |s| ==> le(s[i], s[j])
  }

  lemma SortedConcat<T(!new)>(le: (T, T) -> bool, a: seq<T>, b: seq<T>)
    requires Sorted(le, a) && Sorted(le, b) && forall x, y :: x in a && y in b ==> le(x, y)
    ensures Sorted(le, a + b)
  {
    var s := a + b;
    forall i, j | 0 <= i < j < |s| ensures le(s[i], s[j]) {
      if i < |a| <= j {
        assert s[i] in a && s[j] in b;
      }
    }
  }

  /** Inserts `x` before the first element it may precede, so `x` stays ahead of its ties. */
  function Insert<T>(le: (T, T) -> bool, x: T, s: seq<T>): (r: seq<T>)
    ensures |r| == |s| + 1
  {
    if s == [] then [x]
    else if le(x, s[0]) then [x] + s
    else [s[0]] + Insert(le, x, s[1..])
  }

  /** The stable sort of `s`. */
  function Sort<T>(le: (T, T) -> bool, s: seq<T>): (r: seq<T>)
    ensures |r| == |s|
  {
    if s == [] then [] else Insert(le, s[0], Sort(le, s[1..]))
  }

  function Filter<T>(p: T -> bool, s: seq<T>): seq<T> {
    if s == [] then []
    else if p(s[0]) then [s[0]] + Filter(p, s[1..])
    else Filter(p, s[1..])
  }

  lemma FilterHead<T>(p: T -> bool, s: seq<T>)
    requires s != []
    ensures multiset(Filter(p, s)) == (if p(s[0]) then multiset{s[0]} else multiset{}) + multiset(Filter(p, s[1..]))
  {
  }

  lemma HeadElement<T>(s: seq<T>)
    requires s != []
    ensures multiset(s) == multiset{s[0]} + multiset(s[1..])
  {
    assert s == [s[0]] + s[1..];
  }

  lemma ThreeWaysStep<T>(p: T -> bool, q: T -> bool, r: T -> bool, s: seq<T>)
    requires s != []
    requires var x := s[0]; (p(x) && !q(x) && !r(x)) || (!p(x) && q(x) && !r(x)) || (!p(x) && !q(x) && r(x))
    ensures multiset(Filter(p, s)) + multiset(Filter(q, s)) + multiset(Filter(r, s)) ==
            multiset{s[0]} + (multiset(Filter(p, s[1..])) + multiset(Filter(q, s[1..])) + multiset(Filter(r, s[1..])))
  {
    FilterHead(p, s);
    FilterHead(q, s);
    FilterHead(r, s);
    AddToOneOf(multiset{s[0]}, multiset(Filter(p, s[1..])), multiset(Filter(q, s[1..])), multiset(Filter(r, s[1..])));
  }

  /** Three filters of which each element passes exactly one share the elements out. */
  lemma {:induction false} ThreeWays<T(!new)>(p: T -> bool, q: T -> bool, r: T -> bool, s: seq<T>)
    requires forall x :: (p(x) && !q(x) && !r(x)) || (!p(x) && q(x) && !r(x)) || (!p(x) && !q(x) && r(x))
    ensures multiset(Filter(p, s)) + multiset(Filter(q, s)) + multiset(Filter(r, s)) == multiset(s)
  {
    if s != [] {
      ThreeWays(p, q, r, s[1..]);
      ThreeWaysStep(p, q, r, s);
      HeadElement(s);
    }
  }

  lemma AddToOneOf<T>(x: multiset<T>, a: multiset<T>, b: multiset<T>, c: multiset<T>)
    ensures (x + a) + b + c == x + (a + b + c)
    ensures a + (x + b) + c == x + (a + b + c)
    ensures a + b + (x + c) == x + (a + b + c)
  {
  }

  lemma {:induction false} FilterElements<T(!new)>(p: T -> bool, s: seq<T>)
    ensures forall x :: x in Filter(p, s) <==> x in s && p(x)
  {
    if s != [] {
      FilterElements(p, s[1..]);
      assert s == [s[0]] + s[1..];
    }
  }

  lemma {:induction false} FilterConcat<T>(p: T -> bool, a: seq<T>, b: seq<T>)
    ensures Filter(p, a + b) == Filter(p, a) + Filter(p, b)
  {
    if a == [] {
      assert a + b == b;
    } else {
      FilterConcat(p, a[1..], b);
      assert (a + b)[1..] == a[1..] + b;
    }
  }

  lemma FilterAppend<T>(p: T -> bool, s: seq<T>, x: T)
    ensures Filter(p, s + [x]) == if p(x) then Filter(p, s) + [x] else Filter(p, s)
  {
    FilterConcat(p, s, [x]);
    assert Filter(p, [x]) == if p(x) then [x] else [];
    assert Filter(p, s) + [] == Filter(p, s);
  }

  lemma {:induction false} FilterAll<T(!new)>(p: T -> bool, s: seq<T>)
    requires forall x :: x in s ==> p(x)
    ensures Filter(p, s) == s
  {
    if s != [] {
      FilterAll(p, s[1..]);
    }
  }

  lemma {:induction false} FilterNone<T(!new)>(p: T -> bool, s: seq<T>)
    requires forall x :: x in s ==> !p(x)
    ensures Filter(p, s) == []
  {
    if s != [] {
      FilterNone(p, s[1..]);
    }
  }

  /** A weaker filter first changes nothing. */
  lemma {:induction false} FilterNested<T(!new)>(p: T -> bool, q: T -> bool, s: seq<T>)
    requires forall x :: p(x) ==> q(x)
    ensures Filter(p, Filter(q, s)) == Filter(p, s)
  {
    if s != [] {
      FilterNested(p, q, s[1..]);
      assert s == [s[0]] + s[1..];
    }
  }

  /** `x` stands somewhere before `y`. */
  ghost predicate Before<T>(s: seq<T>, x: T, y: T) {
    exists i, j :: 0 <= i < j < |s| && s[i] == x && s[j] == y
  }

  lemma BeforeInTail<T>(s: seq<T>, x: T, y: T)
    requires s != [] && Before(s[1..], x, y)
    ensures Before(s, x, y)
  {
    var i, j :| 0 <= i < j < |s[1..]| && s[1..][i] == x && s[1..][j] == y;
    assert s[i + 1] == x && s[j + 1] == y;
  }

  lemma {:induction false} FilterKeepsOrder<T(!new)>(p: T -> bool, s: seq<T>, i: nat, j: nat)
    requires i < j < |Filter(p, s)|
    ensures Before(s, Filter(p, s)[i], Filter(p, s)[j])
  {
    var rest := Filter(p, s[1..]);
    if !p(s[0]) {
      FilterKeepsOrder(p, s[1..], i, j);
      BeforeInTail(s, Filter(p, s)[i], Filter(p, s)[j]);
    } else if i > 0 {
      FilterKeepsOrder(p, s[1..], i - 1, j - 1);
      BeforeInTail(s, rest[i - 1], rest[j - 1]);
    } else {
      FilterElements(p, s[1..]);
      assert rest[j - 1] in rest;
      var k :| 0 <= k < |s[1..]| && s[1..][k] == rest[j - 1];
      assert s[0] == Filter(p, s)[0] && s[k + 1] == Filter(p, s)[j];
    }
  }

  lemma {:induction false} FilterAgree<T(!new)>(p: T -> bool, q: T -> bool, s: seq<T>)
    requires forall x :: x in s ==> p(x) == q(x)
    ensures Filter(p, s) == Filter(q, s)
  {
    if s != [] {
      FilterAgree(p, q, s[1..]);
    }
  }

  /** No element of `second` stands before one of `first`. */
  ghost predicate FirstsLead<T>(first: T -> bool, second: T -> bool, s: seq<T>) {
    forall i, j :: 0 <= i < j < |s| ==> !(second(s[i]) && first(s[j]))
  }

  lemma LeadStep<T(!new)>(first: T -> bool, second: T -> bool, s: seq<T>)
    requires s != []
    ensures FirstsLead(first, second, s) <==>
            FirstsLead(first, second, s[1..]) && (second(s[0]) ==> forall x :: x in s[1..] ==> !first(x))
  {
    if FirstsLead(first, second, s) {
      forall i, j | 0 <= i < j < |s[1..]| ensures !(second(s[1..][i]) && first(s[1..][j])) {
        assert s[1..][i] == s[i + 1] && s[1..][j] == s[j + 1];
      }
      forall x | x in s[1..] && second(s[0]) ensures !first(x) {
        var j :| 0 <= j < |s[1..]| && s[1..][j] == x;
        assert s[j + 1] == x;
      }
    } else {
      var i, j :| 0 <= i < j < |s| && second(s[i]) && first(s[j]);
      assert s[1..][j - 1] == s[j] && s[j] in s[1..];
      if i > 0 {
        assert s[1..][i - 1] == s[i];
      }
    }
  }

  /** Taking one class after the other keeps the order of `s` exactly when the classes already stand that way. */
  lemma {:induction false} FilterApartExactly<T(!new)>(first: T -> bool, second: T -> bool, either: T -> bool, s: seq<T>)
    requires forall x :: (either(x) <==> first(x) || second(x)) && !(first(x) && second(x))
    ensures Filter(first, s) + Filter(second, s) == Filter(either, s) <==> FirstsLead(first, second, s)
  {
    if s != [] {
      var x, rest := s[0], s[1..];
      var a, b, c := Filter(first, rest), Filter(second, rest), Filter(either, rest);
      FilterApartExactly(first, second, either, rest);
      LeadStep(first, second, s);
      if first(x) {
        assert ([x] + a) + b == [x] + (a + b);
        assert ([x] + (a + b))[1..] == a + b && ([x] + c)[1..] == c;
      } else if second(x) {
        FilterElements(first, rest);
        if y :| y in rest && first(y) {
          assert a != [] && a[0] in a;
          assert (a + ([x] + b))[0] == a[0] && ([x] + c)[0] == x;
        } else {
          FilterNone(first, rest);
          assert a + ([x] + b) == [x] + b;
          FilterAgree(second, either, rest);
        }
      }
    }
  }

  function Map<T, U>(f: T -> U, s: seq<T>): (r: seq<U>)
    ensures |r| == |s|
    ensures forall i :: 0 <= i < |s| ==> r[i] == f(s[i])
  {
    seq(|s|, i requires 0 <= i < |s| => f(s[i]))
  }

  /** `s` without the element at position `j`. */
  function Remove<T>(s: seq<T>, j: nat): (r: seq<T>)
    requires j < |s|
    ensures |r| == |s| - 1
  {
    s[..j] + s[j + 1..]
  }

  lemma RemoveElement<T>(s: seq<T>, j: nat)
    requires j < |s|
    ensures multiset(s) == multiset(Remove(s, j)) + multiset{s[j]}
  {
    assert s == s[..j] + [s[j]] + s[j + 1..];
  }

  /** Equal multisets stay equal when the same element leaves both sequences. */
  lemma RemoveFromBoth<T>(a: seq<T>, b: seq<T>) returns (j: nat)
    requires a != [] && multiset(a) == multiset(b)
    ensures j < |b| && b[j] == a[0]
    ensures multiset(a[1..]) == multiset(Remove(b, j))
  {
    assert a[0] in multiset(b);
    j :| 0 <= j < |b| && b[j] == a[0];
    RemoveElement(b, j);
    assert a == [a[0]] + a[1..];
    assert multiset(a[1..]) == multiset(a) - multiset{a[0]};
  }

  /** Mapping permuted sequences gives permuted sequences. */
  lemma {:induction false} MapPermutation<T, U>(f: T -> U, a: seq<T>, b: seq<T>)
    requires multiset(a) == multiset(b)
    ensures multiset(Map(f, a)) == multiset(Map(f, b))
    decreases |a|
  {
    assert |a| == |multiset(a)| == |multiset(b)| == |b|;
    if a == [] {
      assert Map(f, a) == Map(f, b);
    } else {
      var j := RemoveFromBoth(a, b);
      MapPermutation(f, a[1..], Remove(b, j));
      assert Map(f, a) == [f(a[0])] + Map(f, a[1..]);
      assert Map(f, Remove(b, j)) == Remove(Map(f, b), j);
      RemoveElement(Map(f, b), j);
    }
  }

  // ----- what the sort returns -----

  lemma {:induction false} InsertFilterSize<T>(le: (T, T) -> bool, p: T -> bool, x: T, s: seq<T>)
    ensures |Filter(p, Insert(le, x, s))| == |Filter(p, s)| + if p(x) then 1 else 0
  {
    if s == [] {
    } else if le(x, s[0]) {
      assert ([x] + s)[1..] == s;
    } else {
      InsertFilterSize(le, p, x, s[1..]);
      var t := Insert(le, x, s[1..]);
      assert ([s[0]] + t)[1..] == t;
    }
  }

  /** As many elements satisfy `p` after sorting as before. */
  lemma {:induction false} SortFilterSize<T>(le: (T, T) -> bool, p: T -> bool, s: seq<T>)
    ensures |Filter(p, Sort(le, s))| == |Filter(p, s)|
  {
    if s != [] {
      SortFilterSize(le, p, s[1..]);
      InsertFilterSize(le, p, s[0], Sort(le, s[1..]));
    }
  }

  lemma {:induction false} InsertElements<T(!new)>(le: (T, T) -> bool, x: T, s: seq<T>)
    ensures multiset(Insert(le, x, s)) == multiset{x} + multiset(s)
    ensures forall y :: y in Insert(le, x, s) <==> y == x || y in s
  {
    if s != [] && !le(x, s[0]) {
      InsertElements(le, x, s[1..]);
      assert s == [s[0]] + s[1..];
    }
  }

  lemma {:induction false} InsertSorted<T(!new)>(le: (T, T) -> bool, x: T, s: seq<T>)
    requires TotalPreorder(le) && Sorted(le, s)
    ensures Sorted(le, Insert(le, x, s))
  {
    if s == [] {
    } else if le(x, s[0]) {
      var r := [x] + s;
      forall i, j | 0 <= i < j < |r| ensures le(r[i], r[j]) {
        assert le(s[0], s[j - 1]);
      }
    } else {
      InsertSorted(le, x, s[1..]);
      InsertElements(le, x, s[1..]);
      var t := Insert(le, x, s[1..]);
      var r := [s[0]] + t;
      forall i, j | 0 <= i < j < |r| ensures le(r[i], r[j]) {
        assert r[j] == t[j - 1] && t[j - 1] in t;
      }
    }
  }

  lemma {:induction false} SortElements<T(!new)>(le: (T, T) -> bool, s: seq<T>)
    ensures multiset(Sort(le, s)) == multiset(s)
    ensures forall y :: y in Sort(le, s) <==> y in s
  {
    if s != [] {
      SortElements(le, s[1..]);
      InsertElements(le, s[0], Sort(le, s[1..]));
      assert s == [s[0]] + s[1..];
    }
  }

  lemma {:induction false} SortSorted<T(!new)>(le: (T, T) -> bool, s: seq<T>)
    requires TotalPreorder(le)
    ensures Sorted(le, Sort(le, s))
  {
    if s != [] {
      SortSorted(le, s[1..]);
      InsertSorted(le, s[0], Sort(le, s[1..]));
    }
  }

  /** Ties keep their input order: any class `tied` of mutually tied elements is left as it was. */
  lemma {:induction false} SortStable<T(!new)>(le: (T, T) -> bool, s: seq<T>, tied: T -> bool)
    requires forall x, y :: tied(x) && tied(y) ==> le(x, y)
    ensures Filter(tied, Sort(le, s)) == Filter(tied, s)
  {
    if s != [] {
      SortStable(le, s[1..], tied);
      InsertStable(le, s[0], Sort(le, s[1..]), tied);
    }
  }

  lemma {:induction false} InsertStable<T(!new)>(le: (T, T) -> bool, x: T, s: seq<T>, tied: T -> bool)
    requires forall x, y :: tied(x) && tied(y) ==> le(x, y)
    ensures Filter(tied, Insert(le, x, s)) == (if tied(x) then [x] else []) + Filter(tied, s)
  {
    if s == [] {
    } else if le(x, s[0]) {
      assert ([x] + s)[1..] == s;
    } else {
      InsertStable(le, x, s[1..], tied);
      var t := Insert(le, x, s[1..]);
      assert Insert(le, x, s) == [s[0]] + t && ([s[0]] + t)[1..] == t;
      assert tied(s[0]) ==> !tied(x);
    }
  }

  lemma SortedHeads<T(!new)>(le: (T, T) -> bool, a: seq<T>, b: seq<T>)
    requires TotalOrder(le) && Sorted(le, a) && Sorted(le, b)
    requires a != [] && b != [] && a[0] in b && b[0] in a
    ensures a[0] == b[0]
  {
    var i :| 0 <= i < |a| && a[i] == b[0];
    var j :| 0 <= j < |b| && b[j] == a[0];
    assert i == 0 || le(a[0], a[i]);
    assert j == 0 || le(b[0], b[j]);
  }

  lemma TailsAgree<T>(a: seq<T>, b: seq<T>)
    requires a != [] && b != [] && a[0] == b[0] && multiset(a) == multiset(b)
    ensures multiset(a[1..]) == multiset(b[1..])
  {
    HeadElement(a);
    HeadElement(b);
    assert multiset(a[1..]) == multiset(a) - multiset{a[0]};
    assert multiset(b[1..]) == multiset(b) - multiset{b[0]};
  }

  /** A sorted sequence is determined by its elements when ties are equal. */
  lemma {:induction false} SortedUnique<T(!new)>(le: (T, T) -> bool, a: seq<T>, b: seq<T>)
    requires TotalOrder(le) && Sorted(le, a) && Sorted(le, b)
    requires multiset(a) == multiset(b)
    ensures a == b
  {
    assert |a| == |multiset(a)| == |multiset(b)| == |b|;
    if a != [] {
      assert a[0] in multiset(b) && b[0] in multiset(a);
      SortedHeads(le, a, b);
      TailsAgree(a, b);
      SortedUnique(le, a[1..], b[1..]);
      assert a == [a[0]] + a[1..] && b == [b[0]] + b[1..];
    }
  }

  /** Sorting does not depend on the input order when ties are equal. */
  lemma SortPermutation<T(!new)>(le: (T, T) -> bool, a: seq<T>, b: seq<T>)
    requires TotalOrder(le) && multiset(a) == multiset(b)
    ensures Sort(le, a) == Sort(le, b)
  {
    SortElements(le, a);
    SortElements(le, b);
    SortSorted(le, a);
    SortSorted(le, b);
    SortedUnique(le, Sort(le, a), Sort(le, b));
  }

  lemma {:induction false} InsertLow<T(!new)>(le: (T, T) -> bool, x: T, low: seq<T>, high: seq<T>)
    requires forall h :: h in high ==> le(x, h)
    ensures Insert(le, x, low + high) == Insert(le, x, low) + high
  {
    if low == [] {
      assert low + high == high;
      if high != [] {
        assert high[0] in high;
      }
    } else if !le(x, low[0]) {
      InsertLow(le, x, low[1..], high);
      assert (low + high)[1..] == low[1..] + high;
    } else {
      assert [x] + (low + high) == ([x] + low) + high;
    }
  }

  lemma {:induction false} InsertHigh<T(!new)>(le: (T, T) -> bool, x: T, low: seq<T>, high: seq<T>)
    requires forall l :: l in low ==> !le(x, l)
    ensures Insert(le, x, low + high) == low + Insert(le, x, high)
  {
    if low == [] {
      assert low + high == high;
    } else {
      assert low[0] in low;
      InsertHigh(le, x, low[1..], high);
      assert (low + high)[1..] == low[1..] + high;
    }
  }

  /** Everything in `s` that satisfies `p` sorts strictly before everything that does not. */
  ghost predicate Separates<T(!new)>(le: (T, T) -> bool, p: T -> bool, s: seq<T>) {
    forall x, y :: x in s && y in s && p(x) && !p(y) ==> le(x, y) && !le(y, x)
  }

  /** Parts that are separated sort apart; `q` is the complement of `p`. */
  lemma {:induction false} SortSplit<T(!new)>(le: (T, T) -> bool, p: T -> bool, q: T -> bool, s: seq<T>)
    requires forall x :: q(x) == !p(x)
    requires Separates(le, p, s)
    ensures Sort(le, s) == Sort(le, Filter(p, s)) + Sort(le, Filter(q, s))
  {
    if s != [] {
      var x, rest := s[0], s[1..];
      assert Separates(le, p, rest);
      SortSplit(le, p, q, rest);
      var low, high := Sort(le, Filter(p, rest)), Sort(le, Filter(q, rest));
      assert Sort(le, s) == Insert(le, x, low + high);
      if p(x) {
        assert Filter(q, s) == Filter(q, rest);
        SplitFilterHead(p, s);
        assert Sort(le, Filter(p, s)) == Insert(le, x, low);
        forall h | h in high ensures le(x, h) {
          SortElements(le, Filter(q, rest));
          FilterElements(q, rest);
        }
        InsertLow(le, x, low, high);
      } else {
        assert Filter(p, s) == Filter(p, rest);
        SplitFilterHead(q, s);
        assert Sort(le, Filter(q, s)) == Insert(le, x, high);
        forall l | l in low ensures !le(x, l) {
          SortElements(le, Filter(p, rest));
          FilterElements(p, rest);
        }
        InsertHigh(le, x, low, high);
      }
    }
  }

  lemma SplitFilterHead<T(!new)>(p: T -> bool, s: seq<T>)
    requires s != [] && p(s[0])
    ensures Filter(p, s) != [] && Filter(p, s)[0] == s[0] && Filter(p, s)[1..] == Filter(p, s[1..])
  {
  }

  // ----- strings by code unit, as `<` and the default sort compare them -----

  predicate StringLe(a: string, b: string) {
    if a == [] then true
    else if b == [] then false
    else if a[0] != b[0] then a[0] < b[0]
    else StringLe(a[1..], b[1..])
  }

  lemma {:induction false} StringLeTotal(a: string, b: string)
    ensures StringLe(a, b) || StringLe(b, a)
    ensures StringLe(a, b) && StringLe(b, a) ==> a == b
  {
    if a != [] && b != [] && a[0] == b[0] {
      StringLeTotal(a[1..], b[1..]);
      assert a == [a[0]] + a[1..] && b == [b[0]] + b[1..];
    }
  }

  lemma {:induction false} StringLeTransitive(a: string, b: string, c: string)
    requires StringLe(a, b) && StringLe(b, c)
    ensures StringLe(a, c)
  {
    if a != [] && a[0] == b[0] && b[0] == c[0] {
      StringLeTransitive(a[1..], b[1..], c[1..]);
    }
  }

  lemma StringLeIsTotalOrder()
    ensures TotalOrder(StringLe)
  {
    forall a, b ensures StringLe(a, b) || StringLe(b, a)
      ensures StringLe(a, b) && StringLe(b, a) ==> a == b
    {
      StringLeTotal(a, b);
    }
    forall a, b, c | StringLe(a, b) && StringLe(b, c) ensures StringLe(a, c) {
      StringLeTransitive(a, b, c);
    }
  }

  /** `k` is the first place where the two differ, and `a` has the smaller character there. */
  predicate SmallerAt(a: string, b: string, k: int) {
    0 <= k < |a| && k < |b| && a[..k] == b[..k] && a[k] < b[k]
  }

  lemma SmallerLater(a: string, b: string, k: int)
    requires a != [] && b != [] && k > 0
    ensures SmallerAt(a, b, k) <==> a[0] == b[0] && SmallerAt(a[1..], b[1..], k - 1)
  {
    if k < |a| && k < |b| {
      var j := k - 1;
      assert a[..k] == [a[0]] + a[1..][..j] && b[..k] == [b[0]] + b[1..][..j];
      assert a[..k][1..] == a[1..][..j] && b[..k][1..] == b[1..][..j];
      assert a[..k][0] == a[0] && b[..k][0] == b[0];
    }
  }

  /** One string is at most another exactly when it is a prefix or smaller at the first difference. */
  lemma {:induction false} StringLeExactly(a: string, b: string)
    ensures StringLe(a, b) <==> a <= b || exists k :: SmallerAt(a, b, k)
  {
    if a != [] && b != [] {
      StringLeExactly(a[1..], b[1..]);
      assert a == [a[0]] + a[1..] && b == [b[0]] + b[1..];
      if a[0] < b[0] {
        assert SmallerAt(a, b, 0);
      }
      if k :| SmallerAt(a, b, k) {
        if k > 0 {
          SmallerLater(a, b, k);
        }
      }
      if k :| SmallerAt(a[1..], b[1..], k) {
        SmallerLater(a, b, k + 1);
      }
    }
  }
}
