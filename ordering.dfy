/** The orders pandas uses when it sorts: group keys of a `groupby`
    (sorted ascending by default) and the explicit `sort_values`. */
module Ordering {
  import opened Frames

  /** Python's `<` on str: lexicographic by code point. */
  predicate StrLess(a: string, b: string) {
    if a == [] then b != []
    else if b == [] then false
    else if a[0] != b[0] then a[0] < b[0]
    else StrLess(a[1..], b[1..])
  }

  lemma {:induction false} StrLessIrreflexive(a: string)
    ensures !StrLess(a, a)
  {
    if a != [] { StrLessIrreflexive(a[1..]); }
  }

  lemma {:induction false} StrLessTransitive(a: string, b: string, c: string)
    requires StrLess(a, b) && StrLess(b, c)
    ensures StrLess(a, c)
  {
    if a != [] && b != [] && c != [] && a[0] == b[0] && b[0] == c[0] {
      StrLessTransitive(a[1..], b[1..], c[1..]);
    }
  }

  lemma {:induction false} StrLessTotal(a: string, b: string)
    ensures a == b || StrLess(a, b) || StrLess(b, a)
  {
    if a != [] && b != [] && a[0] == b[0] {
      StrLessTotal(a[1..], b[1..]);
      if a[1..] == b[1..] {
        assert a == [a[0]] + a[1..] && b == [b[0]] + b[1..];
      }
    }
  }

  /** Values of different kinds are ordered by kind.  Group keys in this
      pipeline are always of one kind per column. */
  function Rank(v: Value): nat {
    match v
    case Null => 0
    case Bool(_) => 1
    case Int(_) => 2
    case Day(_) => 3
    case Str(_) => 4
  }

  predicate ValueLess(a: Value, b: Value) {
    if Rank(a) != Rank(b) then Rank(a) < Rank(b)
    else match a
      case Null => false
      case Bool(x) => !x && b.b
      case Int(x) => x < b.i
      case Day(x) => x < b.d
      case Str(x) => StrLess(x, b.s)
  }

  ghost predicate StrictTotalOrder<T(!new)>(lt: (T, T) -> bool) {
    && (forall a :: !lt(a, a))
    && (forall a, b, c :: lt(a, b) && lt(b, c) ==> lt(a, c))
    && (forall a, b :: a == b || lt(a, b) || lt(b, a))
  }

  lemma ValueLessIsStrictTotal()
    ensures StrictTotalOrder(ValueLess)
  {
    forall a: Value ensures !ValueLess(a, a) {
      if a.Str? { StrLessIrreflexive(a.s); }
    }
    forall a: Value, b: Value, c: Value | ValueLess(a, b) && ValueLess(b, c)
      ensures ValueLess(a, c)
    {
      if a.Str? && b.Str? && c.Str? { StrLessTransitive(a.s, b.s, c.s); }
    }
    forall a: Value, b: Value ensures a == b || ValueLess(a, b) || ValueLess(b, a) {
      if a.Str? && b.Str? { StrLessTotal(a.s, b.s); }
    }
  }

  predicate StrictlySorted<T>(s: seq<T>, lt: (T, T) -> bool) {
    forall i, j :: 0 <= i < j < |s| ==> lt(s[i], s[j])
  }

  /** Inserts `x` into a strictly sorted sequence, unless it is already there. */
  function InsertSorted<T(==,!new)>(x: T, s: seq<T>, lt: (T, T) -> bool): (r: seq<T>)
    requires StrictTotalOrder(lt) && StrictlySorted(s, lt)
    ensures StrictlySorted(r, lt)
    ensures forall y :: y in r <==> y in s || y == x
  {
    if s == [] then [x]
    else if x == s[0] then s
    else if lt(x, s[0]) then [x] + s
    else
      var rest := InsertSorted(x, s[1..], lt);
      assert forall y :: y in s <==> y == s[0] || y in s[1..];
      assert lt(s[0], x);
      forall k | 0 <= k < |rest| ensures lt(s[0], rest[k]) {
        assert rest[k] in rest;
        if rest[k] != x {
          var m :| 1 <= m < |s| && s[m] == rest[k];
        }
      }
      [s[0]] + rest
  }

  /** The distinct elements of `s` in ascending order: how `groupby` lists
      its keys. */
  function SortDistinct<T(==,!new)>(s: seq<T>, lt: (T, T) -> bool): (r: seq<T>)
    requires StrictTotalOrder(lt)
    ensures StrictlySorted(r, lt)
    ensures forall y :: y in r <==> y in s
  {
    if s == [] then []
    else
      var init := s[..|s| - 1];
      assert s == init + [s[|s| - 1]];
      InsertSorted(s[|s| - 1], SortDistinct(init, lt), lt)
  }

  lemma SortedIsDistinct<T(!new)>(s: seq<T>, lt: (T, T) -> bool)
    requires StrictTotalOrder(lt) && StrictlySorted(s, lt)
    ensures Distinct(s)
  {
  }

  /** A strictly sorted sequence is determined by its elements. */
  lemma {:induction false} SortedUnique<T(!new)>(s: seq<T>, t: seq<T>, lt: (T, T) -> bool)
    requires StrictTotalOrder(lt) && StrictlySorted(s, lt) && StrictlySorted(t, lt)
    requires forall y :: y in s <==> y in t
    ensures s == t
  {
    assert s != [] ==> s[0] in s;
    assert t != [] ==> t[0] in t;
    if s != [] && t != [] {
      var k :| 0 <= k < |t| && t[k] == s[0];
      var m :| 0 <= m < |s| && s[m] == t[0];
      assert s[0] == t[0];
      forall y ensures y in s[1..] <==> y in t[1..] {
        if y in s[1..] {
          var k :| 1 <= k < |s| && s[k] == y;
          assert lt(s[0], y);
          assert y in t && y != t[0];
        }
        if y in t[1..] {
          var k :| 1 <= k < |t| && t[k] == y;
          assert lt(t[0], y);
          assert y in s && y != s[0];
        }
      }
      SortedUnique(s[1..], t[1..], lt);
      assert s == [s[0]] + s[1..] && t == [t[0]] + t[1..];
    }
  }

  predicate IntLess(a: int, b: int) {
    a < b
  }

  lemma IntLessIsStrictTotal()
    ensures StrictTotalOrder(IntLess)
  {
  }

  /** The lexicographic order on pairs, how `groupby` over two columns
      orders its keys. */
  function Lex<A(==), B>(ltA: (A, A) -> bool, ltB: (B, B) -> bool): ((A, B), (A, B)) -> bool {
    (p: (A, B), q: (A, B)) => ltA(p.0, q.0) || (p.0 == q.0 && ltB(p.1, q.1))
  }

  lemma LexIsStrictTotal<A(!new), B(!new)>(ltA: (A, A) -> bool, ltB: (B, B) -> bool)
    requires StrictTotalOrder(ltA) && StrictTotalOrder(ltB)
    ensures StrictTotalOrder(Lex(ltA, ltB))
  {
    var lt := Lex(ltA, ltB);
    forall p: (A, B) ensures !lt(p, p) {
      assert !ltA(p.0, p.0) && !ltB(p.1, p.1);
    }
    forall p: (A, B), q: (A, B), r: (A, B) | lt(p, q) && lt(q, r) ensures lt(p, r) {
      if ltA(p.0, q.0) && ltA(q.0, r.0) {
        assert ltA(p.0, r.0);
      }
    }
    forall p: (A, B), q: (A, B) ensures p == q || lt(p, q) || lt(q, p) {
      assert p.0 == q.0 || ltA(p.0, q.0) || ltA(q.0, p.0);
      assert p.1 == q.1 || ltB(p.1, q.1) || ltB(q.1, p.1);
    }
  }
}
