/** Python's ordering of `str` values (lexicographic by code point) and of
    `(str, str)` tuples (by the first component, then the second), and the
    ascending enumeration of a set of such tuples that `sorted(...)` yields. */
module Ordering {
  import opened Dates

  /** `a < b` on Python strings. */
  predicate StrLess(a: string, b: string)
    decreases |a|
  {
    if |a| == 0 then |b| > 0
    else if |b| == 0 then false
    else if a[0] != b[0] then a[0] < b[0]
    else StrLess(a[1..], b[1..])
  }

  lemma {:induction false} StrLessIrreflexive(a: string)
    ensures !StrLess(a, a)
    decreases |a|
  {
    if |a| > 0 { StrLessIrreflexive(a[1..]); }
  }

  lemma {:induction false} StrLessTransitive(a: string, b: string, c: string)
    requires StrLess(a, b) && StrLess(b, c)
    ensures StrLess(a, c)
    decreases |a|
  {
    if |a| > 0 && a[0] == b[0] && b[0] == c[0] {
      StrLessTransitive(a[1..], b[1..], c[1..]);
    }
  }

  lemma {:induction false} StrLessTotal(a: string, b: string)
    ensures a == b || StrLess(a, b) || StrLess(b, a)
    decreases |a|
  {
    if |a| > 0 && |b| > 0 && a[0] == b[0] {
      StrLessTotal(a[1..], b[1..]);
      if a[1..] == b[1..] {
        assert a == [a[0]] + a[1..] && b == [b[0]] + b[1..];
      }
    }
  }

  lemma StrLessAsymmetric(a: string, b: string)
    requires StrLess(a, b)
    ensures !StrLess(b, a)
  {
    if StrLess(b, a) {
      StrLessTransitive(a, b, a);
      StrLessIrreflexive(a);
    }
  }

  /** Strings with a common prefix compare like their remainders. */
  lemma {:induction false} StrLessAfterPrefix(p: string, a: string, b: string)
    ensures StrLess(p + a, p + b) == StrLess(a, b)
    decreases |p|
  {
    if p != [] {
      assert (p + a)[0] == p[0] == (p + b)[0];
      assert (p + a)[1..] == p[1..] + a;
      assert (p + b)[1..] == p[1..] + b;
      StrLessAfterPrefix(p[1..], a, b);
    } else {
      assert p + a == a && p + b == b;
    }
  }

  /** Concatenations whose first parts have equal length compare by the first
      parts, then by the second. */
  lemma {:induction false} StrLessConcat(a1: string, b1: string, a2: string, b2: string)
    requires |a1| == |a2|
    ensures StrLess(a1 + b1, a2 + b2) == (StrLess(a1, a2) || (a1 == a2 && StrLess(b1, b2)))
    decreases |a1|
  {
    if a1 == [] {
      assert a1 + b1 == b1 && a2 + b2 == b2;
    } else {
      assert (a1 + b1)[0] == a1[0] && (a2 + b2)[0] == a2[0];
      assert (a1 + b1)[1..] == a1[1..] + b1 && (a2 + b2)[1..] == a2[1..] + b2;
      if a1[0] == a2[0] {
        StrLessConcat(a1[1..], b1, a2[1..], b2);
        assert a1 == [a1[0]] + a1[1..] && a2 == [a2[0]] + a2[1..];
      }
    }
  }

  lemma DigitsCompare(a: int, b: int)
    requires 0 <= a < 10 && 0 <= b < 10
    ensures StrLess([DigitChar(a)], [DigitChar(b)]) == (a < b)
  {
    assert [DigitChar(a)][1..] == [] && [DigitChar(b)][1..] == [];
    StrLessIrreflexive([]);
  }

  lemma Pad2Compare(x: int, y: int)
    requires 0 <= x < 100 && 0 <= y < 100
    ensures StrLess(Pad2(x), Pad2(y)) == (x < y)
    ensures Pad2(x) == Pad2(y) <==> x == y
  {
    assert Pad2(x) == [DigitChar(x / 10)] + [DigitChar(x % 10)];
    assert Pad2(y) == [DigitChar(y / 10)] + [DigitChar(y % 10)];
    StrLessConcat([DigitChar(x / 10)], [DigitChar(x % 10)], [DigitChar(y / 10)], [DigitChar(y % 10)]);
    DigitsCompare(x / 10, y / 10);
    DigitsCompare(x % 10, y % 10);
    if Pad2(x) == Pad2(y) {
      assert DigitValue(Pad2(x)[0]) == DigitValue(Pad2(y)[0]);
      assert DigitValue(Pad2(x)[1]) == DigitValue(Pad2(y)[1]);
    }
  }

  /** Four digits are the two-digit hundreds followed by the two-digit rest. */
  lemma Pad4Halves(x: int)
    requires 0 <= x < 10000
    ensures Pad4(x) == Pad2(x / 100) + Pad2(x % 100)
  {
    var a, b, c, e := x / 1000, x / 100 % 10, x / 10 % 10, x % 10;
    JoinFour(x);
    Hundreds(a, b, c, e);
    TwoDigits(a, b);
    TwoDigits(c, e);
  }

  /** A four-digit number's hundreds and remainder, from its digits. */
  lemma Hundreds(a: int, b: int, c: int, e: int)
    requires 0 <= a < 10 && 0 <= b < 10 && 0 <= c < 10 && 0 <= e < 10
    ensures (1000 * a + 100 * b + 10 * c + e) / 100 == 10 * a + b
    ensures (1000 * a + 100 * b + 10 * c + e) % 100 == 10 * c + e
  {
  }

  lemma Pad4Compare(x: int, y: int)
    requires 0 <= x < 10000 && 0 <= y < 10000
    ensures StrLess(Pad4(x), Pad4(y)) == (x < y)
    ensures Pad4(x) == Pad4(y) <==> x == y
  {
    Pad4Halves(x);
    Pad4Halves(y);
    var hx, hy := x / 100, y / 100;
    var lx, ly := x % 100, y % 100;
    StrLessConcat(Pad2(hx), Pad2(lx), Pad2(hy), Pad2(ly));
    Pad2Compare(hx, hy);
    Pad2Compare(lx, ly);
    assert x == 100 * hx + lx && y == 100 * hy + ly;
  }

  /** Between ISO calendar dates, Python's string order is chronological order,
      so sorting by day string sorts by date. */
  lemma IsoOrderIsChronological(d1: Date, d2: Date)
    requires Valid(d1) && Valid(d2)
    ensures StrLess(ToIsoFormat(d1), ToIsoFormat(d2)) <==> Before(d1, d2)
    ensures ToIsoFormat(d1) == ToIsoFormat(d2) <==> d1 == d2
  {
    var y1, y2 := Pad4(d1.year), Pad4(d2.year);
    var m1, m2 := Pad2(d1.month), Pad2(d2.month);
    var a1, a2 := Pad2(d1.day), Pad2(d2.day);
    assert ToIsoFormat(d1) == y1 + ("-" + m1 + ("-" + a1));
    assert ToIsoFormat(d2) == y2 + ("-" + m2 + ("-" + a2));
    StrLessConcat(y1, "-" + m1 + ("-" + a1), y2, "-" + m2 + ("-" + a2));
    StrLessConcat("-" + m1, "-" + a1, "-" + m2, "-" + a2);
    StrLessAfterPrefix("-", m1, m2);
    StrLessAfterPrefix("-", a1, a2);
    Pad4Compare(d1.year, d2.year);
    Pad2Compare(d1.month, d2.month);
    Pad2Compare(d1.day, d2.day);
    IsoFormatRoundTrip(d1);
    IsoFormatRoundTrip(d2);
  }

  /** The sort key of a `(repo, day)` tuple. */
  type Key = (string, string)

  /** Python's `<` on two-element tuples of strings. */
  predicate KeyLess(x: Key, y: Key) {
    StrLess(x.0, y.0) || (x.0 == y.0 && StrLess(x.1, y.1))
  }

  predicate KeyAtMost(x: Key, y: Key) {
    x == y || KeyLess(x, y)
  }

  lemma KeyLessIrreflexive(x: Key)
    ensures !KeyLess(x, x)
  {
    StrLessIrreflexive(x.0);
    StrLessIrreflexive(x.1);
  }

  lemma KeyLessTransitive(x: Key, y: Key, z: Key)
    requires KeyLess(x, y) && KeyLess(y, z)
    ensures KeyLess(x, z)
  {
    if StrLess(x.0, y.0) && StrLess(y.0, z.0) {
      StrLessTransitive(x.0, y.0, z.0);
    } else if x.0 == y.0 && y.0 == z.0 {
      StrLessTransitive(x.1, y.1, z.1);
    }
  }

  lemma KeyLessTotal(x: Key, y: Key)
    ensures x == y || KeyLess(x, y) || KeyLess(y, x)
  {
    StrLessTotal(x.0, y.0);
    StrLessTotal(x.1, y.1);
  }

  lemma KeyLessAsymmetric(x: Key, y: Key)
    requires KeyLess(x, y)
    ensures !KeyLess(y, x)
  {
    if KeyLess(y, x) {
      KeyLessTransitive(x, y, x);
      KeyLessIrreflexive(x);
    }
  }

  predicate IsLeast(m: Key, s: set<Key>) {
    m in s && forall k :: k in s ==> KeyAtMost(m, k)
  }

  lemma {:induction false} LeastExists(s: set<Key>)
    requires s != {}
    ensures exists m :: IsLeast(m, s)
    decreases |s|
  {
    var x :| x in s;
    if s == {x} {
      assert IsLeast(x, s);
    } else {
      LeastExists(s - {x});
      var m :| IsLeast(m, s - {x});
      KeyLessTotal(x, m);
      if KeyLess(x, m) {
        forall k | k in s ensures KeyAtMost(x, k) {
          if k != x && k != m {
            assert k in s - {x};
            KeyLessTransitive(x, m, k);
          }
        }
        assert IsLeast(x, s);
      } else {
        assert IsLeast(m, s);
      }
    }
  }

  lemma LeastUnique(s: set<Key>)
    ensures forall a, b :: IsLeast(a, s) && IsLeast(b, s) ==> a == b
  {
    forall a, b | IsLeast(a, s) && IsLeast(b, s) ensures a == b {
      if a != b {
        assert KeyLess(a, b) && KeyLess(b, a);
        KeyLessAsymmetric(a, b);
      }
    }
  }

  /** The smallest key of a non-empty set. */
  function Least(s: set<Key>): (m: Key)
    requires s != {}
    ensures IsLeast(m, s)
  {
    LeastExists(s);
    LeastUnique(s);
    var m :| IsLeast(m, s);
    m
  }

  predicate StrictlyAscending(ks: seq<Key>) {
    forall i, j :: 0 <= i < j < |ks| ==> KeyLess(ks[i], ks[j])
  }

  /** `sorted(s)` for a set of keys: every key once, in ascending order. */
  function SortedKeys(s: set<Key>): (ks: seq<Key>)
    ensures |ks| == |s|
    ensures forall k :: k in ks <==> k in s
    ensures StrictlyAscending(ks)
    decreases |s|
  {
    if s == {} then []
    else
      var m := Least(s);
      var rest := SortedKeys(s - {m});
      assert forall k :: k in rest ==> KeyLess(m, k);
      [m] + rest
  }

  /** Two strictly ascending sequences with the same keys are equal: the order
      `sorted` produces is the only one. */
  lemma {:induction false} AscendingUnique(a: seq<Key>, b: seq<Key>)
    requires StrictlyAscending(a) && StrictlyAscending(b)
    requires forall k :: k in a <==> k in b
    ensures a == b
    decreases |a|
  {
    if a == [] || b == [] {
      if a != [] { HeadIsMember(a); assert false; }
      if b != [] { HeadIsMember(b); assert false; }
    } else {
      if a[0] != b[0] {
        assert b[0] in a && a[0] in b;
        var i :| 0 <= i < |a| && a[i] == b[0];
        var j :| 0 <= j < |b| && b[j] == a[0];
        assert KeyLess(a[0], b[0]) && KeyLess(b[0], a[0]);
        KeyLessAsymmetric(a[0], b[0]);
      }
      forall k ensures k in a[1..] <==> k in b[1..] {
        if k in a[1..] {
          InTail(a, b, k);
        }
        if k in b[1..] {
          InTail(b, a, k);
        }
      }
      AscendingUnique(a[1..], b[1..]);
    }
  }

  lemma InTail(a: seq<Key>, b: seq<Key>, k: Key)
    requires StrictlyAscending(a) && a != [] && b != [] && a[0] == b[0]
    requires forall x :: x in a <==> x in b
    requires k in a[1..]
    ensures k in b[1..]
  {
    var i :| 1 <= i < |a| && a[i] == k;
    assert KeyLess(a[0], k);
    assert k in a;
    var j :| 0 <= j < |b| && b[j] == k;
    if j == 0 {
      KeyLessIrreflexive(k);
    }
    assert b[1..][j - 1] == k;
  }

  lemma HeadIsMember(s: seq<Key>)
    requires s != []
    ensures s[0] in s
  {
  }
}
