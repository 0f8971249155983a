/** The free comparison operators of SingleLinkedList, stated on the element
    sequences the two lists hold. A list enters `==`/`!=` through three values:
    whether both operands are the same object, its size counter (GetSize())
    and its element sequence; `<` and its derived operators only walk the
    elements. Ordering is on `int` elements, whose `<` is a strict total order. */
module Comparison {

  /** std::equal over the two ranges [begin, end): both ranges run out
      together and agree element by element. */
  function Equal<T(==)>(a: seq<T>, b: seq<T>): bool
  {
    if a == [] || b == [] then a == [] && b == []
    else a[0] == b[0] && Equal(a[1..], b[1..])
  }

  lemma {:induction false} EqualIffSame<T>(a: seq<T>, b: seq<T>)
    ensures Equal(a, b) <==> a == b
  {
    if a != [] && b != [] {
      EqualIffSame(a[1..], b[1..]);
      assert a == [a[0]] + a[1..];
      assert b == [b[0]] + b[1..];
    }
  }

  /** operator==: the same instance is equal to itself; otherwise the size
      counters must agree before the elements are compared. */
  function ListEqual<T(==)>(same: bool, lsize: nat, lhs: seq<T>, rsize: nat, rhs: seq<T>): (r: bool)
    ensures r <==> same || (lsize == rsize && lhs == rhs)
  {
    EqualIffSame(lhs, rhs);
    if same then true
    else if lsize != rsize then false
    else Equal(lhs, rhs)
  }

  /** operator!=: the negation of operator==. */
  function ListNotEqual<T(==)>(same: bool, lsize: nat, lhs: seq<T>, rsize: nat, rhs: seq<T>): (r: bool)
    ensures r <==> !same && (lsize != rsize || lhs != rhs)
  {
    !ListEqual(same, lsize, lhs, rsize, rhs)
  }

  /** When both size counters are accurate (and an instance compared with
      itself has, trivially, the same size and elements), operator== is
      exactly equality of the element sequences. */
  lemma ListEqualIsContentEquality<T>(same: bool, lhs: seq<T>, rhs: seq<T>)
    requires same ==> lhs == rhs
    ensures ListEqual(same, |lhs|, lhs, |rhs|, rhs) <==> lhs == rhs
  {
  }

  /** operator== is reflexive and symmetric, and lists whose size counters
      differ are never equal unless they are one instance. */
  lemma ListEqualLaws<T>(same: bool, lsize: nat, lhs: seq<T>, rsize: nat, rhs: seq<T>)
    ensures ListEqual(true, lsize, lhs, lsize, lhs)
    ensures ListEqual(false, lsize, lhs, lsize, lhs)
    ensures ListEqual(same, lsize, lhs, rsize, rhs) == ListEqual(same, rsize, rhs, lsize, lhs)
    ensures !same && lsize != rsize ==> !ListEqual(same, lsize, lhs, rsize, rhs)
  {
  }

  /** std::lexicographical_compare: the first range is less when the second
      still has an element where the first has run out, or at the first
      position where the elements differ the first one's is smaller. */
  function Less(a: seq<int>, b: seq<int>): bool
  {
    if b == [] then false
    else if a == [] || a[0] < b[0] then true
    else if b[0] < a[0] then false
    else Less(a[1..], b[1..])
  }

  /** Dictionary order, stated independently of the element-by-element walk:
      after a common prefix of length k, either a ends while b goes on, or
      a's next element is smaller than b's. */
  ghost predicate LexBefore(a: seq<int>, b: seq<int>)
  {
    exists k :: 0 <= k <= |a| && k < |b| && a[..k] == b[..k] && (k == |a| || a[k] < b[k])
  }

  lemma {:induction false} LessIffLexBefore(a: seq<int>, b: seq<int>)
    ensures Less(a, b) <==> LexBefore(a, b)
  {
    if b == [] {
    } else if a == [] {
      assert a[..0] == b[..0];
    } else if a[0] < b[0] {
      assert a[..0] == b[..0];
    } else if b[0] < a[0] {
    } else {
      LessIffLexBefore(a[1..], b[1..]);
      if Less(a, b) {
        var k :| 0 <= k <= |a[1..]| && k < |b[1..]| && a[1..][..k] == b[1..][..k]
                 && (k == |a[1..]| || a[1..][k] < b[1..][k]);
        assert a[..k + 1] == [a[0]] + a[1..][..k];
        assert b[..k + 1] == [b[0]] + b[1..][..k];
        assert a[..k + 1] == b[..k + 1];
      }
      if LexBefore(a, b) {
        var k :| 0 <= k <= |a| && k < |b| && a[..k] == b[..k] && (k == |a| || a[k] < b[k]);
        assert k > 0;
        assert a[1..][..k - 1] == a[..k][1..];
        assert b[1..][..k - 1] == b[..k][1..];
        assert LexBefore(a[1..], b[1..]);
      }
    }
  }

  lemma {:induction false} LessIrreflexive(a: seq<int>)
    ensures !Less(a, a)
  {
    if a != [] {
      LessIrreflexive(a[1..]);
    }
  }

  lemma {:induction false} LessTransitive(a: seq<int>, b: seq<int>, c: seq<int>)
    requires Less(a, b) && Less(b, c)
    ensures Less(a, c)
  {
    if a != [] && a[0] == b[0] && b[0] == c[0] {
      LessTransitive(a[1..], b[1..], c[1..]);
    }
  }

  /** Exactly one of a < b, a == b, b < a holds. */
  lemma {:induction false} LessTrichotomy(a: seq<int>, b: seq<int>)
    ensures Less(a, b) || a == b || Less(b, a)
    ensures !(Less(a, b) && Less(b, a))
    ensures a == b ==> !Less(a, b)
  {
    if a != [] && b != [] && a[0] == b[0] {
      LessTrichotomy(a[1..], b[1..]);
      if a[1..] == b[1..] {
        assert a == [a[0]] + a[1..] && b == [b[0]] + b[1..];
      }
    }
    if a == b {
      LessIrreflexive(a);
    }
  }

  /** operator<=, written in the source as !(rhs < lhs). */
  function LessEq(a: seq<int>, b: seq<int>): (r: bool)
    ensures r <==> Less(a, b) || a == b
  {
    LessTrichotomy(a, b);
    !Less(b, a)
  }

  /** operator>, written in the source as !(lhs <= rhs). */
  function Greater(a: seq<int>, b: seq<int>): (r: bool)
    ensures r <==> Less(b, a)
  {
    LessTrichotomy(a, b);
    !LessEq(a, b)
  }

  /** operator>=, written in the source as !(lhs < rhs). */
  function GreaterEq(a: seq<int>, b: seq<int>): (r: bool)
    ensures r <==> Less(b, a) || a == b
  {
    LessTrichotomy(a, b);
    !Less(a, b)
  }

  /** A proper prefix orders first; a difference decides at its first position. */
  lemma LexExamples()
    ensures Less([1, 2], [1, 2, 3])
    ensures Less([1, 2, 3], [1, 3])
    ensures !Less([1, 2, 3], [1, 2, 3]) && !Greater([1, 2, 3], [1, 2, 3])
    ensures LessEq([1, 2, 3], [1, 2, 3]) && GreaterEq([1, 2, 3], [1, 2, 3])
  {
    assert [1, 2][1..] == [2] && [1, 2, 3][1..] == [2, 3];
    assert [2][1..] == [] && [2, 3][1..] == [3];
    assert [1, 3][1..] == [3];
  }
}
