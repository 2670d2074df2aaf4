/**
 * Sequences used as insertion-ordered collections.  A JavaScript `Map` or
 * `Set` iterates in insertion order, holds each key once, and `delete`
 * takes a key out without disturbing the order of the others; a sequence
 * without duplicates and `Without` model exactly that.
 */
module SeqUtil {

  /** No element occurs twice. */
  ghost predicate NoDups<T>(s: seq<T>)
  {
    forall i, j :: 0 <= i < j < |s| ==> s[i] != s[j]
  }

  /** `s` with every occurrence of `x` taken out, the rest in their order. */
  function Without<T(==)>(s: seq<T>, x: T): seq<T>
  {
    if s == [] then []
    else if s[0] == x then Without(s[1..], x)
    else [s[0]] + Without(s[1..], x)
  }

  /** `Without` removes `x`, keeps every other element, adds nothing, and
      keeps a duplicate-free sequence duplicate-free. */
  lemma {:induction false} WithoutSpec<T>(s: seq<T>, x: T)
    ensures forall y :: y in Without(s, x) <==> y in s && y != x
    ensures forall i :: 0 <= i < |Without(s, x)| ==> Without(s, x)[i] in s && Without(s, x)[i] != x
    ensures |Without(s, x)| <= |s|
    ensures x !in s ==> Without(s, x) == s
    ensures NoDups(s) ==> NoDups(Without(s, x))
  {
    if s != [] {
      WithoutSpec(s[1..], x);
      var t := Without(s[1..], x);
      if s[0] != x && NoDups(s) {
        assert NoDups(s[1..]) by {
          forall i, j | 0 <= i < j < |s[1..]| ensures s[1..][i] != s[1..][j] {
            assert s[1..][i] == s[i + 1] && s[1..][j] == s[j + 1];
          }
        }
        assert s[0] !in s[1..];
        forall i, j | 0 <= i < j < |[s[0]] + t| ensures ([s[0]] + t)[i] != ([s[0]] + t)[j] {
          if i == 0 {
            assert ([s[0]] + t)[j] == t[j - 1];
          } else {
            assert ([s[0]] + t)[i] == t[i - 1] && ([s[0]] + t)[j] == t[j - 1];
          }
        }
      }
      if s[0] == x && NoDups(s) {
        forall i, j | 0 <= i < j < |s[1..]| ensures s[1..][i] != s[1..][j] {
          assert s[1..][i] == s[i + 1] && s[1..][j] == s[j + 1];
        }
      }
    }
  }

  /** `Without` works element by element: removing from a concatenation
      removes from each part and keeps the parts in place, so the elements
      that stay keep their relative order, as `delete` on a JavaScript `Map`
      or `Set` keeps the iteration order of the rest. */
  lemma {:induction false} WithoutConcat<T>(a: seq<T>, b: seq<T>, x: T)
    ensures Without(a + b, x) == Without(a, x) + Without(b, x)
    ensures Without([x], x) == [] && forall y :: y != x ==> Without([y], x) == [y]
  {
    if a == [] {
      assert a + b == b;
    } else {
      assert (a + b)[0] == a[0] && (a + b)[1..] == a[1..] + b;
      WithoutConcat(a[1..], b, x);
    }
  }

  /** In a duplicate-free sequence, removing the element at `i` closes the
      gap and leaves everything before and after it where it was. */
  lemma WithoutAt<T>(s: seq<T>, i: nat)
    requires NoDups(s) && i < |s|
    ensures Without(s, s[i]) == s[..i] + s[i + 1..]
  {
    var x, before, after := s[i], s[..i], s[i + 1..];
    assert s == before + [x] + after;
    assert x !in before && x !in after;
    assert Without(before, x) == before by { WithoutSpec(before, x); }
    assert Without(after, x) == after by { WithoutSpec(after, x); }
    calc {
      Without(s, x);
      Without((before + [x]) + after, x);
      { WithoutConcat(before + [x], after, x); }
      Without(before + [x], x) + Without(after, x);
      { WithoutConcat(before, [x], x); }
      Without(before, x) + Without([x], x) + after;
      before + after;
    }
  }

  /** Appending an element that is not present keeps a sequence free of duplicates. */
  lemma AppendFreshNoDups<T>(s: seq<T>, x: T)
    requires NoDups(s) && x !in s
    ensures NoDups(s + [x])
  {
    forall i, j | 0 <= i < j < |s + [x]| ensures (s + [x])[i] != (s + [x])[j] {
      if j == |s| {
        assert (s + [x])[i] == s[i];
      } else {
        assert (s + [x])[i] == s[i] && (s + [x])[j] == s[j];
      }
    }
  }
}
