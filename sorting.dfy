/** The two library calls the formula rendering of page/bubble.go relies on:
    `sort.Sort(sort.StringSlice(...))`, which orders strings by Go's `<`, and
    `strings.Join`. Sorting is modelled as insertion sort; since equal strings
    are indistinguishable, every correct sort gives the same result, which is
    what `SortedUnique` proves. */
module Sorting {

  /** Go's `<` on strings: lexicographic, a proper prefix before its extensions.
      (Go compares UTF-8 bytes; byte order and code point order agree.) */
  predicate Less(a: string, b: string)
  {
    if |a| == 0 then |b| > 0
    else if |b| == 0 then false
    else if a[0] != b[0] then a[0] < b[0]
    else Less(a[1..], b[1..])
  }

  lemma {:induction false} LessIrreflexive(a: string)
    ensures !Less(a, a)
  {
    if |a| > 0 {
      LessIrreflexive(a[1..]);
    }
  }

  /** Any two strings are comparable and `Less` is asymmetric. */
  lemma {:induction false} LessTrichotomy(a: string, b: string)
    ensures Less(a, b) || a == b || Less(b, a)
    ensures !(Less(a, b) && Less(b, a))
  {
    if |a| > 0 && |b| > 0 && a[0] == b[0] {
      LessTrichotomy(a[1..], b[1..]);
      if a[1..] == b[1..] {
        assert a == [a[0]] + a[1..] && b == [b[0]] + b[1..];
      }
    }
  }

  lemma {:induction false} LessTransitive(a: string, b: string, c: string)
    requires Less(a, b) && Less(b, c)
    ensures Less(a, c)
  {
    if |a| > 0 && a[0] == b[0] && b[0] == c[0] {
      LessTransitive(a[1..], b[1..], c[1..]);
    }
  }

  /** Nothing later in `s` is smaller than anything earlier. */
  ghost predicate Sorted(s: seq<string>)
  {
    forall i, j | 0 <= i < j < |s| :: !Less(s[j], s[i])
  }

  /** Puts `x` before the first element of `s` that is not smaller than it. */
  function InsertSorted(x: string, s: seq<string>): (r: seq<string>)
    ensures multiset(r) == multiset(s) + multiset{x}
    ensures Sorted(s) ==> Sorted(r)
  {
    if s == [] then [x]
    else if Less(s[0], x) then
      var t := InsertSorted(x, s[1..]);
      assert s == [s[0]] + s[1..];
      InsertedAfterHead(s, x, t);
      [s[0]] + t
    else
      InsertedBeforeHead(s, x);
      [x] + s
  }

  lemma InsertedAfterHead(s: seq<string>, x: string, t: seq<string>)
    requires s != [] && Less(s[0], x) && multiset(t) == multiset(s[1..]) + multiset{x}
    requires Sorted(s[1..]) ==> Sorted(t)
    ensures Sorted(s) ==> Sorted([s[0]] + t)
  {
    if Sorted(s) {
      HeadBelowRest(s, x, t);
      SortedCons(s[0], t);
    }
  }

  lemma InsertedBeforeHead(s: seq<string>, x: string)
    requires s != [] && !Less(s[0], x)
    ensures Sorted(s) ==> Sorted([x] + s)
  {
    if Sorted(s) {
      NotAboveHead(s, x);
      SortedCons(x, s);
    }
  }

  /** A sorted list stays sorted under a new head no larger than any of its
      elements. */
  lemma SortedCons(h: string, t: seq<string>)
    requires Sorted(t) && forall y | y in t :: !Less(y, h)
    ensures Sorted([h] + t)
  {
    var r := [h] + t;
    forall i, j | 0 <= i < j < |r| ensures !Less(r[j], r[i]) {
      assert r[j] == t[j - 1] && r[j] in t;
      if i > 0 {
        assert r[i] == t[i - 1];
      }
    }
  }

  /** The head of a sorted list, smaller than `x`, is no larger than
      anything in a list holding the rest and `x`. */
  lemma HeadBelowRest(s: seq<string>, x: string, t: seq<string>)
    requires s != [] && Sorted(s) && Less(s[0], x) && multiset(t) == multiset(s[1..]) + multiset{x}
    ensures Sorted(s[1..]) && forall y | y in t :: !Less(y, s[0])
  {
    forall y | y in t ensures !Less(y, s[0]) {
      assert y in multiset(t);
      if y == x {
        LessTrichotomy(s[0], x);
      } else {
        assert y in multiset(s[1..]);
        var k :| 0 <= k < |s[1..]| && s[1..][k] == y;
        assert s[k + 1] == y;
      }
    }
  }

  /** An `x` not above the head of a sorted list is not above any of it. */
  lemma NotAboveHead(s: seq<string>, x: string)
    requires s != [] && Sorted(s) && !Less(s[0], x)
    ensures forall y | y in s :: !Less(y, x)
  {
    forall y | y in s ensures !Less(y, x) {
      var k :| 0 <= k < |s| && s[k] == y;
      if Less(y, x) {
        LessTrichotomy(s[0], x);
        if k > 0 {
          LessTrichotomy(s[0], y);
          LessTransitive(s[0], y, x);
        }
      }
    }
  }

  /** `sort.Sort(sort.StringSlice(s))`. */
  function Sort(s: seq<string>): (r: seq<string>)
    ensures multiset(r) == multiset(s) && |r| == |s|
    ensures Sorted(r)
  {
    if s == [] then []
    else
      assert s == [s[0]] + s[1..];
      InsertSorted(s[0], Sort(s[1..]))
  }

  /** A sorted arrangement of a multiset of strings is unique. */
  lemma {:induction false} SortedUnique(a: seq<string>, b: seq<string>)
    requires Sorted(a) && Sorted(b) && multiset(a) == multiset(b)
    ensures a == b
  {
    if a != [] {
      assert |b| == |a| by {
        assert |multiset(a)| == |a| && |multiset(b)| == |b|;
      }
      SortedHeads(a, b);
      MultisetTail(a);
      MultisetTail(b);
      assert Sorted(a[1..]) && Sorted(b[1..]);
      SortedUnique(a[1..], b[1..]);
      assert a == [a[0]] + a[1..] && b == [b[0]] + b[1..];
    }
  }

  /** Two sorted arrangements of one multiset start with the same string. */
  lemma SortedHeads(a: seq<string>, b: seq<string>)
    requires Sorted(a) && Sorted(b) && multiset(a) == multiset(b) && a != [] && b != []
    ensures a[0] == b[0]
  {
    assert b[0] in multiset(a) && a[0] in multiset(b);
    var i :| 0 <= i < |a| && a[i] == b[0];
    var j :| 0 <= j < |b| && b[j] == a[0];
    assert !Less(b[0], a[0]) by {
      if i > 0 {
        assert !Less(a[i], a[0]);
      } else {
        LessIrreflexive(a[0]);
      }
    }
    assert !Less(a[0], b[0]) by {
      if j > 0 {
        assert !Less(b[j], b[0]);
      } else {
        LessIrreflexive(b[0]);
      }
    }
    LessTrichotomy(a[0], b[0]);
  }

  lemma MultisetTail<T>(s: seq<T>)
    requires s != []
    ensures multiset(s[1..]) == multiset(s) - multiset{s[0]}
  {
    assert s == [s[0]] + s[1..];
  }

  lemma MultisetRemoveAt<T>(s: seq<T>, j: nat)
    requires j < |s|
    ensures multiset(s[..j] + s[j + 1..]) == multiset(s) - multiset{s[j]}
  {
    assert s == s[..j] + [s[j]] + s[j + 1..];
  }

  /** Sorting forgets the order it was given: two permutations of one
      multiset of strings sort to the same sequence. */
  lemma SortPermutationInvariant(s: seq<string>, t: seq<string>)
    requires multiset(s) == multiset(t)
    ensures Sort(s) == Sort(t)
  {
    SortedUnique(Sort(s), Sort(t));
  }

  /** `strings.Join(ss, sep)`. */
  function Join(ss: seq<string>, sep: string): string
  {
    if |ss| == 0 then ""
    else if |ss| == 1 then ss[0]
    else ss[0] + sep + Join(ss[1..], sep)
  }

  /** The sequence `[f(s[0]), ..., f(s[|s|-1])]`. */
  function MapSeq<A, B>(f: A -> B, s: seq<A>): (r: seq<B>)
    ensures |r| == |s| && forall i | 0 <= i < |s| :: r[i] == f(s[i])
  {
    seq(|s|, i requires 0 <= i < |s| => f(s[i]))
  }

  /** Mapping a function over two permutations of one multiset gives two
      permutations of one multiset. */
  lemma {:induction false} MapSeqPermutation<A, B>(f: A -> B, s: seq<A>, t: seq<A>)
    requires multiset(s) == multiset(t)
    ensures multiset(MapSeq(f, s)) == multiset(MapSeq(f, t))
  {
    if s == [] {
      assert |t| == |multiset(t)| == 0;
    } else {
      assert s[0] in multiset(t);
      var j :| 0 <= j < |t| && t[j] == s[0];
      var t' := t[..j] + t[j + 1..];
      MultisetRemoveAt(t, j);
      MultisetTail(s);
      MapSeqPermutation(f, s[1..], t');
      MapSeqRemoveAt(f, t, j);
      MapSeqTail(f, s);
    }
  }

  lemma MapSeqTail<A, B>(f: A -> B, s: seq<A>)
    requires s != []
    ensures multiset(MapSeq(f, s)) == multiset(MapSeq(f, s[1..])) + multiset{f(s[0])}
  {
    assert MapSeq(f, s) == [f(s[0])] + MapSeq(f, s[1..]);
  }

  lemma MapSeqRemoveAt<A, B>(f: A -> B, t: seq<A>, j: nat)
    requires j < |t|
    ensures multiset(MapSeq(f, t)) == multiset(MapSeq(f, t[..j] + t[j + 1..])) + multiset{f(t[j])}
  {
    MapSeqDropAt(f, t, j);
    MultisetRemoveAt(MapSeq(f, t), j);
    assert MapSeq(f, t)[j] == f(t[j]);
  }

  lemma MapSeqDropAt<A, B>(f: A -> B, t: seq<A>, j: nat)
    requires j < |t|
    ensures MapSeq(f, t[..j] + t[j + 1..]) == MapSeq(f, t)[..j] + MapSeq(f, t)[j + 1..]
  {
    var u, w := MapSeq(f, t), t[..j] + t[j + 1..];
    var v := MapSeq(f, w);
    forall i | 0 <= i < |v| ensures v[i] == (u[..j] + u[j + 1..])[i] {
      if i < j {
        assert w[i] == t[i];
      } else {
        assert w[i] == t[i + 1];
      }
    }
  }
}
