/** Generic list operations that the Python source writes as comprehensions, slices and splits. */
module Sequences {

  /** The elements of `xs` that satisfy `p`, in their original order
      (a list comprehension with an `if` clause). */
  function Filter<T>(xs: seq<T>, p: T -> bool): seq<T>
    decreases |xs|
  {
    if xs == [] then [] else (if p(xs[0]) then [xs[0]] else []) + Filter(xs[1..], p)
  }

  /** What `Filter` keeps: no more than it was given, only elements that satisfy `p`,
      and only elements of `xs`. */
  lemma {:induction false} FilterKeeps<T>(xs: seq<T>, p: T -> bool)
    ensures |Filter(xs, p)| <= |xs|
    ensures forall i :: 0 <= i < |Filter(xs, p)| ==> p(Filter(xs, p)[i]) && Filter(xs, p)[i] in xs
    decreases |xs|
  {
    if xs != [] {
      FilterKeeps(xs[1..], p);
      var head := if p(xs[0]) then [xs[0]] else [];
      var rest := Filter(xs[1..], p);
      assert Filter(xs, p) == head + rest;
      forall i | 0 <= i < |Filter(xs, p)|
        ensures p(Filter(xs, p)[i]) && Filter(xs, p)[i] in xs
      {
        if i >= |head| {
          assert Filter(xs, p)[i] == rest[i - |head|];
          assert p(Filter(xs[1..], p)[i - |head|]) && Filter(xs[1..], p)[i - |head|] in xs[1..];
        }
      }
    }
  }

  /** When every element satisfies `p`, `Filter` keeps them all. */
  lemma {:induction false} FilterAll<T>(xs: seq<T>, p: T -> bool)
    requires forall i :: 0 <= i < |xs| ==> p(xs[i])
    ensures Filter(xs, p) == xs
    decreases |xs|
  {
    if xs != [] {
      FilterAll(xs[1..], p);
      assert [xs[0]] + xs[1..] == xs;
    }
  }

  /** When no element satisfies `p`, `Filter` keeps nothing. */
  lemma {:induction false} FilterNone<T>(xs: seq<T>, p: T -> bool)
    requires forall i :: 0 <= i < |xs| ==> !p(xs[i])
    ensures Filter(xs, p) == []
    decreases |xs|
  {
    if xs != [] {
      FilterNone(xs[1..], p);
    }
  }

  /** The number of elements of `xs` that satisfy `p`. */
  function Count<T>(xs: seq<T>, p: T -> bool): nat
    decreases |xs|
  {
    if xs == [] then 0 else (if p(xs[0]) then 1 else 0) + Count(xs[1..], p)
  }

  /** The negation of a predicate, as a value. */
  function Not<T>(p: T -> bool): T -> bool
  {
    x => !p(x)
  }

  /** `[f(x) for x in xs]`. */
  function Map<T, U>(xs: seq<T>, f: T -> U): (r: seq<U>)
    ensures |r| == |xs|
    ensures forall i :: 0 <= i < |xs| ==> r[i] == f(xs[i])
  {
    seq(|xs|, i requires 0 <= i < |xs| => f(xs[i]))
  }

  /** All the lists of `xss` laid end to end. */
  function Concat<T>(xss: seq<seq<T>>): seq<T>
    decreases |xss|
  {
    if xss == [] then [] else xss[0] + Concat(xss[1..])
  }

  /** Python's clamping slice `xs[:k]`: the first `k` elements, or all of them if there are fewer. */
  function Take<T>(xs: seq<T>, k: nat): (r: seq<T>)
    ensures |r| == if |xs| <= k then |xs| else k
    ensures r == xs[..|r|]
  {
    if |xs| <= k then xs else xs[..k]
  }

  /** Cuts `xs` at every element that satisfies `isSep`, dropping those elements.
      `k` separators give `k + 1` pieces, some of them possibly empty, and no piece
      holds a separator. */
  function Split<T>(xs: seq<T>, isSep: T -> bool): (parts: seq<seq<T>>)
    ensures |parts| >= 1
    decreases |xs|
  {
    if xs == [] then [[]]
    else
      var rest := Split(xs[1..], isSep);
      if isSep(xs[0]) then [[]] + rest
      else [[xs[0]] + rest[0]] + rest[1..]
  }

  /** `k` separators give `k + 1` pieces. */
  lemma {:induction false} SplitCount<T>(xs: seq<T>, isSep: T -> bool)
    ensures |Split(xs, isSep)| == Count(xs, isSep) + 1
    decreases |xs|
  {
    if xs != [] {
      SplitCount(xs[1..], isSep);
    }
  }

  /** Every element of a piece is an element of the input: a property all elements have
      holds of each element of each piece. */
  lemma {:induction false} SplitPieceElement<T>(xs: seq<T>, isSep: T -> bool, p: T -> bool, k: nat, i: nat)
    requires forall j :: 0 <= j < |xs| ==> p(xs[j])
    requires k < |Split(xs, isSep)| && i < |Split(xs, isSep)[k]|
    ensures p(Split(xs, isSep)[k][i])
    decreases |xs|
  {
    var parts, rest := Split(xs, isSep), Split(xs[1..], isSep);
    assert forall j :: 0 <= j < |xs[1..]| ==> p(xs[1..][j]) by {
      forall j | 0 <= j < |xs[1..]| ensures p(xs[1..][j]) { assert xs[1..][j] == xs[j + 1]; }
    }
    if isSep(xs[0]) {
      assert parts == [[]] + rest;
      SplitPieceElement(xs[1..], isSep, p, k - 1, i);
      assert parts[k][i] == rest[k - 1][i];
    } else {
      assert parts == [[xs[0]] + rest[0]] + rest[1..];
      if k == 0 && i == 0 {
        assert parts[0][0] == xs[0];
      } else if k == 0 {
        SplitPieceElement(xs[1..], isSep, p, 0, i - 1);
        assert parts[0][i] == rest[0][i - 1];
      } else {
        SplitPieceElement(xs[1..], isSep, p, k, i);
        assert parts[k][i] == rest[k][i];
      }
    }
  }

  /** No piece holds a separator. */
  lemma {:induction false} SplitPiecesHaveNoSeparator<T>(xs: seq<T>, isSep: T -> bool)
    ensures var parts := Split(xs, isSep);
      forall k, i :: 0 <= k < |parts| && 0 <= i < |parts[k]| ==> !isSep(parts[k][i])
    decreases |xs|
  {
    if xs != [] {
      SplitPiecesHaveNoSeparator(xs[1..], isSep);
      var parts, rest := Split(xs, isSep), Split(xs[1..], isSep);
      assert forall k, i :: 0 <= k < |Split(xs[1..], isSep)| && 0 <= i < |Split(xs[1..], isSep)[k]| ==>
        !isSep(Split(xs[1..], isSep)[k][i]);
      forall k, i | 0 <= k < |parts| && 0 <= i < |parts[k]| ensures !isSep(parts[k][i]) {
        if isSep(xs[0]) {
          assert parts == [[]] + rest;
          assert parts[k][i] == rest[k - 1][i];
        } else {
          assert parts == [[xs[0]] + rest[0]] + rest[1..];
          if k == 0 {
            if i > 0 { assert parts[0][i] == rest[0][i - 1]; } else { assert parts[0][0] == xs[0]; }
          } else {
            assert parts[k][i] == rest[k][i];
          }
        }
      }
    }
  }

  lemma SuffixCons<S>(s: seq<S>, i: nat)
    requires i < |s|
    ensures s[i..] == [s[i]] + s[i + 1..]
  {
  }

  lemma HeadTail<S>(s: seq<S>)
    requires s != []
    ensures s == [s[0]] + s[1..]
  {
  }

  lemma InitLast<S>(s: seq<S>)
    requires s != []
    ensures s == s[..|s| - 1] + [s[|s| - 1]]
  {
  }

  lemma FilterSingle<T>(x: T, p: T -> bool)
    ensures Filter([x], p) == if p(x) then [x] else []
  {
    assert [x][1..] == [];
  }

  lemma {:induction false} FilterAppend<T>(a: seq<T>, b: seq<T>, p: T -> bool)
    ensures Filter(a + b, p) == Filter(a, p) + Filter(b, p)
    decreases |a|
  {
    if a == [] {
      assert a + b == b;
    } else {
      var h := if p(a[0]) then [a[0]] else [];
      assert (a + b)[0] == a[0];
      assert (a + b)[1..] == a[1..] + b;
      FilterAppend(a[1..], b, p);
      AppendAssoc(h, Filter(a[1..], p), Filter(b, p));
    }
  }

  /** Filtering twice is filtering once by the conjunction. */
  lemma {:induction false} FilterFilter<T>(xs: seq<T>, p: T -> bool, q: T -> bool, both: T -> bool)
    requires forall x :: both(x) == (p(x) && q(x))
    ensures Filter(Filter(xs, p), q) == Filter(xs, both)
    decreases |xs|
  {
    if xs != [] {
      FilterFilter(xs[1..], p, q, both);
      FilterAppend(if p(xs[0]) then [xs[0]] else [], Filter(xs[1..], p), q);
    }
  }

  lemma {:induction false} ConcatAppend<T>(a: seq<seq<T>>, b: seq<seq<T>>)
    ensures Concat(a + b) == Concat(a) + Concat(b)
    decreases |a|
  {
    if a == [] {
      assert a + b == b;
    } else {
      assert (a + b)[1..] == a[1..] + b;
      ConcatAppend(a[1..], b);
    }
  }

  /** Laying the pieces end to end gives back every element that is not a separator, in order. */
  lemma {:induction false} ConcatSplit<T>(xs: seq<T>, isSep: T -> bool)
    ensures Concat(Split(xs, isSep)) == Filter(xs, Not(isSep))
    decreases |xs|
  {
    if xs != [] {
      ConcatSplit(xs[1..], isSep);
      var rest := Split(xs[1..], isSep);
      if !isSep(xs[0]) {
        assert Concat(rest) == rest[0] + Concat(rest[1..]);
      }
    }
  }

  /** A list with no separator is a single piece. */
  lemma {:induction false} SplitNoSeparator<T>(xs: seq<T>, isSep: T -> bool)
    requires forall i :: 0 <= i < |xs| ==> !isSep(xs[i])
    ensures Split(xs, isSep) == [xs]
    decreases |xs|
  {
    if xs != [] {
      SplitNoSeparator(xs[1..], isSep);
      assert [xs[0]] + xs[1..] == xs;
    }
  }

  /** `Split` on a list given as its first element and the rest. */
  lemma SplitCons<T>(y: T, ys: seq<T>, isSep: T -> bool)
    ensures isSep(y) ==> Split([y] + ys, isSep) == [[]] + Split(ys, isSep)
    ensures !isSep(y) ==> Split([y] + ys, isSep) == [[y] + Split(ys, isSep)[0]] + Split(ys, isSep)[1..]
  {
    assert ([y] + ys)[0] == y;
    assert ([y] + ys)[1..] == ys;
  }

  lemma AppendAssoc<S>(a: seq<S>, b: seq<S>, c: seq<S>)
    ensures a + (b + c) == (a + b) + c
  {
  }

  /** Replacing the head of `l + r` when `l` is not empty only touches `l`. */
  lemma NewHeadAppend<S>(h: S, l: seq<S>, r: seq<S>)
    requires l != []
    ensures [h] + (l + r)[1..] == ([h] + l[1..]) + r
  {
    assert (l + r)[1..] == l[1..] + r;
  }

  /** Cutting at a separator splits the pieces of the two sides apart. */
  lemma {:induction false} SplitAtSeparator<T>(a: seq<T>, x: T, b: seq<T>, isSep: T -> bool)
    requires isSep(x)
    ensures Split(a + [x] + b, isSep) == Split(a, isSep) + Split(b, isSep)
    decreases |a|
  {
    if a == [] {
      assert a + [x] + b == [x] + b;
      SplitCons(x, b, isSep);
    } else {
      var y, a' := a[0], a[1..];
      var tail := a' + [x] + b;
      assert a == [y] + a';
      assert a + [x] + b == [y] + tail;
      var l, r := Split(a', isSep), Split(b, isSep);
      SplitAtSeparator(a', x, b, isSep);
      SplitCons(y, tail, isSep);
      SplitCons(y, a', isSep);
      if isSep(y) {
        AppendAssoc([[]], l, r);
      } else {
        assert (l + r)[0] == l[0];
        NewHeadAppend([y] + l[0], l, r);
      }
    }
  }

  /** Replacing the last element of `[h] + s` leaves `h` in front. */
  lemma SnocUnderCons<S>(h: S, s: seq<S>, z: S)
    requires s != []
    ensures var hs := [h] + s;
      hs[..|hs| - 1] + [z] == [h] + (s[..|s| - 1] + [z]) && hs[|hs| - 1] == s[|s| - 1]
  {
    var hs := [h] + s;
    assert hs[..|hs| - 1] == [h] + s[..|s| - 1];
  }

  /** The tail of `s` with its last element replaced. */
  lemma TailOfReplacedLast<S>(s: seq<S>, z: S)
    requires |s| >= 2
    ensures var t := s[..|s| - 1] + [z];
      t[0] == s[0] && t[1..] == s[1..][..|s| - 2] + [z]
  {
  }

  /** `parts` with `x` appended to its last piece. */
  function ExtendLast<T>(parts: seq<seq<T>>, x: T): seq<seq<T>>
    requires parts != []
  {
    parts[..|parts| - 1] + [parts[|parts| - 1] + [x]]
  }

  /** One step of `SplitSnoc` for a list that starts with a separator. */
  lemma SplitSnocAfterSeparator<T>(y: T, ys: seq<T>, x: T, isSep: T -> bool)
    requires isSep(y)
    requires Split(ys + [x], isSep) == ExtendLast(Split(ys, isSep), x)
    ensures Split([y] + (ys + [x]), isSep) == ExtendLast(Split([y] + ys, isSep), x)
  {
    var s' := Split(ys, isSep);
    var z := s'[|s'| - 1] + [x];
    SplitCons(y, ys, isSep);
    SplitCons(y, ys + [x], isSep);
    assert Split([y] + ys, isSep) == [[]] + s';
    SnocUnderCons([], s', z);
    assert ExtendLast([[]] + s', x) == [[]] + ExtendLast(s', x);
  }

  /** One step of `SplitSnoc` for a list that starts with an element of the first piece. */
  lemma SplitSnocAfterElement<T>(y: T, ys: seq<T>, x: T, isSep: T -> bool)
    requires !isSep(y)
    requires Split(ys + [x], isSep) == ExtendLast(Split(ys, isSep), x)
    ensures Split([y] + (ys + [x]), isSep) == ExtendLast(Split([y] + ys, isSep), x)
  {
    var s', t := Split(ys, isSep), Split(ys + [x], isSep);
    var l := |s'| - 1;
    var z := s'[l] + [x];
    SplitCons(y, ys, isSep);
    SplitCons(y, ys + [x], isSep);
    var h := [y] + s'[0];
    assert Split([y] + ys, isSep) == [h] + s'[1..];
    if l == 0 {
      assert t == [z];
      AppendAssoc([y], s'[0], [x]);
      assert Split([y] + (ys + [x]), isSep) == [h + [x]];
      assert ExtendLast([h] + s'[1..], x) == [h + [x]];
    } else {
      TailOfReplacedLast(s', z);
      assert t[0] == s'[0] && t[1..] == s'[1..][..l - 1] + [z];
      assert Split([y] + (ys + [x]), isSep) == [h] + (s'[1..][..l - 1] + [z]);
      SnocUnderCons(h, s'[1..], z);
      assert ExtendLast([h] + s'[1..], x) == [h] + (s'[1..][..l - 1] + [z]);
    }
  }

  /** How one more element at the end changes the pieces: a separator opens a new empty
      piece, anything else extends the last piece. */
  lemma {:induction false} SplitSnoc<T>(xs: seq<T>, x: T, isSep: T -> bool)
    ensures Split(xs + [x], isSep) ==
      if isSep(x) then Split(xs, isSep) + [[]] else ExtendLast(Split(xs, isSep), x)
    decreases |xs|
  {
    if isSep(x) {
      SplitAtSeparator(xs, x, [], isSep);
      assert xs + [x] + [] == xs + [x];
    } else if xs == [] {
      assert xs + [x] == [x];
      SplitCons(x, [], isSep);
      assert [x] + [] == [x];
    } else {
      var y, ys := xs[0], xs[1..];
      assert xs == [y] + ys;
      assert xs + [x] == [y] + (ys + [x]);
      SplitSnoc(ys, x, isSep);
      if isSep(y) {
        SplitSnocAfterSeparator(y, ys, x, isSep);
      } else {
        SplitSnocAfterElement(y, ys, x, isSep);
      }
    }
  }
}
