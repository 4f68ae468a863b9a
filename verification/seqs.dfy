/** Generic sequence operations: first-match search, filtering, splitting and joining. */
module Seqs {
  import opened Options

  /** `i` is the position of the first element of `xs` satisfying `p`. */
  ghost predicate IsFirst<T>(xs: seq<T>, p: T -> bool, i: int) {
    && 0 <= i < |xs|
    && p(xs[i])
    && forall j :: 0 <= j < i ==> !p(xs[j])
  }

  /** Position of the first element satisfying `p`, scanning from the front
      (Ruby's `Enumerable#detect`, returning the index). */
  function FirstIndex<T>(xs: seq<T>, p: T -> bool): (r: Option<nat>)
    ensures r.Some? ==> IsFirst(xs, p, r.value)
    ensures r.None? <==> forall j :: 0 <= j < |xs| ==> !p(xs[j])
  {
    if |xs| == 0 then None
    else if p(xs[0]) then Some(0)
    else Shift(FirstIndex(xs[1..], p))
  }

  /** The first satisfying position is the one the search returns. */
  lemma FirstIndexIs<T>(xs: seq<T>, p: T -> bool, i: int)
    requires IsFirst(xs, p, i)
    ensures FirstIndex(xs, p) == Some(i)
  {
  }

  /** The first element satisfying `p`, or None when no element does. */
  function FirstMatch<T>(xs: seq<T>, p: T -> bool): (r: Option<T>)
    ensures r.None? <==> forall j :: 0 <= j < |xs| ==> !p(xs[j])
    ensures r.Some? ==> exists i :: IsFirst(xs, p, i) && xs[i] == r.value
  {
    match FirstIndex(xs, p)
    case None => None
    case Some(i) => Some(xs[i])
  }

  /** Position `k` of `xs[1..]` seen as a position of `xs`. */
  function Shift(r: Option<nat>): Option<nat> {
    match r
    case Some(k) => Some(k + 1)
    case None => None
  }

  /** Searching a concatenation finds a match in the front part before looking at the back part. */
  lemma {:induction false} FirstIndexConcat<T>(a: seq<T>, b: seq<T>, p: T -> bool)
    ensures FirstIndex(a + b, p) ==
      if FirstIndex(a, p).Some? then FirstIndex(a, p)
      else if FirstIndex(b, p).Some? then Some(|a| + FirstIndex(b, p).value)
      else None
  {
    if |a| == 0 {
      assert a + b == b;
    } else if p(a[0]) {
      assert (a + b)[0] == a[0];
    } else {
      var ab := a + b;
      assert ab[0] == a[0];
      assert ab[1..] == a[1..] + b;
      assert FirstIndex(ab, p) == Shift(FirstIndex(a[1..] + b, p));
      assert FirstIndex(a, p) == Shift(FirstIndex(a[1..], p));
      FirstIndexConcat(a[1..], b, p);
    }
  }

  /** The first match in a concatenation is the front part's, if it has one, else the back part's. */
  lemma FirstMatchConcat<T>(a: seq<T>, b: seq<T>, p: T -> bool)
    ensures FirstMatch(a + b, p) == if FirstMatch(a, p).Some? then FirstMatch(a, p) else FirstMatch(b, p)
  {
    FirstIndexConcat(a, b, p);
  }

  /** The elements of `xs` satisfying `p`, in their original order. */
  function Filter<T>(xs: seq<T>, p: T -> bool): (r: seq<T>)
    ensures |r| <= |xs|
    ensures forall i :: 0 <= i < |r| ==> p(r[i]) && r[i] in xs
    ensures forall i :: 0 <= i < |xs| && p(xs[i]) ==> xs[i] in r
  {
    if |xs| == 0 then []
    else if p(xs[0]) then [xs[0]] + Filter(xs[1..], p)
    else Filter(xs[1..], p)
  }

  /** Applies `f` to every element, keeping positions. */
  function Map<A, B>(xs: seq<A>, f: A -> B): (r: seq<B>)
    ensures |r| == |xs| && forall i :: 0 <= i < |xs| ==> r[i] == f(xs[i])
  {
    seq(|xs|, i requires 0 <= i < |xs| => f(xs[i]))
  }

  /** Mapping a sequence framed by `x` on both ends frames the mapped sequence by `f(x)`. */
  lemma MapFramed<A, B>(x: A, xs: seq<A>, f: A -> B)
    ensures Map([x] + xs + [x], f) == [f(x)] + Map(xs, f) + [f(x)]
  {
  }

  /** `a` can be obtained from `b` by deleting elements (order is kept). */
  predicate IsSubseq<T(==)>(a: seq<T>, b: seq<T>)
    decreases |b|
  {
    || |a| == 0
    || (&& |b| > 0
        && if a[0] == b[0] then IsSubseq(a[1..], b[1..]) else IsSubseq(a, b[1..]))
  }

  /** Every sequence is a subsequence of itself. */
  lemma {:induction false} IsSubseqRefl<T>(a: seq<T>)
    ensures IsSubseq(a, a)
  {
    if |a| > 0 {
      IsSubseqRefl(a[1..]);
    }
  }

  /** A subsequence of `b` is a subsequence of `b` with an element put in front. */
  lemma {:induction false} IsSubseqCons<T>(a: seq<T>, x: T, b: seq<T>)
    requires IsSubseq(a, b)
    ensures IsSubseq(a, [x] + b)
    decreases |b|, 1
  {
    var xb := [x] + b;
    assert xb[1..] == b;
    if |a| > 0 && a[0] == x {
      IsSubseqTail(a, b);
    }
  }

  /** Dropping the first element of a subsequence leaves a subsequence. */
  lemma {:induction false} IsSubseqTail<T>(a: seq<T>, b: seq<T>)
    requires |a| > 0 && IsSubseq(a, b)
    ensures IsSubseq(a[1..], b)
    decreases |b|, 0
  {
    assert b == [b[0]] + b[1..];
    if a[0] == b[0] {
      IsSubseqCons(a[1..], b[0], b[1..]);
    } else {
      IsSubseqTail(a, b[1..]);
      IsSubseqCons(a[1..], b[0], b[1..]);
    }
  }

  /** Filtering keeps the chosen elements in their relative order. */
  lemma {:induction false} FilterIsSubseq<T>(xs: seq<T>, p: T -> bool)
    ensures IsSubseq(Filter(xs, p), xs)
  {
    if |xs| > 0 {
      FilterIsSubseq(xs[1..], p);
      var rest := Filter(xs[1..], p);
      if p(xs[0]) {
        assert ([xs[0]] + rest)[1..] == rest;
      } else if |rest| > 0 {
        assert p(rest[0]);
      }
    }
  }

  /** Filtering keeps every chosen element with its multiplicity and drops every other. */
  lemma {:induction false} FilterCount<T>(xs: seq<T>, p: T -> bool, x: T)
    ensures multiset(Filter(xs, p))[x] == if p(x) then multiset(xs)[x] else 0
  {
    if |xs| > 0 {
      FilterCount(xs[1..], p, x);
      assert xs == [xs[0]] + xs[1..];
    }
  }

  /** Filtering keeps a sequence whose every element is chosen unchanged. */
  lemma {:induction false} FilterAll<T>(xs: seq<T>, p: T -> bool)
    requires forall i :: 0 <= i < |xs| ==> p(xs[i])
    ensures Filter(xs, p) == xs
  {
    if |xs| > 0 {
      FilterAll(xs[1..], p);
      assert xs == [xs[0]] + xs[1..];
    }
  }

  /** Filtering drops a sequence none of whose elements is chosen. */
  lemma FilterNone<T>(xs: seq<T>, p: T -> bool)
    requires forall i :: 0 <= i < |xs| ==> !p(xs[i])
    ensures Filter(xs, p) == []
  {
  }

  /** Filtering a concatenation filters each part. */
  lemma {:induction false} FilterConcat<T>(a: seq<T>, b: seq<T>, p: T -> bool)
    ensures Filter(a + b, p) == Filter(a, p) + Filter(b, p)
  {
    if |a| == 0 {
      assert a + b == b;
    } else {
      var ab := a + b;
      assert ab[0] == a[0];
      assert ab[1..] == a[1..] + b;
      var head := if p(a[0]) then [a[0]] else [];
      calc {
        Filter(ab, p);
        head + Filter(ab[1..], p);
        head + Filter(a[1..] + b, p);
        { FilterConcat(a[1..], b, p); }
        head + (Filter(a[1..], p) + Filter(b, p));
        (head + Filter(a[1..], p)) + Filter(b, p);
        Filter(a, p) + Filter(b, p);
      }
    }
  }

  /** Applies `f` to every successful value, stopping at the first error (an exception
      raised part-way through a loop). */
  function CollectOk<A, B, E>(rs: seq<Result<A, E>>, f: A -> B): (r: Result<seq<B>, E>)
    ensures r.Ok? <==> forall i :: 0 <= i < |rs| ==> rs[i].Ok?
    ensures r.Ok? ==> |r.value| == |rs| && forall i :: 0 <= i < |rs| ==> r.value[i] == f(rs[i].value)
    ensures r.Err? ==> exists i :: && 0 <= i < |rs| && rs[i] == Err(r.error)
                                   && forall j :: 0 <= j < i ==> rs[j].Ok?
  {
    if |rs| == 0 then Ok([])
    else
      match rs[0]
      case Err(e) => Err(e)
      case Ok(a) =>
        match CollectOk(rs[1..], f)
        case Err(e) =>
          assert exists i :: && 0 <= i < |rs[1..]| && rs[1..][i] == Err(e)
                             && forall j :: 0 <= j < i ==> rs[1..][j].Ok?;
          Err(e)
        case Ok(bs) => Ok([f(a)] + bs)
  }

  /** Splits `s` at every occurrence of `sep`; k separators give k + 1 pieces
      (Ruby's `split(sep, -1)`: empty pieces are kept). */
  function SplitOn<T(==)>(s: seq<T>, sep: T): (r: seq<seq<T>>)
    ensures |r| >= 1
    ensures forall i :: 0 <= i < |r| ==> sep !in r[i]
  {
    if |s| == 0 then [[]]
    else
      var rest := SplitOn(s[1..], sep);
      if s[0] == sep then [[]] + rest
      else [[s[0]] + rest[0]] + rest[1..]
  }

  /** Concatenates `parts` with one `sep` between neighbours. */
  function JoinWith<T>(parts: seq<seq<T>>, sep: T): seq<T> {
    if |parts| == 0 then []
    else if |parts| == 1 then parts[0]
    else parts[0] + [sep] + JoinWith(parts[1..], sep)
  }

  /** Joining with one more piece at the front puts that piece and a separator first. */
  lemma JoinWithCons<T>(first: seq<T>, rest: seq<seq<T>>, sep: T)
    requires |rest| > 0
    ensures JoinWith([first] + rest, sep) == first + [sep] + JoinWith(rest, sep)
  {
    assert ([first] + rest)[1..] == rest;
  }

  /** Joining with one more piece at the end appends a separator and that piece. */
  lemma {:induction false} JoinWithSnoc<T>(parts: seq<seq<T>>, sep: T, last: seq<T>)
    requires |parts| > 0
    ensures JoinWith(parts + [last], sep) == JoinWith(parts, sep) + [sep] + last
  {
    var all := parts + [last];
    assert all[0] == parts[0];
    if |parts| == 1 {
      assert all[1..] == [last];
    } else {
      assert all[1..] == parts[1..] + [last];
      JoinWithSnoc(parts[1..], sep, last);
    }
  }

  /** Joining pieces that avoid `c` with a separator other than `c` avoids `c`. */
  lemma {:induction false} JoinWithAvoids<T>(parts: seq<seq<T>>, sep: T, c: T)
    requires c != sep
    requires forall k :: 0 <= k < |parts| ==> c !in parts[k]
    ensures c !in JoinWith(parts, sep)
  {
    if |parts| > 1 {
      JoinWithAvoids(parts[1..], sep, c);
    }
  }

  /** Joining the pieces of a split restores the text. */
  lemma {:induction false} JoinSplit<T>(s: seq<T>, sep: T)
    ensures JoinWith(SplitOn(s, sep), sep) == s
  {
    if |s| > 0 {
      JoinSplit(s[1..], sep);
      var rest := SplitOn(s[1..], sep);
      if s[0] == sep {
        assert ([[]] + rest)[1..] == rest;
      } else {
        var r := [[s[0]] + rest[0]] + rest[1..];
        if |rest| == 1 {
          assert JoinWith(r, sep) == [s[0]] + rest[0];
        } else {
          assert r[1..] == rest[1..];
          assert JoinWith(rest, sep) == rest[0] + [sep] + JoinWith(rest[1..], sep);
          assert s == [s[0]] + s[1..];
        }
      }
    }
  }

  /** A piece free of the separator is split into itself. */
  lemma {:induction false} SplitNoSep<T>(a: seq<T>, sep: T)
    requires sep !in a
    ensures SplitOn(a, sep) == [a]
  {
    if |a| > 0 {
      SplitNoSep(a[1..], sep);
      assert a == [a[0]] + a[1..];
    }
  }

  /** A separator after a separator-free piece ends exactly that piece. */
  lemma {:induction false} SplitAfterPiece<T>(a: seq<T>, sep: T, b: seq<T>)
    requires sep !in a
    ensures SplitOn(a + [sep] + b, sep) == [a] + SplitOn(b, sep)
  {
    if |a| == 0 {
      assert a + [sep] + b == [sep] + b;
      assert ([sep] + b)[1..] == b;
    } else {
      SplitAfterPiece(a[1..], sep, b);
      assert (a + [sep] + b)[1..] == a[1..] + [sep] + b;
      assert a == [a[0]] + a[1..];
    }
  }

  /** Splitting a join of separator-free pieces gives the pieces back. */
  lemma {:induction false} SplitJoin<T>(parts: seq<seq<T>>, sep: T)
    requires |parts| >= 1
    requires forall i :: 0 <= i < |parts| ==> sep !in parts[i]
    ensures SplitOn(JoinWith(parts, sep), sep) == parts
  {
    if |parts| == 1 {
      SplitNoSep(parts[0], sep);
    } else {
      SplitJoin(parts[1..], sep);
      SplitAfterPiece(parts[0], sep, JoinWith(parts[1..], sep));
      assert parts == [parts[0]] + parts[1..];
    }
  }
}
