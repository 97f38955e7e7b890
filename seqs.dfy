/** Sequence operations the scripts use through JavaScript's array methods
    (`filter`, `slice(0, n)`), and what it means for one list to be an
    order-preserving selection of another. */
module Seqs {

  /** `s.filter(p)`: the elements of `s` that satisfy `p`, in their order. */
  function Filter<T>(s: seq<T>, p: T -> bool): (r: seq<T>)
    ensures |r| <= |s|
    ensures forall k :: 0 <= k < |r| ==> r[k] in s && p(r[k])
    ensures forall i :: 0 <= i < |s| && p(s[i]) ==> s[i] in r
  {
    if s == [] then []
    else
      var last := s[|s| - 1];
      Filter(s[..|s| - 1], p) + (if p(last) then [last] else [])
  }

  /** `s.slice(0, n)`. */
  function Take<T>(s: seq<T>, n: nat): seq<T> {
    if |s| <= n then s else s[..n]
  }

  /** `idx` lists, in strictly ascending order, exactly the positions `i < n`
      for which `keep(i)` holds. */
  ghost predicate IndexList(idx: seq<int>, n: int, keep: int -> bool) {
    && (forall k :: 0 <= k < |idx| ==> 0 <= idx[k] < n)
    && (forall k, l :: 0 <= k < l < |idx| ==> idx[k] < idx[l])
    && (forall i :: 0 <= i < n ==> (keep(i) <==> i in idx))
  }

  /** `r` consists of exactly the elements of `s` at the positions where `keep`
      holds, in the order they have in `s`. This determines `r` uniquely. */
  ghost predicate SelectsWhere<T>(r: seq<T>, s: seq<T>, keep: int -> bool) {
    exists idx :: Picks(idx, r, s, keep)
  }

  /** `idx` witnesses `SelectsWhere(r, s, keep)`. */
  ghost predicate Picks<T>(idx: seq<int>, r: seq<T>, s: seq<T>, keep: int -> bool) {
    IndexList(idx, |s|, keep) && |idx| == |r| && forall k :: 0 <= k < |r| ==> r[k] == s[idx[k]]
  }

  /** The positions of `s` whose element satisfies `p`. */
  function Satisfies<T>(s: seq<T>, p: T -> bool): int -> bool {
    i => 0 <= i < |s| && p(s[i])
  }

  /** The positions of `s` whose element satisfies `p` and is preceded by fewer
      than `n` elements satisfying `p`. */
  function AmongFirst<T>(s: seq<T>, p: T -> bool, n: nat): int -> bool {
    i => 0 <= i < |s| && p(s[i]) && |Filter(s[..i], p)| < n
  }

  /** Dropping the last element of `s + [x]` gives back `s`. */
  lemma DropLast<T>(s: seq<T>, x: T)
    ensures (s + [x])[..|s|] == s
  {
  }

  /** Extending a selection of `s` by the decision for one more element `x`. */
  lemma {:induction false} SelectsWhereSnoc<T>(r: seq<T>, s: seq<T>, x: T, keep: int -> bool, keep': int -> bool)
    requires SelectsWhere(r, s, keep)
    requires forall i :: 0 <= i < |s| ==> (keep'(i) <==> keep(i))
    ensures keep'(|s|) ==> SelectsWhere(r + [x], s + [x], keep')
    ensures !keep'(|s|) ==> SelectsWhere(r, s + [x], keep')
  {
    var idx :| Picks(idx, r, s, keep);
    assert Picks(idx, r, s, keep);
    var s' := s + [x];
    if keep'(|s|) {
      var idx' := idx + [|s|];
      assert forall i :: 0 <= i < |s'| ==> (keep'(i) <==> i in idx') by {
        forall i | 0 <= i < |s'| ensures keep'(i) <==> i in idx' {
          if i < |s| {
            assert i in idx' <==> i in idx;
          } else {
            assert i == idx'[|idx|];
          }
        }
      }
      assert IndexList(idx', |s'|, keep');
      assert Picks(idx', r + [x], s', keep');
    } else {
      assert IndexList(idx, |s'|, keep') by {
        forall i | 0 <= i < |s'| ensures keep'(i) <==> i in idx {
          if i == |s| {
            assert forall k :: 0 <= k < |idx| ==> idx[k] < |s|;
          }
        }
      }
      assert Picks(idx, r, s', keep');
    }
  }

  /** `filter` yields exactly the elements satisfying `p`, in input order. */
  lemma {:induction false} FilterSelects<T>(s: seq<T>, p: T -> bool)
    ensures SelectsWhere(Filter(s, p), s, Satisfies(s, p))
    decreases |s|
  {
    if s == [] {
      assert Picks([], [], s, Satisfies(s, p));
    } else {
      var init, last := s[..|s| - 1], s[|s| - 1];
      assert s == init + [last];
      FilterSelects(init, p);
      SelectsWhereSnoc(Filter(init, p), init, last, Satisfies(init, p), Satisfies(s, p));
      assert Satisfies(s, p)(|init|) == p(last);
      if p(last) {
        assert Filter(s, p) == Filter(init, p) + [last];
      } else {
        assert Filter(s, p) == Filter(init, p);
      }
    }
  }

  /** Nothing passes a filter that no element satisfies. */
  lemma {:induction false} FilterNone<T>(s: seq<T>, p: T -> bool)
    requires forall i :: 0 <= i < |s| ==> !p(s[i])
    ensures Filter(s, p) == []
    decreases |s|
  {
    if s != [] {
      FilterNone(s[..|s| - 1], p);
    }
  }

  /** `filter` distributes over concatenation. */
  lemma {:induction false} FilterAppend<T>(a: seq<T>, b: seq<T>, p: T -> bool)
    ensures Filter(a + b, p) == Filter(a, p) + Filter(b, p)
    decreases |b|
  {
    if b == [] {
      assert a + b == a;
    } else {
      var init, last := b[..|b| - 1], b[|b| - 1];
      assert (a + b)[..|a + b| - 1] == a + init;
      FilterAppend(a, init, p);
    }
  }

  /** `filter(p).slice(0, n)` keeps a position exactly when it satisfies `p` and
      fewer than `n` earlier positions do. */
  lemma {:induction false} TakeFilterSelects<T>(s: seq<T>, p: T -> bool, n: nat)
    ensures SelectsWhere(Take(Filter(s, p), n), s, AmongFirst(s, p, n))
    decreases |s|
  {
    var keep := AmongFirst(s, p, n);
    if s == [] {
      assert Picks([], [], s, keep);
    } else {
      var init, last := s[..|s| - 1], s[|s| - 1];
      assert s == init + [last];
      TakeFilterSelects(init, p, n);
      var keepInit := AmongFirst(init, p, n);
      forall i | 0 <= i < |init| ensures keep(i) <==> keepInit(i) {
        assert s[..i] == init[..i];
      }
      assert s[..|init|] == init;
      var f := Filter(init, p);
      if p(last) && |f| < n {
        assert Take(Filter(s, p), n) == Take(f, n) + [last];
      } else {
        assert Take(Filter(s, p), n) == Take(f, n);
      }
      SelectsWhereSnoc(Take(f, n), init, last, keepInit, keep);
    }
  }
}
