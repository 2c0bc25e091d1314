/** Small vocabulary shared by every module: options, results, saturating
    machine integers, and filtering of sequences. */
module Base {

  datatype Option<+T> = None | Some(value: T)

  datatype Result<+T, +E> = Ok(value: T) | Err(error: E)

  const U32_MAX: nat := 0xFFFF_FFFF
  const U64_MAX: nat := 0xFFFF_FFFF_FFFF_FFFF

  function Min(a: int, b: int): int { if a <= b then a else b }

  function Max(a: int, b: int): int { if a <= b then b else a }

  // A source address.
  type Ip = nat

  // A count held in a u32 whose every addition saturates.
  function Sat32(n: nat): nat { Min(n, U32_MAX) }

  // a.saturating_sub(b), also the meaning of Instant::saturating_duration_since.
  function SatSub(a: nat, b: nat): nat { if b <= a then a - b else 0 }

  lemma MulMonotone(a: nat, b: nat, c: nat)
    requires a <= b
    ensures a * c <= b * c
  {
  }

  function SetOf<T>(s: seq<T>): set<T> { set x | x in s }

  // The elements of s that satisfy p, in order and with repetition.
  function Filter<T>(s: seq<T>, p: T -> bool): seq<T>
  {
    if s == [] then []
    else
      var last := s[|s| - 1];
      Filter(s[..|s| - 1], p) + (if p(last) then [last] else [])
  }

  lemma FilterAppend<T>(s: seq<T>, x: T, p: T -> bool)
    ensures Filter(s + [x], p) == Filter(s, p) + (if p(x) then [x] else [])
  {
    assert (s + [x])[..|s|] == s;
  }

  lemma {:induction false} FilterMembers<T>(s: seq<T>, p: T -> bool)
    ensures forall x :: x in Filter(s, p) <==> x in s && p(x)
  {
    if s != [] {
      var front, last := s[..|s| - 1], s[|s| - 1];
      FilterMembers(front, p);
      assert s == front + [last];
    }
  }

  lemma {:induction false} FilterAgree<T>(s: seq<T>, p: T -> bool, q: T -> bool)
    requires forall x :: x in s ==> p(x) == q(x)
    ensures Filter(s, p) == Filter(s, q)
  {
    if s != [] {
      FilterAgree(s[..|s| - 1], p, q);
    }
  }

  lemma {:induction false} FilterImplies<T>(s: seq<T>, p: T -> bool, q: T -> bool)
    requires forall x :: x in s && p(x) ==> q(x)
    ensures |Filter(s, p)| <= |Filter(s, q)| <= |s|
  {
    if s != [] {
      FilterImplies(s[..|s| - 1], p, q);
    }
  }

  lemma {:induction false} FilterConcat<T>(a: seq<T>, b: seq<T>, p: T -> bool)
    ensures Filter(a + b, p) == Filter(a, p) + Filter(b, p)
  {
    if b == [] {
      assert a + b == a;
    } else {
      var n := |b| - 1;
      FilterConcat(a, b[..n], p);
      assert (a + b)[..|a| + n] == a + b[..n];
    }
  }

  // p is stricter than q, and strictly so on some element of s.
  lemma {:induction false} FilterStrict<T>(s: seq<T>, p: T -> bool, q: T -> bool, w: T)
    requires forall x :: x in s && p(x) ==> q(x)
    requires w in s && q(w) && !p(w)
    ensures |Filter(s, p)| < |Filter(s, q)|
  {
    var front, last := s[..|s| - 1], s[|s| - 1];
    assert s == front + [last];
    if w == last {
      FilterImplies(front, p, q);
    } else {
      FilterStrict(front, p, q, w);
    }
  }

  // q holds of each element of s by p or by r, and never by both.
  lemma {:induction false} FilterSplit<T>(s: seq<T>, p: T -> bool, r: T -> bool, q: T -> bool)
    requires forall x :: x in s ==> (q(x) <==> p(x) || r(x)) && !(p(x) && r(x))
    ensures |Filter(s, q)| == |Filter(s, p)| + |Filter(s, r)|
  {
    if s != [] {
      FilterSplit(s[..|s| - 1], p, r, q);
    }
  }

  lemma {:induction false} FilterMultiset<T>(s: seq<T>, p: T -> bool, x: T)
    ensures multiset(Filter(s, p))[x] == if p(x) then multiset(s)[x] else 0
  {
    if s != [] {
      var front, last := s[..|s| - 1], s[|s| - 1];
      FilterMultiset(front, p, x);
      assert s == front + [last];
    }
  }

  lemma {:induction false} FilterAllOrNone<T>(s: seq<T>, p: T -> bool)
    ensures (forall x :: x in s ==> p(x)) ==> Filter(s, p) == s
    ensures (forall x :: x in s ==> !p(x)) ==> Filter(s, p) == []
    ensures |Filter(s, p)| == |s| ==> forall x :: x in s ==> p(x)
  {
    if s != [] {
      var front, last := s[..|s| - 1], s[|s| - 1];
      FilterAllOrNone(front, p);
      FilterImplies(front, p, p);
      assert s == front + [last];
    }
  }
}
