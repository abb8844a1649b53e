// The arithmetic of fragmentation, on lengths alone: a payload of `len` bytes, room for
// `first` bytes in the first fragment and for `rest` bytes in every later one.
module FragmentArithmetic {
  function Min(a: int, b: int): int {
    if a <= b then a else b
  }

  // Fragments counted for `extra` bytes past the first one: as many as fit full, and one more.
  function CountLater(extra: nat, rest: nat): (n: nat)
    requires rest > 0
    ensures n > 0
  {
    if extra < rest then 1 else 1 + CountLater(extra - rest, rest)
  }

  /** The number of fragments the program computes, before it is cast to one byte. */
  function Count(len: nat, first: nat, rest: nat): (n: nat)
    requires first < len ==> rest > 0
    ensures n > 0
  {
    if first < len then 1 + CountLater(len - first, rest) else 1
  }

  lemma {:induction false} CountLaterFormula(extra: nat, rest: nat)
    requires rest > 0
    ensures CountLater(extra, rest) == extra / rest + 1
  {
    if extra >= rest {
      CountLaterFormula(extra - rest, rest);
      DivStep(extra, rest);
    } else {
      assert extra / rest == 0;
    }
  }

  lemma DivStep(x: nat, d: nat)
    requires 0 < d <= x
    ensures x / d == (x - d) / d + 1
  {
    var q, r := (x - d) / d, (x - d) % d;
    assert x == (q + 1) * d + r;
    QuotientIsUnique(x, d, q + 1, r);
  }

  lemma QuotientIsUnique(x: nat, d: nat, q: nat, r: nat)
    requires 0 <= r < d && x == q * d + r
    ensures x / d == q
  {
    var q', r' := x / d, x % d;
    assert x == q' * d + r';
    if q' < q {
      MulMonotone(q' + 1, q, d);
    } else if q' > q {
      MulMonotone(q + 1, q', d);
    }
  }

  /** The computed number is the one the program's division gives. */
  lemma CountFormula(len: nat, first: nat, rest: nat)
    requires first < len ==> rest > 0
    ensures Count(len, first, rest) == if first < len then 1 + (len - first) / rest + 1 else 1
  {
    if first < len {
      CountLaterFormula(len - first, rest);
    }
  }

  /** Where fragment `k` starts in the payload: each start is the previous one advanced by the room of one fragment. */
  function Start(len: nat, first: nat, rest: nat, k: nat): (start: nat)
    ensures start <= len
  {
    if k == 0 then 0
    else Min(Start(len, first, rest, k - 1) + (if k == 1 then first else rest), len)
  }

  /** The lengths on which the computed number is the right one. */
  predicate Exact(len: nat, first: nat, rest: nat)
    requires first < len ==> rest > 0
  {
    len > 0 && (len <= first || (len - first) % rest != 0)
  }

  ghost predicate InBounds(len: nat, first: nat, rest: nat, total: nat) {
    forall k :: 0 <= k < total ==> Start(len, first, rest, k) < len
  }

  function Sum(sizes: seq<nat>): nat {
    if sizes == [] then 0 else Sum(sizes[..|sizes| - 1]) + sizes[|sizes| - 1]
  }

  /** `sizes` is some way of carrying a payload in fragments that respect the room. */
  ghost predicate Covers(sizes: seq<nat>, len: nat, first: nat, rest: nat) {
    && sizes != []
    && sizes[0] <= first
    && (forall i :: 1 <= i < |sizes| ==> sizes[i] <= rest)
    && Sum(sizes) == len
  }

  lemma {:induction false} StartClosedForm(len: nat, first: nat, rest: nat, k: nat)
    requires k > 0
    ensures (k - 1) * rest >= 0
    ensures Start(len, first, rest, k) == Min(first + (k - 1) * rest, len)
  {
    if k > 1 {
      StartClosedForm(len, first, rest, k - 1);
      assert (k - 1) * rest == (k - 2) * rest + rest;
    }
  }

  lemma {:induction false} StartMonotone(len: nat, first: nat, rest: nat, j: nat, k: nat)
    requires j <= k
    ensures Start(len, first, rest, j) <= Start(len, first, rest, k)
    decreases k
  {
    if j < k {
      StartMonotone(len, first, rest, j, k - 1);
    }
  }

  // The start of the last computed fragment, and the end of it.
  lemma LastFragment(len: nat, first: nat, rest: nat)
    requires first < len && rest > 0
    ensures var total := Count(len, first, rest);
            && total >= 2
            && Start(len, first, rest, total - 1) == len - (len - first) % rest
            && Start(len, first, rest, total) == len
  {
    var q, r := (len - first) / rest, (len - first) % rest;
    CountFormula(len, first, rest);
    assert len - first == q * rest + r;
    assert (q + 1) * rest == q * rest + rest;
    StartClosedForm(len, first, rest, q + 1);
    StartClosedForm(len, first, rest, q + 2);
  }

  /** Where the cast loses nothing, every start is in bounds if and only if the lengths are exact. */
  lemma InBoundsIffExact(len: nat, first: nat, rest: nat)
    requires first < len ==> rest > 0
    ensures InBounds(len, first, rest, Count(len, first, rest)) <==> Exact(len, first, rest)
  {
    var total := Count(len, first, rest);
    assert Start(len, first, rest, 0) == 0;
    if first < len {
      LastFragment(len, first, rest);
      forall k | 0 <= k < total
        ensures Start(len, first, rest, k) <= Start(len, first, rest, total - 1)
      {
        StartMonotone(len, first, rest, k, total - 1);
      }
    }
  }

  lemma MulMonotone(a: nat, b: nat, c: nat)
    requires a <= b
    ensures a * c <= b * c
  {
    assert b * c == a * c + (b - a) * c;
  }

  lemma QuotientTimesDivisor(x: nat, d: nat)
    requires d > 0
    ensures x / d * d <= x
  {
    assert x == x / d * d + x % d;
  }

  // Fewer fragments than counted, but for the last, never reach the end.
  lemma TooFew(len: nat, first: nat, rest: nat, n: nat)
    requires first < len && rest > 0
    requires n + 2 <= Count(len, first, rest)
    ensures Start(len, first, rest, n) < len
  {
    var q := Count(len, first, rest) - 2;
    CountFormula(len, first, rest);
    QuotientTimesDivisor(len - first, rest);
    assert q * rest <= len - first;
    StartMonotone(len, first, rest, n, q);
    RoomLeft(len, first, rest, q);
  }

  lemma RoomLeft(len: nat, first: nat, rest: nat, q: nat)
    requires first < len && rest > 0 && q * rest <= len - first
    ensures Start(len, first, rest, q) < len
  {
    if q > 0 {
      StartClosedForm(len, first, rest, q);
      assert (q - 1) * rest == q * rest - rest;
    }
  }

  /**
   * With the number of fragments cast to one byte, the iteration stays in bounds and
   * reaches the end of the payload if and only if the lengths are exact and the cast
   * loses nothing.
   */
  lemma CoversIffExact(len: nat, first: nat, rest: nat)
    requires first < len ==> rest > 0
    ensures var total := Count(len, first, rest) % 0x100;
            InBounds(len, first, rest, total) && Start(len, first, rest, total) == len
            <==> Exact(len, first, rest) && Count(len, first, rest) <= 0xff
  {
    var count := Count(len, first, rest);
    if count <= 0xff {
      InBoundsIffExact(len, first, rest);
      if first < len {
        LastFragment(len, first, rest);
      }
    } else {
      assert count % 0x100 <= count - 0x100;
      TooFew(len, first, rest, count % 0x100);
    }
  }

  /**
   * With the number of fragments cast to one byte, every start is in bounds if and only if
   * the lengths are exact or the cast loses something.
   */
  lemma CastInBoundsIff(len: nat, first: nat, rest: nat)
    requires first < len ==> rest > 0
    ensures InBounds(len, first, rest, Count(len, first, rest) % 0x100)
            <==> Exact(len, first, rest) || Count(len, first, rest) > 0xff
  {
    var count := Count(len, first, rest);
    if count <= 0xff {
      InBoundsIffExact(len, first, rest);
    } else {
      assert count % 0x100 <= count - 0x100;
      forall k | 0 <= k < count % 0x100
        ensures Start(len, first, rest, k) < len
      {
        TooFew(len, first, rest, k);
      }
    }
  }

  /** No start before the last is ever out of bounds. */
  lemma OutsideOnlyAtLast(len: nat, first: nat, rest: nat, k: nat)
    requires first < len ==> rest > 0
    requires k < Count(len, first, rest) % 0x100 && Start(len, first, rest, k) == len
    ensures k == Count(len, first, rest) % 0x100 - 1
  {
    var count := Count(len, first, rest);
    if k + 2 <= count % 0x100 {
      assert count % 0x100 <= count;
      TooFew(len, first, rest, k);
    }
  }

  // A start that is not past the excess is followed by a whole fragment.
  lemma FullStep(len: nat, first: nat, rest: nat, k: nat)
    requires k == 0 ==> first <= len
    requires k > 0 ==> first < len && rest > 0 && k + 1 < Count(len, first, rest)
    ensures Start(len, first, rest, k + 1) == Start(len, first, rest, k) + if k == 0 then first else rest
  {
    if k > 0 {
      CountFormula(len, first, rest);
      var q := (len - first) / rest;
      QuotientTimesDivisor(len - first, rest);
      MulMonotone(k, q, rest);
      assert k * rest == (k - 1) * rest + rest;
      StartClosedForm(len, first, rest, k);
      StartClosedForm(len, first, rest, k + 1);
    }
  }

  lemma {:induction false} SumBound(sizes: seq<nat>, first: nat, rest: nat)
    requires sizes != [] && sizes[0] <= first
    requires forall i :: 1 <= i < |sizes| ==> sizes[i] <= rest
    ensures Sum(sizes) <= first + (|sizes| - 1) * rest
  {
    if |sizes| == 1 {
      assert Sum(sizes[..0]) == 0;
    } else {
      var n := |sizes| - 1;
      SumBound(sizes[..n], first, rest);
      assert n * rest == (n - 1) * rest + rest;
    }
  }

  lemma FewerNeverCover(len: nat, first: nat, rest: nat, sizes: seq<nat>)
    requires first < len ==> rest > 0
    requires len <= first || (len - first) % rest != 0
    requires Covers(sizes, len, first, rest)
    ensures |sizes| >= Count(len, first, rest)
  {
    if |sizes| < Count(len, first, rest) {
      SumBound(sizes, first, rest);
      StartBound(len, first, rest, |sizes|);
    }
  }

  /** No way of carrying the payload uses fewer fragments than computed, exactly when the lengths are not a multiple past the first fragment. */
  lemma CountIsMinimal(len: nat, first: nat, rest: nat)
    requires first < len ==> rest > 0
    ensures (forall sizes :: Covers(sizes, len, first, rest) ==> |sizes| >= Count(len, first, rest))
            <==> len <= first || (len - first) % rest != 0
  {
    if len <= first || (len - first) % rest != 0 {
      forall sizes | Covers(sizes, len, first, rest)
        ensures |sizes| >= Count(len, first, rest)
      {
        FewerNeverCover(len, first, rest, sizes);
      }
    } else {
      var sizes := OneFewer(len, first, rest);
      assert Covers(sizes, len, first, rest);
    }
  }

  // Between one fragment and the quotient plus one, the room falls short of an exact payload.
  lemma StartBound(len: nat, first: nat, rest: nat, n: nat)
    requires first < len && rest > 0 && (len - first) % rest != 0
    requires 1 <= n < Count(len, first, rest)
    ensures first + (n - 1) * rest < len
  {
    LastFragment(len, first, rest);
    StartMonotone(len, first, rest, n, Count(len, first, rest) - 1);
    StartClosedForm(len, first, rest, n);
  }

  lemma {:induction false} SumOfFullFragments(first: nat, rest: nat, n: nat)
    ensures Sum([first] + seq(n, _ => rest)) == first + n * rest
  {
    var sizes := [first] + seq(n, _ => rest);
    if n == 0 {
      assert sizes == [first];
    } else {
      assert sizes[..|sizes| - 1] == [first] + seq(n - 1, _ => rest);
      SumOfFullFragments(first, rest, n - 1);
      assert n * rest == (n - 1) * rest + rest;
    }
  }

  // A payload that is a whole number of full fragments fits in one fragment fewer than computed.
  lemma OneFewer(len: nat, first: nat, rest: nat) returns (sizes: seq<nat>)
    requires first < len && rest > 0 && (len - first) % rest == 0
    ensures Covers(sizes, len, first, rest) && |sizes| == Count(len, first, rest) - 1
  {
    var q := (len - first) / rest;
    CountFormula(len, first, rest);
    sizes := [first] + seq(q, _ => rest);
    SumOfFullFragments(first, rest, q);
    assert len - first == q * rest;
  }
}
