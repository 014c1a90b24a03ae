// The restart threshold, a 32-bit field that every restart multiplies: when it wraps around
// to zero, and how many conflicts that takes.
module Thresholds {
  import opened Basics

  // The field after so many restarts.
  function Threshold(start: uint32, multiplier: uint32, restarts: nat): uint32 {
    if restarts == 0 then start else Threshold(start, multiplier, restarts - 1) * multiplier % UINT32
  }

  // The conflicts that so many restarts take.
  function Waited(start: uint32, multiplier: uint32, restarts: nat): nat {
    if restarts == 0 then 0
    else Waited(start, multiplier, restarts - 1) + Threshold(start, multiplier, restarts - 1)
  }

  // ---- When the field vanishes ----

  // A power of two that divides a product with an odd factor divides the other factor.
  lemma {:induction false} OddFactor(a: nat, m: nat, e: nat, q: nat) returns (r: nat)
    requires m % 2 == 1 && a * m == TwoTo(e) * q
    ensures a == TwoTo(e) * r
  {
    if e == 0 {
      r := a;
    } else {
      var half := TwoTo(e - 1) * q;
      var j := m / 2;
      assert a == 2 * (half - a * j) by { assert a * m == 2 * (a * j) + a; }
      var b := half - a * j;
      assert b >= 0;
      assert b * m == half by { assert a * m == 2 * (b * m) && a * m == 2 * half; }
      r := OddFactor(b, m, e - 1, q);
    }
  }

  lemma FullPower()
    ensures TwoTo(32) == UINT32
  {
    assert TwoTo(8) == 256;
    PowerSum(8, 8);
    PowerSum(16, 16);
  }

  lemma {:induction false} PowerSum(d: nat, e: nat)
    ensures TwoTo(d + e) == TwoTo(d) * TwoTo(e)
  {
    if d == 0 {
    } else {
      PowerSum(d - 1, e);
      assert 2 * (TwoTo(d - 1) * TwoTo(e)) == 2 * TwoTo(d - 1) * TwoTo(e);
    }
  }

  lemma {:induction false} OddNeverVanishes(start: uint32, multiplier: uint32, restarts: nat)
    requires start >= 1 && multiplier % 2 == 1
    ensures Threshold(start, multiplier, restarts) >= 1
  {
    if restarts == 0 {
    } else {
      OddNeverVanishes(start, multiplier, restarts - 1);
      var before := Threshold(start, multiplier, restarts - 1);
      if before * multiplier % UINT32 == 0 {
        FullPower();
        var q := before * multiplier / UINT32;
        var r := OddFactor(before, multiplier, 32, q);
        assert false;
      }
    }
  }

  // With an even multiplier every restart adds a factor of two.
  lemma {:induction false} EvenDivides(start: uint32, multiplier: uint32, restarts: nat) returns (q: int)
    requires multiplier % 2 == 0 && restarts <= 32
    ensures Threshold(start, multiplier, restarts) == TwoTo(restarts) * q
  {
    if restarts == 0 {
      q := start;
    } else {
      var q' := EvenDivides(start, multiplier, restarts - 1);
      var product := Threshold(start, multiplier, restarts - 1) * multiplier;
      var j, z := multiplier / 2, product / UINT32;
      FullPower();
      PowerSum(restarts, 32 - restarts);
      q := q' * j - TwoTo(32 - restarts) * z;
      FactorOut(TwoTo(restarts - 1), TwoTo(32 - restarts), q', j, z);
    }
  }

  lemma FactorOut(p: int, rest: int, q: int, j: int, z: int)
    ensures p * q * (2 * j) - 2 * p * rest * z == 2 * p * (q * j - rest * z)
  {
  }

  // The field reaches zero after some number of restarts exactly when it starts there or
  // the multiplier is even.
  lemma VanishesWhenEven(start: uint32, multiplier: uint32)
    ensures (exists n: nat :: Threshold(start, multiplier, n) == 0) <==> start == 0 || multiplier % 2 == 0
  {
    if start == 0 {
      assert Threshold(start, multiplier, 0) == 0;
    } else if multiplier % 2 == 0 {
      var q := EvenDivides(start, multiplier, 32);
      FullPower();
      assert Threshold(start, multiplier, 32) == 0;
    } else {
      forall n: nat ensures Threshold(start, multiplier, n) >= 1 { OddNeverVanishes(start, multiplier, n); }
    }
  }

  // One conflict for each number below the threshold of each restart.
  ghost function Conflicts(start: uint32, multiplier: uint32, restarts: nat): set<(nat, nat)> {
    set k, j | 0 <= k < restarts && 0 <= j < Threshold(start, multiplier, k) :: (k, j)
  }

  lemma {:induction false} WaitedCounts(start: uint32, multiplier: uint32, restarts: nat)
    ensures Waited(start, multiplier, restarts) == |Conflicts(start, multiplier, restarts)|
  {
    if restarts == 0 {
      assert Conflicts(start, multiplier, restarts) == {};
    } else {
      var n := restarts - 1;
      var last := Row(n, Threshold(start, multiplier, n));
      WaitedCounts(start, multiplier, n);
      RowSize(n, Threshold(start, multiplier, n));
      assert Conflicts(start, multiplier, restarts) == Conflicts(start, multiplier, n) + last;
    }
  }

  ghost function Row(k: nat, n: nat): set<(nat, nat)> { set j | 0 <= j < n :: (k, j) }

  lemma {:induction false} RowSize(k: nat, n: nat)
    ensures |Row(k, n)| == n
  {
    if n == 0 {
      assert Row(k, n) == {};
    } else {
      RowSize(k, n - 1);
      assert Row(k, n) == Row(k, n - 1) + {(k, n - 1)};
    }
  }

  // Once zero, always zero.
  lemma {:induction false} ZeroStays(start: uint32, multiplier: uint32, n: nat, later: nat)
    requires Threshold(start, multiplier, n) == 0 && n <= later
    ensures Threshold(start, multiplier, later) == 0
  {
    if later == n {
    } else {
      ZeroStays(start, multiplier, n, later - 1);
    }
  }

  // Thirty-two restarts tell everything: after them an even multiplier has made the field
  // vanish, and a field that has vanished asks for no more conflicts.
  lemma WaitedSettles(start: uint32, multiplier: uint32, restarts: nat)
    requires Threshold(start, multiplier, restarts) == 0
    ensures Waited(start, multiplier, restarts) == Waited(start, multiplier, 32)
  {
    if restarts <= 32 {
      WaitedStays(start, multiplier, restarts, 32);
    } else {
      if start == 0 {
        ZeroStays(start, multiplier, 0, 32);
      } else {
        VanishesWhenEven(start, multiplier);
        var q := EvenDivides(start, multiplier, 32);
        FullPower();
      }
      WaitedStays(start, multiplier, 32, restarts);
    }
  }

  lemma {:induction false} WaitedStays(start: uint32, multiplier: uint32, n: nat, later: nat)
    requires Threshold(start, multiplier, n) == 0 && n <= later
    ensures Waited(start, multiplier, later) == Waited(start, multiplier, n)
  {
    if later == n {
    } else {
      ZeroStays(start, multiplier, n, later - 1);
      WaitedStays(start, multiplier, n, later - 1);
    }
  }

  // The field is still positive after any number of conflicts up to this one: it never
  // vanishes, or all restarts until then take more of them.
  predicate Outlasts(start: uint32, multiplier: uint32, conflicts: int) {
    (start >= 1 && multiplier % 2 == 1) || Waited(start, multiplier, 32) > conflicts
  }

  lemma OutlastsExactly(start: uint32, multiplier: uint32, conflicts: int)
    ensures Outlasts(start, multiplier, conflicts) <==>
      forall n: nat :: Threshold(start, multiplier, n) == 0 ==> Waited(start, multiplier, n) > conflicts
  {
    VanishesWhenEven(start, multiplier);
    forall n: nat | Threshold(start, multiplier, n) == 0
      ensures Waited(start, multiplier, n) == Waited(start, multiplier, 32)
    {
      WaitedSettles(start, multiplier, n);
    }
  }

  // ---- The default configuration ----

  // Doubling without wrapping around.
  lemma {:induction false} Doubling(n: nat)
    requires n <= 25
    ensures Threshold(100, 2, n) == 100 * TwoTo(n)
    ensures Waited(100, 2, n) == 100 * TwoTo(n) - 100
  {
    if n == 0 {
    } else {
      assert TwoTo(n) == 2 * TwoTo(n - 1);
      hide Threshold, Waited, TwoTo;
      Doubling(n - 1);
      PowerFits(n);
      DoublingStep(n - 1, TwoTo(n - 1));
    }
  }

  lemma DoublingStep(n: nat, p: nat)
    requires Threshold(100, 2, n) == 100 * p && Waited(100, 2, n) == 100 * p - 100 && 200 * p < UINT32
    ensures Threshold(100, 2, n + 1) == 200 * p && Waited(100, 2, n + 1) == 200 * p - 100
  {
  }

  lemma PowerFits(n: nat)
    requires n <= 25
    ensures TwoTo(n) <= TwoTo(25) == 33554432
  {
    PowerSum(n, 25 - n);
    assert TwoTo(25) == 33554432 by {
      assert TwoTo(5) == 32;
      PowerSum(5, 5);
      PowerSum(10, 10);
      PowerSum(20, 5);
    }
    hide TwoTo;
    Grows(TwoTo(n), TwoTo(25 - n));
  }

  lemma Grows(a: nat, m: nat)
    requires m >= 1
    ensures a <= a * m
  {
  }

  lemma NextThreshold(n: nat, now: nat, waited: nat, next: nat)
    requires Threshold(100, 2, n) == now && Waited(100, 2, n) == waited && next == now * 2 % UINT32
    ensures Threshold(100, 2, n + 1) == next && Waited(100, 2, n + 1) == waited + now
  {
  }

  lemma DefaultAtThirty()
    ensures Threshold(100, 2, 29) == 2147483648 && Threshold(100, 2, 30) == 0
    ensures Waited(100, 2, 30) == 12884901788
  {
    hide Threshold, Waited, TwoTo;
    Doubling(25);
    PowerFits(25);
    NextThreshold(25, 3355443200, 3355443100, 2415919104);
    NextThreshold(26, 2415919104, 6710886300, 536870912);
    NextThreshold(27, 536870912, 9126805404, 1073741824);
    NextThreshold(28, 1073741824, 9663676316, 2147483648);
    NextThreshold(29, 2147483648, 10737418140, 0);
  }

  // With the default configuration the field is zero exactly from the thirtieth restart on,
  // which takes more than twelve thousand million conflicts.
  lemma DefaultVanishes(restarts: nat)
    ensures Threshold(100, 2, restarts) == 0 <==> restarts >= 30
    ensures restarts >= 30 ==> Waited(100, 2, restarts) >= 12884901788
  {
    DefaultAtThirty();
    if restarts >= 30 {
      ZeroStays(100, 2, 30, restarts);
      WaitedGrows(100, 2, 30, restarts);
    } else if Threshold(100, 2, restarts) == 0 {
      ZeroStays(100, 2, restarts, 29);
    }
  }

  lemma {:induction false} WaitedGrows(start: uint32, multiplier: uint32, n: nat, later: nat)
    requires n <= later
    ensures Waited(start, multiplier, n) <= Waited(start, multiplier, later)
  {
    if later == n {
    } else {
      WaitedGrows(start, multiplier, n, later - 1);
    }
  }

  // The literals of sixteen variables have fewer subsets than that.
  lemma SixteenAreFew(n: nat)
    requires n <= 16
    ensures TwoTo(2 * n) < 12884901788
  {
    FullPower();
    PowerSum(2 * n, 32 - 2 * n);
    hide TwoTo;
    Grows(TwoTo(2 * n), TwoTo(32 - 2 * n));
  }
}
