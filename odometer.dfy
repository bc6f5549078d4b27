/**
 * The enumeration order of a composer: a mixed-radix counter whose digits
 * are the attributes' cursors, the first attribute being the fastest digit,
 * and whose radices are the numbers of alternatives.
 */
module Odometer {

  /** Every cursor lies below its radix (so every radix is positive). */
  predicate InRange(cs: seq<nat>, rs: seq<nat>) {
    |cs| == |rs| && forall i | 0 <= i < |cs| :: cs[i] < rs[i]
  }

  predicate Positive(rs: seq<nat>) {
    forall i | 0 <= i < |rs| :: rs[i] > 0
  }

  /** The number of combinations. */
  function Total(rs: seq<nat>): nat {
    if rs == [] then 1 else rs[0] * Total(rs[1..])
  }

  lemma {:induction false} TotalPositive(rs: seq<nat>)
    requires Positive(rs)
    ensures Total(rs) > 0
  {
    if rs != [] {
      TotalPositive(rs[1..]);
    }
  }

  /** The position of a combination in enumeration order. */
  function Index(cs: seq<nat>, rs: seq<nat>): nat
    requires |cs| == |rs|
  {
    if cs == [] then 0 else cs[0] + rs[0] * Index(cs[1..], rs[1..])
  }

  /** The combination at a position: the inverse of Index. */
  function Digits(n: nat, rs: seq<nat>): (cs: seq<nat>)
    requires Positive(rs)
    ensures |cs| == |rs|
    decreases |rs|
  {
    if rs == [] then []
    else
      assert Positive(rs[1..]) by {
        forall i | 0 <= i < |rs| - 1 ensures rs[1..][i] > 0 {
          assert rs[1..][i] == rs[i + 1];
        }
      }
      [n % rs[0]] + Digits(n / rs[0], rs[1..])
  }

  function Zeros(n: nat): (cs: seq<nat>)
    ensures |cs| == n && forall i | 0 <= i < n :: cs[i] == 0
  {
    seq(n, i => 0)
  }

  /** The result of one advance of the counter. */
  datatype Stepped = Stepped(moved: bool, cursors: seq<nat>)

  /**
   * pathcomp_next on the cursors: the first cursor that can move forward
   * does so and the step reports true; every cursor before it has wrapped
   * to 0. When none can move, all have wrapped and the step reports false.
   */
  function Step(cs: seq<nat>, rs: seq<nat>): (r: Stepped)
    requires |cs| == |rs|
    ensures |r.cursors| == |cs|
  {
    if cs == [] then Stepped(false, [])
    else if cs[0] + 1 < rs[0] then Stepped(true, [cs[0] + 1] + cs[1..])
    else
      var rest := Step(cs[1..], rs[1..]);
      Stepped(rest.moved, [0] + rest.cursors)
  }

  /** Every combination has a position below the number of combinations. */
  lemma {:induction false} IndexBound(cs: seq<nat>, rs: seq<nat>)
    requires InRange(cs, rs)
    ensures Index(cs, rs) < Total(rs)
  {
    if cs != [] {
      IndexBound(cs[1..], rs[1..]);
      BoundArith(cs[0], rs[0], Index(cs[1..], rs[1..]), Total(rs[1..]));
    }
  }

  lemma BoundArith(c: nat, r: nat, i: nat, t: nat)
    requires c < r && i < t
    ensures c + r * i < r * t
  {
    MulMono(r, i + 1, t);
    MulAddOne(r, i);
  }

  lemma MulMono(a: nat, x: nat, y: nat)
    requires x <= y
    ensures a * x <= a * y
  {
  }

  /** The all-zero combination is the first one. */
  lemma {:induction false} IndexZeros(rs: seq<nat>)
    ensures Index(Zeros(|rs|), rs) == 0
  {
    if rs != [] {
      assert Zeros(|rs|)[1..] == Zeros(|rs| - 1);
      IndexZeros(rs[1..]);
    }
  }

  /**
   * A step moves to the next position, or reports false exactly at the last
   * position and wraps around to the first combination.
   */
  lemma {:induction false} StepAdvances(cs: seq<nat>, rs: seq<nat>)
    requires InRange(cs, rs)
    ensures InRange(Step(cs, rs).cursors, rs)
    ensures Step(cs, rs).moved <==> Index(cs, rs) + 1 < Total(rs)
    ensures Step(cs, rs).moved ==> Index(Step(cs, rs).cursors, rs) == Index(cs, rs) + 1
    ensures !Step(cs, rs).moved ==> Step(cs, rs).cursors == Zeros(|cs|)
  {
    if cs != [] {
      IndexBound(cs[1..], rs[1..]);
      if cs[0] + 1 < rs[0] {
        ForwardArith(cs[0], rs[0], Index(cs[1..], rs[1..]), Total(rs[1..]));
      } else {
        StepAdvances(cs[1..], rs[1..]);
        StepCarries(cs, rs, Step(cs[1..], rs[1..]));
      }
    }
  }

  lemma ForwardArith(c: nat, r: nat, i: nat, t: nat)
    requires c + 1 < r && i < t
    ensures c + 1 + r * i < r * t
  {
    MulMono(r, i + 1, t);
  }

  /** The carry case: the first cursor is on its last alternative. */
  lemma StepCarries(cs: seq<nat>, rs: seq<nat>, rest: Stepped)
    requires InRange(cs, rs) && cs != [] && cs[0] + 1 == rs[0]
    requires rest == Step(cs[1..], rs[1..])
    requires InRange(rest.cursors, rs[1..])
    requires Index(cs[1..], rs[1..]) < Total(rs[1..])
    requires rest.moved <==> Index(cs[1..], rs[1..]) + 1 < Total(rs[1..])
    requires rest.moved ==> Index(rest.cursors, rs[1..]) == Index(cs[1..], rs[1..]) + 1
    requires !rest.moved ==> rest.cursors == Zeros(|cs| - 1)
    ensures Step(cs, rs) == Stepped(rest.moved, [0] + rest.cursors)
    ensures InRange([0] + rest.cursors, rs)
    ensures rest.moved <==> Index(cs, rs) + 1 < Total(rs)
    ensures rest.moved ==> Index([0] + rest.cursors, rs) == Index(cs, rs) + 1
    ensures !rest.moved ==> [0] + rest.cursors == Zeros(|cs|)
  {
    CarryRange(rs, rest.cursors);
    CarryIndex(cs, rs, rest.moved);
    if rest.moved {
      CarryMoved(cs, rs, rest.cursors);
    } else {
      assert [0] + Zeros(|cs| - 1) == Zeros(|cs|);
    }
  }

  /** In the carry case, a next position exists exactly when one exists
      for the other cursors. */
  lemma CarryIndex(cs: seq<nat>, rs: seq<nat>, moved: bool)
    requires |cs| == |rs| > 0 && cs[0] + 1 == rs[0]
    requires Index(cs[1..], rs[1..]) < Total(rs[1..])
    requires moved <==> Index(cs[1..], rs[1..]) + 1 < Total(rs[1..])
    ensures moved <==> Index(cs, rs) + 1 < Total(rs)
  {
    var i', t' := Index(cs[1..], rs[1..]), Total(rs[1..]);
    assert Index(cs, rs) == cs[0] + rs[0] * i';
    assert Total(rs) == rs[0] * t';
    CarryArith(rs[0], i', t');
  }

  lemma CarryRange(rs: seq<nat>, rest: seq<nat>)
    requires Positive(rs) && rs != [] && InRange(rest, rs[1..])
    ensures InRange([0] + rest, rs)
  {
    var next := [0] + rest;
    forall i | 0 <= i < |next| ensures next[i] < rs[i] {
      if i > 0 {
        assert next[i] == rest[i - 1] && rs[1..][i - 1] == rs[i];
      }
    }
  }

  lemma CarryMoved(cs: seq<nat>, rs: seq<nat>, rest: seq<nat>)
    requires |cs| == |rs| > 0 && cs[0] + 1 == rs[0] && |rest| == |cs| - 1
    requires Index(rest, rs[1..]) == Index(cs[1..], rs[1..]) + 1
    ensures Index([0] + rest, rs) == Index(cs, rs) + 1
  {
    var next := [0] + rest;
    assert next[1..] == rest;
    CarryShift(rs[0], Index(cs[1..], rs[1..]), Index(rest, rs[1..]));
  }

  lemma CarryShift(r: nat, i: nat, j: nat)
    requires 0 < r && j == i + 1
    ensures 0 + r * j == (r - 1) + r * i + 1
  {
    MulAddOne(r, i);
  }

  lemma MulAddOne(r: nat, i: nat)
    ensures r * (i + 1) == r * i + r
  {
  }

  lemma CarryArith(r: nat, i: nat, t: nat)
    requires 0 < r && i < t
    ensures (r - 1) + r * i + 1 == r * (i + 1)
    ensures i + 1 < t <==> r * (i + 1) < r * t
  {
    if i + 1 < t {
      MulMono(r, i + 2, t);
    } else {
      assert i + 1 == t;
    }
  }

  /** Digits gives a combination in range at the requested position. */
  lemma {:induction false} IndexDigits(n: nat, rs: seq<nat>)
    requires Positive(rs) && n < Total(rs)
    ensures InRange(Digits(n, rs), rs)
    ensures Index(Digits(n, rs), rs) == n
    decreases |rs|
  {
    if rs != [] {
      var q := n / rs[0];
      assert q < Total(rs[1..]) by {
        if q >= Total(rs[1..]) {
          MulMono(rs[0], Total(rs[1..]), q);
        }
      }
      IndexDigits(q, rs[1..]);
      assert Digits(n, rs)[1..] == Digits(q, rs[1..]);
    }
  }

  /** A combination in range is the digits of its position. */
  lemma {:induction false} DigitsIndex(cs: seq<nat>, rs: seq<nat>)
    requires InRange(cs, rs)
    ensures Digits(Index(cs, rs), rs) == cs
  {
    if cs != [] {
      var n := Index(cs, rs);
      var i' := Index(cs[1..], rs[1..]);
      DivMod(cs[0], rs[0], i');
      DigitsIndex(cs[1..], rs[1..]);
      assert cs == [cs[0]] + cs[1..];
    }
  }

  lemma DivMod(c: nat, r: nat, q: nat)
    requires c < r
    ensures (c + r * q) % r == c && (c + r * q) / r == q
  {
    var n := c + r * q;
    var d, m := n / r, n % r;
    assert n == r * d + m && 0 <= m < r;
    if d > q {
      MulAddOne(r, q);
      MulMono(r, q + 1, d);
    } else if d < q {
      MulAddOne(r, d);
      MulMono(r, d + 1, q);
    }
  }

  /** The step seen one cursor at a time: the cursors before the first one
      that can move have wrapped to 0, that one moves forward, and the rest
      stay. */
  lemma {:induction false} StepMovesFirst(cs: seq<nat>, rs: seq<nat>, k: nat)
    requires |cs| == |rs| && k < |cs|
    requires forall j | 0 <= j < k :: cs[j] + 1 >= rs[j]
    requires cs[k] + 1 < rs[k]
    ensures Step(cs, rs).moved
    ensures Step(cs, rs).cursors == Zeros(k) + [cs[k] + 1] + cs[k + 1..]
  {
    if k > 0 {
      StepMovesFirst(cs[1..], rs[1..], k - 1);
      assert [0] + Zeros(k - 1) == Zeros(k);
      assert cs[1..][k - 1 + 1..] == cs[k + 1..];
    }
  }

  /** When no cursor can move, every one wraps and the step reports false. */
  lemma {:induction false} StepWrapsAll(cs: seq<nat>, rs: seq<nat>)
    requires |cs| == |rs|
    requires forall j | 0 <= j < |cs| :: cs[j] + 1 >= rs[j]
    ensures Step(cs, rs) == Stepped(false, Zeros(|cs|))
  {
    if cs != [] {
      StepWrapsAll(cs[1..], rs[1..]);
      assert [0] + Zeros(|cs| - 1) == Zeros(|cs|);
    }
  }
}
