/** The X25519 function as section 5 of RFC 7748 writes it: one lagged swap flag, two conditional swaps. */
module Rfc7748 {
  import opened Field

  const A24: int := 121665

  datatype Ladder = Ladder(x2: int, z2: int, x3: int, z3: int)

  ghost function Swap(selected: bool, s: Ladder): Ladder {
    if selected then Ladder(s.x3, s.z3, s.x2, s.z2) else s
  }

  /** One round between the swaps. */
  ghost function Round(u: int, s: Ladder): Ladder {
    var a := Add(s.x2, s.z2);
    var aa := Square(a);
    var b := Sub(s.x2, s.z2);
    var bb := Square(b);
    var e := Sub(aa, bb);
    var c := Add(s.x3, s.z3);
    var d := Sub(s.x3, s.z3);
    var da := Mul(d, a);
    var cb := Mul(c, b);
    Ladder(Mul(aa, bb), Mul(e, Add(aa, Mul(A24, e))), Square(Add(da, cb)), Mul(u, Square(Sub(da, cb))))
  }

  ghost function Power2(n: nat): (p: int)
    ensures p > 0
  {
    if n == 0 then 1 else 2 * Power2(n - 1)
  }

  ghost predicate Bit(k: int, t: nat) {
    (k / Power2(t)) % 2 == 1
  }

  ghost function Start(u: int): Ladder {
    Ladder(1, 0, u, 1)
  }

  datatype Lagged = Lagged(state: Ladder, swap: bool)

  /** State of the RFC's loop once bits 254 down to t are done. */
  ghost function LaggedLoop(k: int, u: int, t: nat): Lagged
    requires t <= 255
    decreases 255 - t, k, u
  {
    if t == 255 then Lagged(Start(u), false)
    else
      var before := LaggedLoop(k, u, t + 1);
      var kt := Bit(k, t);
      Lagged(Round(u, Swap(before.swap != kt, before.state)), kt)
  }

  /** The RFC's result: the last swap, then x_2 times z_2 to the power p - 2. */
  ghost function X25519(k: int, u: int): int {
    var end := LaggedLoop(k, u, 0);
    var s := Swap(end.swap, end.state);
    Mul(s.x2, Pow(s.z2, P - 2))
  }

  /** The loop of `curve_scalar_mult`: it swaps before a round and swaps back after it. */
  ghost function EagerLoop(k: int, u: int, t: nat): Ladder
    requires t <= 255
    decreases 255 - t, k, u
  {
    if t == 255 then Start(u)
    else Swap(Bit(k, t), Round(u, Swap(Bit(k, t), EagerLoop(k, u, t + 1))))
  }

  /** The eager ladder is the lagged ladder with the pending swap carried out. */
  lemma {:induction false} EagerIsLagged(k: int, u: int, t: nat)
    requires t <= 255
    ensures var lagged := LaggedLoop(k, u, t);
      EagerLoop(k, u, t) == Swap(lagged.swap, lagged.state)
    decreases 255 - t
  {
    if t < 255 {
      EagerIsLagged(k, u, t + 1);
      var before := LaggedLoop(k, u, t + 1);
      assert Swap(Bit(k, t), Swap(before.swap, before.state)) == Swap(before.swap != Bit(k, t), before.state);
    }
  }
}
