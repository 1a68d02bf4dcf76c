/** Big-endian byte strings: `store_be64` and the numbers such strings denote. */
module BigEndian {
  import opened ModArith

  function Power256(n: nat): (p: nat)
    ensures p > 0
  {
    if n == 0 then 1 else 256 * Power256(n - 1)
  }

  /** The n low bytes of a number, most significant first. */
  function Store(v: nat, n: nat): (s: seq<bv8>)
    ensures |s| == n
    decreases n, v
  {
    if n == 0 then [] else Store(v / 256, n - 1) + [Low(v)]
  }

  function Low(v: nat): (b: bv8)
    ensures b as int == v % 256
  {
    ModTwice(v, 256);
    AsByte(v % 256)
  }

  function AsByte(x: nat): (b: bv8)
    requires x < 256
    ensures b as int == x % 256
  {
    x as bv8
  }

  function Load(s: seq<bv8>): (v: nat) {
    if |s| == 0 then 0 else 256 * Load(s[..|s| - 1]) + s[|s| - 1] as int
  }

  /** The first byte of a string is the most significant. */
  lemma {:induction false} LoadFirst(s: seq<bv8>)
    requires |s| > 0
    ensures Load(s) == s[0] as int * Power256(|s| - 1) + Load(s[1..])
    decreases |s|
  {
    hide Load, Power256;
    var n := |s| - 1;
    LoadUnfold(s);
    PowerUnfold(n);
    if n == 0 {
      LoadUnfold(s[1..]);
      LoadUnfold(s[..0]);
      assert s[..0] == [] && s[1..] == [];
    } else {
      LoadFirst(s[..n]);
      LoadUnfold(s[1..]);
      assert s[1..][..n - 1] == s[..n][1..] && s[1..][n - 1] == s[n] && s[..n][0] == s[0];
      TimesScaled(s[0] as int, Power256(n - 1));
    }
  }

  lemma PowerUnfold(n: nat)
    ensures Power256(n) == if n == 0 then 1 else 256 * Power256(n - 1)
  {
  }

  lemma LoadUnfold(s: seq<bv8>)
    ensures Load(s) == if |s| == 0 then 0 else 256 * Load(s[..|s| - 1]) + s[|s| - 1] as int
  {
  }

  lemma TimesScaled(x: int, p: int)
    ensures 256 * (x * p) == x * (256 * p)
  {
  }

  lemma {:induction false} LoadBelow(s: seq<bv8>)
    ensures Load(s) < Power256(|s|)
  {
    if |s| > 0 {
      LoadBelow(s[..|s| - 1]);
    }
  }

  /** Storing keeps a number modulo 256^n. */
  lemma {:induction false} LoadStore(v: nat, n: nat)
    ensures Load(Store(v, n)) == v % Power256(n)
    decreases n
  {
    if n > 0 {
      var s := Store(v, n);
      assert s[..n - 1] == Store(v / 256, n - 1);
      LoadStore(v / 256, n - 1);
      ModSplit(v, 256, Power256(n - 1));
    }
  }

  lemma {:induction false} StoreLoad(s: seq<bv8>)
    ensures Store(Load(s), |s|) == s
  {
    if |s| > 0 {
      var n := |s| - 1;
      StoreLoad(s[..n]);
      ModUnique(Load(s), Load(s[..n]), s[n] as int, 256);
      assert Low(Load(s)) == s[n];
      assert s == s[..n] + [s[n]];
    }
  }

  lemma ModSplit(v: nat, a: nat, b: nat)
    requires a > 0 && b > 0
    ensures a * b > 0 && v % (a * b) == a * (v / a % b) + v % a
  {
    var q, r := v / a, v % a;
    var x, y := q / b, q % b;
    assert v == a * q + r && q == b * x + y;
    assert a * q == a * (b * x) + a * y;
    assert a * (b * x) == x * (a * b);
    assert a * y <= a * (b - 1);
    assert a * (b - 1) == a * b - a;
    assert a * y >= 0;
    ModUnique(v, x, a * y + r, a * b);
  }

  /** The number shifted right by 8 * n bits. */
  function Shifted(v: nat, n: nat): (w: nat) {
    QuotientIsNatural(v, Power256(n));
    v / Power256(n)
  }

  lemma QuotientIsNatural(v: nat, p: nat)
    requires p > 0
    ensures v / p >= 0
  {
  }

  /** The byte with i bytes below it is the low byte of the number shifted right by 8 * i bits. */
  lemma {:induction false} StoreDigit(v: nat, n: nat, i: nat)
    requires i < n
    ensures Store(v, n)[n - 1 - i] == Low(Shifted(v, i))
    decreases n
  {
    if i > 0 {
      StoreDigit(v / 256, n - 1, i - 1);
      DivSplit(v, 256, Power256(i - 1));
    }
  }

  lemma DivSplit(v: nat, a: nat, b: nat)
    requires a > 0 && b > 0
    ensures a * b > 0 && v / a / b == v / (a * b)
  {
    ModSplit(v, a, b);
    var q := v / a;
    assert v == a * q + v % a && q == b * (q / b) + q % b;
    assert a * q == a * (b * (q / b)) + a * (q % b);
    assert a * (b * (q / b)) == (q / b) * (a * b);
    assert 0 <= v % (a * b) < a * b;
    ModUnique(v, q / b, v % (a * b), a * b);
  }

  /** `store_be64`. */
  method StoreWord64(data: array<bv8>, at: nat, value: nat)
    requires at + 8 <= data.Length && value < Power256(8)
    modifies data
    ensures data[at..at + 8] == Store(value, 8)
    ensures data[..at] == old(data[..at]) && data[at + 8..] == old(data[at + 8..])
    ensures Load(data[at..at + 8]) == value
  {
    hide Store, Power256, Load, Low, Shifted;
    ghost var was, word := data[..], Store(value, 8);
    for i := 0 to 8
      invariant forall j :: 8 - i <= j < 8 ==> data[at + j] == word[j]
      invariant forall j :: 0 <= j < at || at + 8 <= j < data.Length ==> data[j] == was[j]
    {
      StoreDigit(value, 8, i);
      data[at + 7 - i] := Low(Shifted(value, i));
    }
    assert data[at..at + 8] == word;
    LoadStore(value, 8);
    SmallModulus(value, Power256(8));
  }

  /** `store_be32`. */
  method StoreWord32(data: array<bv8>, at: nat, value: nat)
    requires at + 4 <= data.Length
    modifies data
    ensures data[at..at + 4] == Store(value, 4)
    ensures data[..at] == old(data[..at]) && data[at + 4..] == old(data[at + 4..])
  {
    hide Store, Power256, Load, Low, Shifted;
    StoreDigit(value, 4, 3);
    StoreDigit(value, 4, 2);
    StoreDigit(value, 4, 1);
    StoreDigit(value, 4, 0);
    data[at] := Low(Shifted(value, 3));
    data[at + 1] := Low(Shifted(value, 2));
    data[at + 2] := Low(Shifted(value, 1));
    data[at + 3] := Low(Shifted(value, 0));
  }
}
