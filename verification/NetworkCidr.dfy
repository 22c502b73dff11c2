/**
 `computeNetworkCidr` (src/types/network.ts) on the octets of a canonical IPv4
 address.  JavaScript's 32-bit operators work on bit patterns; here a pattern is its
 unsigned value, and the operators are defined bit by bit.
 */
module NetworkCidr {
  import opened Base
  import opened Strings

  function Pow2(k: nat): (p: nat)
    ensures p >= 1
  {
    if k == 0 then 1 else 2 * Pow2(k - 1)
  }

  // ---- 32-bit operators ----

  function And(a: nat, b: nat): nat {
    if a == 0 || b == 0 then 0
    else (if a % 2 == 1 && b % 2 == 1 then 1 else 0) + 2 * And(a / 2, b / 2)
  }

  function Or(a: nat, b: nat): nat
    decreases a + b
  {
    if a == 0 then b
    else if b == 0 then a
    else (if a % 2 == 1 || b % 2 == 1 then 1 else 0) + 2 * Or(a / 2, b / 2)
  }

  /** `x << k`, taken as an unsigned pattern: one bit at a time, the highest bit falls off. */
  function Shl(x: nat, k: nat): nat {
    if k == 0 then x else 2 * Shl(x, k - 1) % 0x1_0000_0000
  }

  /** `x >>> k`. */
  function Shr(x: nat, k: nat): nat {
    if k == 0 then x else Shr(x / 2, k - 1)
  }

  // ---- The function ----

  datatype Octets = Octets(a: byte, b: byte, c: byte, d: byte)

  function IpInt(o: Octets): nat {
    Or(Or(Or(Shl(o.a, 24), Shl(o.b, 16)), Shl(o.c, 8)), o.d)
  }

  function Mask(n: nat): nat
    requires 1 <= n <= 32
  {
    if n == 32 then 0xFFFF_FFFF else Shl(0xFFFF_FFFF, 32 - n)
  }

  /** `x & 0xFF`. */
  function Low8(x: nat): (b: byte)
    ensures b == x % 0x100
  {
    AndLow(x, 8);
    LowIsMod(x, 8);
    Powers();
    And(x, 0xFF)
  }

  function OctetsOf(net: nat): Octets {
    Octets(Low8(Shr(net, 24)), Low8(Shr(net, 16)), Low8(Shr(net, 8)), Low8(net))
  }

  function Network(o: Octets, n: nat): Octets
    requires 1 <= n <= 32
  {
    OctetsOf(And(IpInt(o), Mask(n)))
  }

  function Digit(n: nat): char
    requires n < 10
  {
    "0123456789"[n]
  }

  function Decimal(n: nat): string {
    if n < 10 then [Digit(n)] else Decimal(n / 10) + [Digit(n % 10)]
  }

  function Dotted(o: Octets): string {
    Join([Decimal(o.a), Decimal(o.b), Decimal(o.c), Decimal(o.d)], ".")
  }

  function ComputeNetworkCidr(o: Octets, n: int): Option<string> {
    if n <= 0 || n > 32 then None
    else Some(Dotted(Network(o, n)) + "/" + Decimal(n))
  }

  // ---- Bits ----

  /** The low k bits of x. */
  function Low(x: nat, k: nat): (r: nat)
    ensures r <= x
  {
    if k == 0 then 0 else x % 2 + 2 * Low(x / 2, k - 1)
  }

  lemma {:induction false} LowShr(x: nat, k: nat)
    ensures x == Pow2(k) * Shr(x, k) + Low(x, k) && Low(x, k) < Pow2(k)
  {
    if k > 0 {
      LowShr(x / 2, k - 1);
      DoubleSplit(x, Pow2(k - 1), Shr(x / 2, k - 1), Low(x / 2, k - 1));
    }
  }

  /** Splitting at one bit more. */
  lemma DoubleSplit(x: nat, h: nat, q: nat, l: nat)
    requires x / 2 == h * q + l && l < h
    ensures x == (2 * h) * q + (x % 2 + 2 * l) && x % 2 + 2 * l < 2 * h
  {
    DoubleProduct(h, q);
  }

  lemma DoubleProduct(h: int, q: int)
    ensures (2 * h) * q == 2 * (h * q)
  {
  }

  lemma MulAtLeast(m: int, d: int)
    requires m >= 1 && d >= 1
    ensures m * d >= m
  {
    assert m * d == m * (d - 1) + m;
  }

  lemma DivUnique(x: int, m: int, q: int, r: int)
    requires m >= 1 && 0 <= r < m && x == m * q + r
    ensures x / m == q && x % m == r
  {
    var q', r' := x / m, x % m;
    assert x == m * q' + r';
    assert m * (q - q') == m * q - m * q' && m * (q' - q) == m * q' - m * q;
    if q > q' {
      MulAtLeast(m, q - q');
    } else if q' > q {
      MulAtLeast(m, q' - q);
    }
  }

  /** The bit-by-bit operators are remainder and quotient by a power of two. */
  lemma LowIsMod(x: nat, k: nat)
    ensures Low(x, k) == x % Pow2(k) && Shr(x, k) == x / Pow2(k)
  {
    LowShr(x, k);
    DivUnique(x, Pow2(k), Shr(x, k), Low(x, k));
  }

  lemma {:induction false} AndLow(x: nat, k: nat)
    ensures And(x, Pow2(k) - 1) == Low(x, k)
  {
    if k > 0 {
      AndLow(x / 2, k - 1);
      assert (2 * Pow2(k - 1) - 1) / 2 == Pow2(k - 1) - 1;
    }
  }

  lemma {:induction false} LowOfSmall(x: nat, m: nat)
    requires x < Pow2(m)
    ensures Low(x, m) == x
  {
    if m > 0 {
      LowOfSmall(x / 2, m - 1);
    }
  }

  /** Halving the operands of a mask with a zero lowest bit. */
  lemma AndEven(x: nat, b: nat)
    ensures And(x, 2 * b) == 2 * And(x / 2, b)
  {
  }

  lemma {:induction false} PowMonotone(i: nat, j: nat)
    requires i <= j
    ensures Pow2(i) <= Pow2(j)
  {
    if i < j {
      PowMonotone(i, j - 1);
    }
  }

  /** Masking with the bits from k up to m clears the low k bits of an m-bit number. */
  lemma {:induction false} MaskHighBits(x: nat, m: nat, k: nat, mask: nat)
    requires k <= m && x < Pow2(m) && mask == Pow2(m) - Pow2(k)
    ensures And(x, mask) == x - Low(x, k)
  {
    if k == 0 {
      AndLow(x, m);
      LowOfSmall(x, m);
    } else {
      PowMonotone(k - 1, m - 1);
      var half := Pow2(m - 1) - Pow2(k - 1);
      MaskHighBits(x / 2, m - 1, k - 1, half);
      MaskEven(x, half, mask, Low(x / 2, k - 1));
    }
  }

  lemma MaskEven(x: nat, half: nat, mask: nat, low: nat)
    requires mask == 2 * half && And(x / 2, half) == x / 2 - low
    ensures And(x, mask) == x - (x % 2 + 2 * low)
  {
    AndEven(x, half);
  }

  lemma {:induction false} OrDisjoint(hi: nat, lo: nat, k: nat)
    requires Low(hi, k) == 0 && lo < Pow2(k)
    ensures Or(hi, lo) == hi + lo
    decreases k
  {
    if k > 0 && hi != 0 && lo != 0 {
      OrDisjoint(hi / 2, lo / 2, k - 1);
    }
  }

  /** The value of the address in base 256. */
  function Value(o: Octets): (v: nat)
    ensures v < 0x1_0000_0000
  {
    0x100_0000 * (o.a as int) + 0x1_0000 * (o.b as int) + 0x100 * (o.c as int) + o.d
  }

  lemma {:induction false} PowAdd(i: nat, j: nat)
    ensures Pow2(i + j) == Pow2(i) * Pow2(j)
  {
    if i > 0 {
      PowAdd(i - 1, j);
      DoubleProduct(Pow2(i - 1), Pow2(j));
    }
  }

  lemma Powers()
    ensures Pow2(8) == 0x100 && Pow2(16) == 0x1_0000 && Pow2(24) == 0x100_0000 && Pow2(32) == 0x1_0000_0000
  {
    assert Pow2(4) == 16;
    PowAdd(4, 4);
    PowAdd(8, 8);
    PowAdd(16, 8);
    PowAdd(16, 16);
  }

  lemma {:induction false} ShlSmall(x: nat, k: nat)
    requires Pow2(k) * x < 0x1_0000_0000
    ensures Shl(x, k) == Pow2(k) * x
  {
    if k > 0 {
      var y := Pow2(k - 1) * x;
      DoubleProduct(Pow2(k - 1), x);
      assert Pow2(k) * x == 2 * y;
      ProductNotNegative(Pow2(k - 1), x);
      ShlSmall(x, k - 1);
    }
  }

  lemma ProductNotNegative(p: nat, x: nat)
    ensures p * x >= 0
  {
  }

  lemma ShiftedOctet(x: byte, k: nat, p: nat)
    requires k in {8, 16, 24} && p == Pow2(k)
    ensures Shl(x, k) == p * x
  {
    Powers();
    ShlSmall(x, k);
  }

  /** Or-ing in a value below the lowest bit in use adds it. */
  lemma OrBelow(q: nat, lo: nat, k: nat, p: nat)
    requires p == Pow2(k) && lo < p
    ensures Or(p * q, lo) == p * q + lo
  {
    DivUnique(p * q, p, q, 0);
    LowIsMod(p * q, k);
    OrDisjoint(p * q, lo, k);
  }

  lemma CombineOctets(a: byte, b: byte, c: byte, d: byte)
    ensures Or(Or(Or(0x100_0000 * (a as int), 0x1_0000 * (b as int)), 0x100 * (c as int)), d) ==
            Value(Octets(a, b, c, d))
  {
    Powers();
    OrBelow(a, 0x1_0000 * (b as int), 24, 0x100_0000);
    OrBelow(0x100 * (a as int) + b, 0x100 * (c as int), 16, 0x1_0000);
    OrBelow(0x1_0000 * (a as int) + 0x100 * (b as int) + c, d, 8, 0x100);
  }

  /** Shifting and or-ing the octets gives the base-256 value. */
  lemma IpIntIsValue(o: Octets)
    ensures IpInt(o) == Value(o)
  {
    Powers();
    ShiftedOctet(o.a, 24, 0x100_0000);
    ShiftedOctet(o.b, 16, 0x1_0000);
    ShiftedOctet(o.c, 8, 0x100);
    CombineOctets(o.a, o.b, o.c, o.d);
  }

  lemma {:induction false} ShiftedOnes(k: nat)
    requires k <= 31
    ensures Shl(0xFFFF_FFFF, k) == 0x1_0000_0000 - Pow2(k)
  {
    if k > 0 {
      ShiftedOnes(k - 1);
      HalfRange(k - 1);
      DoubleWrap(Pow2(k - 1));
    }
  }

  lemma HalfRange(k: nat)
    requires k <= 31
    ensures Pow2(k) <= 0x8000_0000
  {
    Powers();
    PowMonotone(k, 31);
  }

  /** The bit that is shifted out. */
  lemma DoubleWrap(p: nat)
    requires 1 <= p <= 0x8000_0000
    ensures 2 * (0x1_0000_0000 - p) % 0x1_0000_0000 == 0x1_0000_0000 - 2 * p
  {
    assert 2 * (0x1_0000_0000 - p) == 0x1_0000_0000 + (0x1_0000_0000 - 2 * p);
  }

  lemma MaskIs(n: nat)
    requires 1 <= n <= 32
    ensures Mask(n) == Pow2(32) - Pow2(32 - n)
  {
    Powers();
    if n < 32 {
      ShiftedOnes(32 - n);
    }
  }

  /** The octets written out recompose to the number they were taken from. */
  lemma OctetsRecompose(net: nat)
    requires net < 0x1_0000_0000
    ensures Value(OctetsOf(net)) == net
  {
    Powers();
    LowIsMod(net, 24);
    LowIsMod(net, 16);
    LowIsMod(net, 8);
    BaseDigits(net);
  }

  lemma BaseDigits(x: nat)
    requires x < 0x1_0000_0000
    ensures x == 0x100_0000 * (x / 0x100_0000 % 0x100) + 0x1_0000 * (x / 0x1_0000 % 0x100) + 0x100 * (x / 0x100 % 0x100) + x % 0x100
  {
    var q1, r0 := x / 0x100, x % 0x100;
    var q2, r1 := q1 / 0x100, q1 % 0x100;
    var q3, r2 := q2 / 0x100, q2 % 0x100;
    DivUnique(x, 0x1_0000, q2, 0x100 * r1 + r0);
    DivUnique(x, 0x100_0000, q3, 0x1_0000 * r2 + 0x100 * r1 + r0);
  }

  lemma NetworkValue(o: Octets, n: nat)
    requires 1 <= n <= 32
    ensures Value(Network(o, n)) == Value(o) - Low(Value(o), 32 - n)
  {
    IpIntIsValue(o);
    MaskIs(n);
    Powers();
    MaskHighBits(Value(o), 32, 32 - n, Mask(n));
    OctetsRecompose(And(IpInt(o), Mask(n)));
  }

  /** The shift-and-mask form clears exactly the host bits. */
  lemma NetworkClearsHostBits(o: Octets, n: nat)
    requires 1 <= n <= 32
    ensures Value(Network(o, n)) == Value(o) - Value(o) % Pow2(32 - n)
  {
    NetworkValue(o, n);
    LowIsMod(Value(o), 32 - n);
  }

  lemma ValueInjective(o: Octets, p: Octets)
    requires Value(o) == Value(p)
    ensures o == p
  {
    var q, r := 0x1_0000 * (o.a as int) + 0x100 * (o.b as int) + o.c, 0x1_0000 * (p.a as int) + 0x100 * (p.b as int) + p.c;
    DivUnique(Value(o), 0x100, q, o.d);
    DivUnique(Value(o), 0x100, r, p.d);
    DivUnique(q, 0x100, 0x100 * (o.a as int) + o.b, o.c);
    DivUnique(q, 0x100, 0x100 * (p.a as int) + p.b, p.c);
  }

  lemma ClearedHalf(x: nat, k: nat)
    requires k > 0
    ensures x - Low(x, k) == 2 * (x / 2 - Low(x / 2, k - 1))
  {
    assert Low(x, k) == x % 2 + 2 * Low(x / 2, k - 1);
  }

  /** Clearing the low bits: what remains is decided by the high bits. */
  lemma {:induction false} ClearedIff(x: nat, y: nat, k: nat)
    ensures x - Low(x, k) == y - Low(y, k) <==> Shr(x, k) == Shr(y, k)
  {
    if k > 0 {
      ClearedIff(x / 2, y / 2, k - 1);
      ClearedHalf(x, k);
      ClearedHalf(y, k);
    }
  }

  lemma LowOfEven(y: nat, k: nat)
    requires k > 0
    ensures Low(2 * y, k) == 2 * Low(y, k - 1)
  {
    assert 2 * y / 2 == y;
  }

  /** Clearing leaves nothing to clear. */
  lemma {:induction false} ClearedIsClear(x: nat, k: nat)
    ensures Low(x - Low(x, k), k) == 0
  {
    if k > 0 {
      ClearedIsClear(x / 2, k - 1);
      ClearedHalf(x, k);
      LowOfEven(x / 2 - Low(x / 2, k - 1), k);
    }
  }

  lemma ClearedTwice(x: nat, k: nat, once: Octets, twice: Octets)
    requires Value(once) == x - Low(x, k) && Value(twice) == Value(once) - Low(Value(once), k)
    ensures twice == once
  {
    ClearedIsClear(x, k);
    ValueInjective(once, twice);
  }

  lemma NetworkIdempotent(o: Octets, n: nat)
    requires 1 <= n <= 32
    ensures Network(Network(o, n), n) == Network(o, n)
  {
    var once := Network(o, n);
    NetworkValue(o, n);
    NetworkValue(once, n);
    ClearedTwice(Value(o), 32 - n, once, Network(once, n));
  }

  lemma SameClearedIff(x: nat, y: nat, k: nat, p: Octets, q: Octets)
    requires Value(p) == x - Low(x, k) && Value(q) == y - Low(y, k)
    ensures p == q <==> x / Pow2(k) == y / Pow2(k)
  {
    ClearedIff(x, y, k);
    LowIsMod(x, k);
    LowIsMod(y, k);
    if Value(p) == Value(q) {
      ValueInjective(p, q);
    }
  }

  /** Two addresses have the same network exactly when their first n bits agree. */
  lemma SameNetworkIff(o: Octets, p: Octets, n: nat)
    requires 1 <= n <= 32
    ensures Network(o, n) == Network(p, n) <==> Value(o) / Pow2(32 - n) == Value(p) / Pow2(32 - n)
  {
    NetworkValue(o, n);
    NetworkValue(p, n);
    SameClearedIff(Value(o), Value(p), 32 - n, Network(o, n), Network(p, n));
  }

  // ---- The printed form ----

  function DigitValue(c: char): int {
    c as int - '0' as int
  }

  function Parse(s: string): int {
    if s == "" then 0 else 10 * Parse(s[..|s| - 1]) + DigitValue(s[|s| - 1])
  }

  lemma {:induction false} DecimalParses(n: nat)
    ensures Parse(Decimal(n)) == n && '.' !in Decimal(n)
  {
    if n >= 10 {
      DecimalParses(n / 10);
      assert Decimal(n)[..|Decimal(n)| - 1] == Decimal(n / 10);
    } else {
      assert Decimal(n)[..0] == "";
    }
  }

  lemma DottedSplits(o: Octets)
    ensures Split(Dotted(o), '.') == [Decimal(o.a), Decimal(o.b), Decimal(o.c), Decimal(o.d)]
  {
    DecimalParses(o.a);
    DecimalParses(o.b);
    DecimalParses(o.c);
    DecimalParses(o.d);
    SplitJoin([Decimal(o.a), Decimal(o.b), Decimal(o.c), Decimal(o.d)], '.');
  }

  lemma DottedInjective(o: Octets, p: Octets)
    requires Dotted(o) == Dotted(p)
    ensures o == p
  {
    DottedSplits(o);
    DottedSplits(p);
    var parts, parts' := Split(Dotted(o), '.'), Split(Dotted(p), '.');
    assert parts[0] == parts'[0] && parts[1] == parts'[1] && parts[2] == parts'[2] && parts[3] == parts'[3];
    DecimalParses(o.a);
    DecimalParses(o.b);
    DecimalParses(o.c);
    DecimalParses(o.d);
    DecimalParses(p.a);
    DecimalParses(p.b);
    DecimalParses(p.c);
    DecimalParses(p.d);
  }

  lemma SameSuffixIff(x: string, y: string, suffix: string)
    ensures x + suffix == y + suffix <==> x == y
  {
    if x + suffix == y + suffix {
      assert x == (x + suffix)[..|x|] && y == (y + suffix)[..|y|];
    }
  }

  lemma DottedSameIff(o: Octets, p: Octets)
    ensures Dotted(o) == Dotted(p) <==> o == p
  {
    if Dotted(o) == Dotted(p) {
      DottedInjective(o, p);
    }
  }

  // ---- Reading the printed form back ----

  /** The number that a text of digits stands for, without superfluous zeros. */
  predicate Denotes(text: string, n: nat) {
    && text != "" && (forall i :: 0 <= i < |text| ==> '0' <= text[i] <= '9')
    && Parse(text) == n && (text[0] != '0' || text == "0")
  }

  lemma DigitIs(n: nat)
    requires n < 10
    ensures '0' <= Digit(n) <= '9' && DigitValue(Digit(n)) == n
  {
  }

  lemma {:induction false} DecimalDenotes(n: nat)
    ensures Denotes(Decimal(n), n) && (n > 0 ==> Decimal(n)[0] != '0')
  {
    DigitIs(n % 10);
    if n >= 10 {
      var text := Decimal(n);
      DecimalDenotes(n / 10);
      assert text == Decimal(n / 10) + [Digit(n % 10)];
      assert text[..|text| - 1] == Decimal(n / 10) && text[|text| - 1] == Digit(n % 10);
    } else {
      assert Decimal(n)[..0] == "";
    }
  }

  /** Four numbers between dots, a slash and the length. */
  predicate PrintsNetwork(text: string, net: Octets, n: nat) {
    var parts := Split(text, '/');
    && |parts| == 2 && Denotes(parts[1], n)
    && var numbers := Split(parts[0], '.');
       && |numbers| == 4
       && Denotes(numbers[0], net.a) && Denotes(numbers[1], net.b)
       && Denotes(numbers[2], net.c) && Denotes(numbers[3], net.d)
  }

  lemma DigitsOnly(text: string, n: nat, c: char)
    requires Denotes(text, n) && (c == '/' || c == '.')
    ensures c !in text
  {
  }

  lemma DottedHasNoSlash(o: Octets)
    ensures '/' !in Dotted(o)
  {
    DecimalDenotes(o.a);
    DecimalDenotes(o.b);
    DecimalDenotes(o.c);
    DecimalDenotes(o.d);
    DigitsOnly(Decimal(o.a), o.a, '/');
    DigitsOnly(Decimal(o.b), o.b, '/');
    DigitsOnly(Decimal(o.c), o.c, '/');
    DigitsOnly(Decimal(o.d), o.d, '/');
    DottedIs(o);
  }

  lemma DottedIs(o: Octets)
    ensures Dotted(o) == Decimal(o.a) + "." + (Decimal(o.b) + "." + (Decimal(o.c) + "." + Decimal(o.d)))
  {
    var parts := [Decimal(o.a), Decimal(o.b), Decimal(o.c), Decimal(o.d)];
    JoinMore(parts, ".");
    JoinMore(parts[1..], ".");
    JoinMore(parts[2..], ".");
    assert parts[1..][1..] == parts[2..] && parts[2..][1..] == [parts[3]];
  }

  /**
   For every address and length the text is refused exactly outside 1 to 32, and
   otherwise prints, in plain decimal numbers, the octets of the address with its
   host bits cleared and that length.
   */
  lemma CidrIsExact(o: Octets, n: int)
    ensures ComputeNetworkCidr(o, n).Some? <==> 1 <= n <= 32
    ensures 1 <= n <= 32 ==>
              exists net :: Value(net) == Value(o) - Value(o) % Pow2(32 - n)
                && PrintsNetwork(ComputeNetworkCidr(o, n).value, net, n)
  {
    if 1 <= n <= 32 {
      var net := Network(o, n);
      NetworkClearsHostBits(o, n);
      CidrPrints(net, n);
    }
  }

  lemma CidrPrints(net: Octets, n: nat)
    ensures PrintsNetwork(Dotted(net) + "/" + Decimal(n), net, n)
  {
    DottedHasNoSlash(net);
    DecimalDenotes(n);
    DigitsOnly(Decimal(n), n, '/');
    SplitOne(Decimal(n), '/');
    SplitMore(Dotted(net), Decimal(n), '/');
    DottedSplits(net);
    DecimalDenotes(net.a);
    DecimalDenotes(net.b);
    DecimalDenotes(net.c);
    DecimalDenotes(net.d);
  }

  /** Two addresses print the same CIDR exactly when their first n bits agree. */
  lemma SameCidrIff(o: Octets, p: Octets, n: nat)
    requires 1 <= n <= 32
    ensures ComputeNetworkCidr(o, n) == ComputeNetworkCidr(p, n) <==>
            Value(o) / Pow2(32 - n) == Value(p) / Pow2(32 - n)
  {
    SameNetworkIff(o, p, n);
    DottedSameIff(Network(o, n), Network(p, n));
    SameSuffixIff(Dotted(Network(o, n)) + "/", Dotted(Network(p, n)) + "/", Decimal(n));
    SameSuffixIff(Dotted(Network(o, n)), Dotted(Network(p, n)), "/");
  }

  /** The subnet string built by the mobile VPN code from the dotted address. */
  function VpnSubnet(ip: string): string
    requires |Split(ip, '.')| >= 3
  {
    Join(Split(ip, '.')[..3], ".") + ".0/24"
  }

  lemma LowestOctetCleared(o: Octets, p: Octets)
    requires Value(p) == Value(o) - Value(o) % 0x100
    ensures p == Octets(o.a, o.b, o.c, 0)
  {
    DivUnique(Value(o), 0x100, 0x1_0000 * (o.a as int) + 0x100 * (o.b as int) + o.c, o.d);
    ValueInjective(p, Octets(o.a, o.b, o.c, 0));
  }

  lemma NetworkAt24(o: Octets)
    ensures Network(o, 24) == Octets(o.a, o.b, o.c, 0)
  {
    Powers();
    NetworkClearsHostBits(o, 24);
    LowestOctetCleared(o, Network(o, 24));
  }

  lemma JoinThree(a: string, b: string, c: string)
    ensures Join([a, b, c], ".") == a + "." + b + "." + c
    ensures Join([a, b, c, "0"], ".") == a + "." + b + "." + c + ".0"
  {
    assert [a, b, c][1..] == [b, c] && [b, c][1..] == [c];
    assert [a, b, c, "0"][1..] == [b, c, "0"] && [b, c, "0"][1..] == [c, "0"] && [c, "0"][1..] == ["0"];
    assert Join([b, c], ".") == b + "." + c;
    assert Join([c, "0"], ".") == c + ".0";
    assert Join([b, c, "0"], ".") == b + "." + (c + ".0");
    assert a + "." + b + "." + c == a + "." + (b + "." + c);
    assert a + "." + b + "." + c + ".0" == a + "." + (b + "." + (c + ".0"));
  }

  lemma PrintZeroAnd24()
    ensures Decimal(0) == "0" && Decimal(24) == "24"
  {
    assert Decimal(24) == Decimal(2) + [Digit(4)];
  }

  /** The first three numbers of the dotted form. */
  function Prefix(o: Octets): string {
    Decimal(o.a) + "." + Decimal(o.b) + "." + Decimal(o.c)
  }

  lemma VpnSubnetIs(o: Octets)
    ensures |Split(Dotted(o), '.')| >= 3 && VpnSubnet(Dotted(o)) == Prefix(o) + ".0/24"
  {
    DottedSplits(o);
    var a, b, c := Decimal(o.a), Decimal(o.b), Decimal(o.c);
    assert Split(Dotted(o), '.')[..3] == [a, b, c];
    JoinThree(a, b, c);
  }

  lemma CidrAt24Is(o: Octets)
    ensures ComputeNetworkCidr(o, 24) == Some(Prefix(o) + ".0" + "/" + "24")
  {
    NetworkAt24(o);
    PrintZeroAnd24();
    JoinThree(Decimal(o.a), Decimal(o.b), Decimal(o.c));
  }

  /** For a /24 the two places of the program build the same text. */
  lemma Cidr24IsVpnSubnet(o: Octets)
    ensures |Split(Dotted(o), '.')| >= 3 && ComputeNetworkCidr(o, 24) == Some(VpnSubnet(Dotted(o)))
  {
    VpnSubnetIs(o);
    CidrAt24Is(o);
    assert Prefix(o) + ".0" + "/" + "24" == Prefix(o) + ".0/24";
  }
}
