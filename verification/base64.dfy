/** Base64 (section 4 of RFC 4648) over an accumulator that is never cleared. */
module Base64 {
  import opened Bytes

  const PAD: byte := 61
  const WORD: int := 0x1_0000_0000_0000_0000

  // ------------------------------------------------------------ the alphabet

  function EncodeDigit(v: int): byte
    requires 0 <= v < 64
  {
    if v <= 25 then 65 + v
    else if v <= 51 then 97 + v - 26
    else if v <= 61 then 48 + v - 52
    else if v == 62 then 43
    else 47
  }

  function DecodeDigit(c: byte): (r: Outcome<int>)
    ensures r.Ok? ==> 0 <= r.value < 64
  {
    if 65 <= c <= 90 then Ok(c - 65)
    else if 97 <= c <= 122 then Ok(c - 97 + 26)
    else if 48 <= c <= 57 then Ok(c - 48 + 52)
    else if c == 43 then Ok(62)
    else if c == 47 then Ok(63)
    else Throw(UnrecognizedChar)
  }

  lemma DigitRoundTrip(v: int)
    requires 0 <= v < 64
    ensures DecodeDigit(EncodeDigit(v)) == Ok(v) && EncodeDigit(v) != PAD && EncodeDigit(v) != ',' as int
  {
  }

  // ------------------------------------------------------------ the encoding of RFC 4648

  /** The sextets of one, two or three octets, the last one filled up with zero bits. */
  function Sextets(d: bytes): (v: seq<int>)
    requires 1 <= |d| <= 3
    ensures |v| == |d| + 1 && forall i :: 0 <= i < |v| ==> 0 <= v[i] < 64
  {
    var b0: int := d[0];
    if |d| == 1 then [b0 / 4, b0 % 4 * 16]
    else
      var b1: int := d[1];
      if |d| == 2 then [b0 / 4, b0 % 4 * 16 + b1 / 16, b1 % 16 * 4]
      else
        var b2: int := d[2];
        [b0 / 4, b0 % 4 * 16 + b1 / 16, b1 % 16 * 4 + b2 / 64, b2 % 64]
  }

  function EncodeDigits(v: seq<int>): (s: bytes)
    requires forall i :: 0 <= i < |v| ==> 0 <= v[i] < 64
    ensures |s| == |v| && forall i :: 0 <= i < |v| ==> s[i] == EncodeDigit(v[i])
  {
    if v == [] then [] else [EncodeDigit(v[0])] + EncodeDigits(v[1..])
  }

  function Padding(n: nat): bytes {
    if n == 0 then [] else [PAD] + Padding(n - 1)
  }

  /** Group by group: four characters for three octets, padded at the end. */
  function EncodeSpec(d: bytes): bytes {
    if d == [] then []
    else if |d| < 3 then EncodeDigits(Sextets(d)) + Padding(3 - |d|)
    else EncodeDigits(Sextets(d[..3])) + EncodeSpec(d[3..])
  }

  /** Table 1 of RFC 4648. */
  function DigitOfRfc4648(v: nat): byte
    requires v < 64
  {
    if v < 26 then Lit("ABCDEFGHIJKLMNOPQRSTUVWXYZ")[v]
    else if v < 52 then Lit("abcdefghijklmnopqrstuvwxyz")[v - 26]
    else if v < 62 then Lit("0123456789")[v - 52]
    else Lit("+/")[v - 62]
  }

  lemma DecimalDigit(v: nat)
    requires v < 10
    ensures Lit("0123456789")[v] == 48 + v
  {
  }

  lemma EncodesAsInTable(v: nat)
    requires v < 64
    ensures EncodeDigit(v) == DigitOfRfc4648(v)
  {
    hide Lit;
    if v < 26 {
      UpperCase(v);
    } else if v < 52 {
      LowerCase(v - 26);
    } else if v < 62 {
      DecimalDigit(v - 52);
    } else {
      PlusAndSlash();
    }
  }

  lemma PlusAndSlash()
    ensures Lit("+/") == [43, 47]
  {
  }

  lemma DecodesOnlyDigits(c: byte)
    ensures DecodeDigit(c).Ok? ==> EncodeDigit(DecodeDigit(c).value) == c
  {
  }

  /** The alphabet is that of the table, and nothing else is a digit. */
  lemma AlphabetOfRfc4648(c: byte, v: nat)
    requires v < 64
    ensures EncodeDigit(v) == DigitOfRfc4648(v)
    ensures DecodeDigit(c) == Ok(v) <==> c == DigitOfRfc4648(v)
    ensures DecodeDigit(c).Throw? <==> forall k: nat :: k < 64 ==> c != DigitOfRfc4648(k)
  {
    hide *;
    DigitRoundTrip(v);
    EncodesAsInTable(v);
    DecodesOnlyDigits(c);
    if DecodeDigit(c).Ok? {
      EncodesAsInTable(DecodeDigit(c).value);
    } else {
      forall k: nat | k < 64 ensures c != DigitOfRfc4648(k) {
        DigitRoundTrip(k);
        EncodesAsInTable(k);
      }
    }
  }

  /**
   * Section 4 of RFC 4648: three octets are four digits of six bits, the most significant
   * first; one or two at the end are filled up with zero bits, and padded.
   */
  lemma EncodingOfRfc4648(d: bytes, rest: bytes)
    ensures EncodeSpec([]) == []
    ensures |d| == 1 ==>
      EncodeSpec(d) == EncodeDigits([d[0] as int / 4, d[0] as int % 4 * 16]) + Lit("==")
    ensures |d| == 2 ==>
      var n := d[0] as int * 256 + d[1] as int;
      EncodeSpec(d) == EncodeDigits([n / 1024, n / 16 % 64, n % 16 * 4]) + Lit("=")
    ensures |d| == 3 ==>
      var n := d[0] as int * 65536 + d[1] as int * 256 + d[2] as int;
      EncodeSpec(d + rest) == EncodeDigits([n / 262144, n / 4096 % 64, n / 64 % 64, n % 64]) + EncodeSpec(rest)
  {
    if |d| == 1 {
      OnePadding();
    } else if |d| == 2 {
      OnePadding();
      TwoOctets(d);
    } else if |d| == 3 {
      assert (d + rest)[..3] == d && (d + rest)[3..] == rest;
      GroupFirst(d + rest);
      ThreeOctets(d);
    }
    hide EncodeDigits;
  }

  lemma OnePadding()
    ensures Padding(1) == Lit("=") && Padding(2) == Lit("==")
  {
    assert Padding(0) == [];
    assert Padding(1) == [PAD];
  }

  lemma DivideBy(n: int, d: int, q: int, r: int)
    requires 0 < d && n == q * d + r && 0 <= r < d
    ensures n / d == q && n % d == r
  {
    Quotients(q, r, n / d, n % d, d, q * d, n / d * d);
  }

  lemma TwoOctets(d: bytes)
    requires |d| == 2
    ensures
      var n := d[0] as int * 256 + d[1] as int;
      Sextets(d) == [n / 1024, n / 16 % 64, n % 16 * 4]
  {
    var b0: int, b1: int := d[0], d[1];
    var n := b0 * 256 + b1;
    var h, l, x, y := b0 / 4, b0 % 4, b1 / 16, b1 % 16;
    DivideBy(n, 1024, h, l * 256 + b1);
    DivideBy(n, 16, b0 * 16 + x, y);
    DivideBy(b0 * 16 + x, 64, h, l * 16 + x);
  }

  lemma ThreeOctets(d: bytes)
    requires |d| == 3
    ensures
      var n := d[0] as int * 65536 + d[1] as int * 256 + d[2] as int;
      Sextets(d) == [n / 262144, n / 4096 % 64, n / 64 % 64, n % 64]
  {
    var b0: int, b1: int, b2: int := d[0], d[1], d[2];
    var n := b0 * 65536 + b1 * 256 + b2;
    var h, l, x, y, u, w := b0 / 4, b0 % 4, b1 / 16, b1 % 16, b2 / 64, b2 % 64;
    DivideBy(n, 262144, h, l * 65536 + b1 * 256 + b2);
    DivideBy(n, 4096, b0 * 16 + x, y * 256 + b2);
    DivideBy(b0 * 16 + x, 64, h, l * 16 + x);
    DivideBy(n, 64, b0 * 1024 + b1 * 4 + u, w);
    DivideBy(b0 * 1024 + b1 * 4 + u, 64, b0 * 16 + x, y * 4 + u);
  }

  // ------------------------------------------------------------ the decoder

  function Pow2(n: nat): (p: nat)
    ensures p > 0
  {
    if n == 0 then 1 else 2 * Pow2(n - 1)
  }

  /** `get_msb`: the top `width` of the low `total` bits. */
  function GetMsb(num: int, total: int, width: int): (v: int)
    requires 0 <= num && 0 <= width <= total
    ensures 0 <= v < Pow2(width)
  {
    num / Pow2(total - width) % Pow2(width)
  }

  lemma {:induction false} Pow2Sum(a: nat, b: nat)
    ensures Pow2(a + b) == Pow2(a) * Pow2(b)
  {
    if a > 0 {
      Pow2Sum(a - 1, b);
      Associate(2, Pow2(a - 1), Pow2(b));
    }
  }

  lemma {:induction false} DivideOut(q: nat, x: nat, d: int)
    requires d > 0
    ensures (q * d + x) / d == q + x / d && (q * d + x) % d == x % d
  {
    if q > 0 {
      DivideOut(q - 1, x, d);
      var m := (q - 1) * d + x;
      Distribute(q - 1, 1, d);
      assert q * d + x == m + d;
      OneMore(m, d);
    }
  }

  lemma Distribute(a: int, b: int, d: int)
    ensures (a + b) * d == a * d + b * d
  {
  }

  lemma OneMore(m: int, d: int)
    requires d > 0
    ensures (m + d) / d == m / d + 1 && (m + d) % d == m % d
  {
    var a, r, a1, r1 := m / d, m % d, (m + d) / d, (m + d) % d;
    Distribute(a, 1, d);
    Quotients(a + 1, r, a1, r1, d, (a + 1) * d, a1 * d);
  }

  lemma Quotients(a: int, r: int, b: int, s: int, d: int, ad: int, bd: int)
    requires 0 <= r < d && 0 <= s < d && ad == a * d && bd == b * d && ad + r == bd + s
    ensures a == b && r == s
  {
    if a < b {
      Distribute(a, b - a, d);
      AtLeast(b - a, d);
    } else if b < a {
      Distribute(b, a - b, d);
      AtLeast(a - b, d);
    }
  }

  lemma {:induction false} AtLeast(k: nat, d: nat)
    requires k >= 1
    ensures k * d >= d
  {
    if k > 1 {
      AtLeast(k - 1, d);
      Distribute(k - 1, 1, d);
    }
  }

  /** The result depends on the low `total` bits alone: whatever wraps above them does not matter. */
  lemma GetMsbOfLowBits(num: int, total: int, width: int)
    requires 0 <= num && 0 <= width <= total
    ensures GetMsb(num, total, width) == GetMsb(num % Pow2(total), total, width)
  {
    var p, w := Pow2(total - width), Pow2(width);
    Pow2Sum(total - width, width);
    hide Pow2;
    TwoDivisions(num, p, w);
  }

  lemma TwoDivisions(num: nat, p: nat, w: nat)
    requires p > 0 && w > 0
    ensures p * w > 0 && num / p % w == num % (p * w) / p % w
  {
    assert p * w > 0;
    var q: nat, r: nat := num / (p * w), num % (p * w);
    assert num == q * (p * w) + r;
    assert q * (p * w) == (q * w) * p;
    DivideOut(q * w, r, p);
    DivideOut(q, r / p, w);
  }

  /** The octets in the low `bits` bits, most significant first. */
  function Octets(num: int, bits: int): (s: seq<int>)
    requires 0 <= num && bits % 8 == 0
    ensures forall i :: 0 <= i < |s| ==> 0 <= s[i] < 256
    decreases bits
  {
    if bits <= 0 then []
    else
      assert Pow2(8) == 256;
      [GetMsb(num, bits, 8)] + Octets(num, bits - 8)
  }

  /** The accumulator after one character: a sextet shifted in, or two padding bits shifted out. */
  function Shift(num: int, bits: int, c: byte): Outcome<(int, int)> {
    if c != PAD then
      var v :- DecodeDigit(c);
      Ok(((num * 64 + v) % WORD, bits + 6))
    else Ok((num / 4, bits - 2))
  }

  /** `base64_decode` from a given accumulator on. */
  function DecodeFrom(num: int, bits: int, s: bytes): Outcome<bytes>
    requires 0 <= num
    decreases |s|
  {
    if s == [] then Ok([])
    else
      var (num1, bits1) :- Shift(num, bits, s[0]);
      if bits1 % 8 != 0 then DecodeFrom(num1, bits1, s[1..])
      else
        var rest :- DecodeFrom(num1, Min(bits1, 0), s[1..]);
        Ok(Octets(num1, bits1) + rest)
  }

  /** The bit counts that can be waiting between characters: never so many that a shift overflows. */
  predicate Waiting(bits: int) {
    bits <= 0 || bits in {2, 4, 6, 10, 12, 18}
  }

  lemma WaitingStays(num: int, bits: int, c: byte)
    requires Waiting(bits) && bits % 2 == 0 && Shift(num, bits, c).Ok?
    ensures var bits1 := Shift(num, bits, c).value.1;
      bits1 % 2 == 0 && bits1 <= 24 && (bits1 % 8 != 0 ==> Waiting(bits1))
  {
  }

  method Base64Decode(str: bytes) returns (r: Outcome<bytes>)
    ensures r == DecodeFrom(0, 0, str)
  {
    hide Octets, GetMsb, DecodeDigit, DecodeFrom, Prepend;
    var result: bytes := [];
    var num, bits := 0, 0;
    var i: nat := 0;
    assert str[0..] == str;
    PrependNothing([], DecodeFrom(0, 0, str));
    while i < |str|
      invariant i <= |str| && 0 <= num < WORD && bits % 2 == 0 && Waiting(bits)
      invariant DecodeFrom(0, 0, str) == Prepend<byte>(result, DecodeFrom(num, bits, str[i..]))
    {
      var c := str[i];
      ghost var s := str[i..];
      assert s[0] == c && s[1..] == str[i + 1..];
      if Shift(num, bits, c).Ok? {
        WaitingStays(num, bits, c);
      }
      DecodeStep(result, num, bits, s);
      if c != PAD {
        var v :- DecodeDigit(c);
        num := (num * 64 + v) % WORD;
        bits := bits + 6;
      } else {
        num := num / 4;
        bits := bits - 2;
      }
      i := i + 1;
      if bits % 8 == 0 {
        ghost var before, all, drained := result, Octets(num, bits), bits;
        while bits > 0
          invariant bits % 8 == 0 && bits <= 24 && Min(bits, 0) == Min(drained, 0)
          invariant before + all == result + Octets(num, bits)
        {
          OctetsStep(num, bits);
          Assoc(result, [GetMsb(num, bits, 8)], Octets(num, bits - 8));
          var b := GetMsb(num, bits, 8);
          result := result + [b];
          bits := bits - 8;
        }
        NoOctets(num, bits);
        Unit(result);
      }
    }
    assert str[i..] == [];
    DecodeDone(num, bits);
    PrependNothing(result, Ok([]));
    return Ok(result);
  }

  lemma DecodeDone(num: int, bits: int)
    requires 0 <= num
    ensures DecodeFrom(num, bits, []) == Ok([])
  {
  }

  lemma NoOctets(num: int, bits: int)
    requires 0 <= num && bits % 8 == 0 && bits <= 0
    ensures Octets(num, bits) == []
  {
  }

  lemma PrependNothing(a: bytes, r: Outcome<bytes>)
    ensures Prepend([], r) == r
    ensures Prepend(a, Ok([])) == Ok(a)
  {
    assert a + [] == a && (r.Ok? ==> [] + r.value == r.value);
  }

  lemma OctetsStep(num: int, bits: int)
    requires 0 <= num && 0 < bits && bits % 8 == 0
    ensures Octets(num, bits) == [GetMsb(num, bits, 8)] + Octets(num, bits - 8)
    ensures 0 <= GetMsb(num, bits, 8) < 256
  {
    assert Pow2(8) == 256;
  }

  lemma DecodeStep(result: bytes, num: int, bits: int, s: bytes)
    requires s != [] && 0 <= num
    ensures Prepend<byte>(result, DecodeFrom(num, bits, s)) ==
      match Shift(num, bits, s[0])
      case Throw(e) => Throw(e)
      case Ok((num1, bits1)) =>
        if bits1 % 8 != 0 then Prepend<byte>(result, DecodeFrom(num1, bits1, s[1..]))
        else Prepend<byte>(result + Octets(num1, bits1), DecodeFrom(num1, Min(bits1, 0), s[1..]))
  {
    hide Octets, DecodeDigit;
    match Shift(num, bits, s[0]) {
      case Throw(e) =>
      case Ok((num1, bits1)) =>
        if bits1 % 8 == 0 {
          var rest := DecodeFrom(num1, Min(bits1, 0), s[1..]);
          if rest.Ok? {
            Assoc(result, Octets(num1, bits1), rest.value);
          }
        }
    }
  }

  // ------------------------------------------------------------ the pending bits

  /** The two accumulators agree in their low `bits` bits. */
  ghost predicate SameLow(a: int, b: int, bits: int) {
    bits > 0 ==> a % Pow2(bits) == b % Pow2(bits)
  }

  lemma MultipleBetween(a: int, b: int, m: int) returns (k: int)
    requires m > 0 && a % m == b % m
    ensures a == b + k * m
  {
    k := a / m - b / m;
    Distribute(b / m, k, m);
    assert a == a / m * m + a % m && b == b / m * m + b % m;
  }

  lemma SameRemainder(a: nat, b: nat, m: int, k: int)
    requires m > 0 && a == b + k * m
    ensures a % m == b % m
  {
    if k >= 0 {
      DivideOut(k, b, m);
    } else {
      Distribute(k, -k, m);
      DivideOut(-k, a, m);
    }
  }

  lemma WordIsPow2()
    ensures Pow2(64) == WORD
  {
    Powers();
    Pow2Sum(16, 16);
    Pow2Sum(32, 32);
  }

  /** A sextet shifted in keeps the agreement, although the word wraps around. */
  lemma ShiftKeepsLow(a: nat, b: nat, k: int, bits: nat, v: int)
    requires bits <= 58 && Sextet(v) && a == b + k * Pow2(bits)
    ensures SameLow((a * 64 + v) % WORD, (b * 64 + v) % WORD, bits + 6)
  {
    var m, n := Pow2(bits), Pow2(bits + 6);
    Powers();
    Pow2Sum(bits, 6);
    Pow2Sum(bits + 6, 58 - bits);
    WordIsPow2();
    var times := Pow2(58 - bits);
    hide Pow2;
    Scale(a, b, k, m);
    var h := Wrap(a * 64 + v, n, times, k, b * 64 + v);
    var g := Wrap(b * 64 + v, n, times, 0, b * 64 + v);
    Distribute(g, h - g, n);
    SameRemainder((a * 64 + v) % WORD, (b * 64 + v) % WORD, n, h - g);
  }

  lemma Scale(a: int, b: int, k: int, m: int)
    requires a == b + k * m
    ensures a * 64 == b * 64 + k * (m * 64)
  {
    Associate(k, m, 64);
  }

  /** So it is where bits are owed, of which there are never many: the sextet is all there is. */
  lemma SextetIsLow(a: nat, b: nat, bits: nat, v: int)
    requires bits <= 6 && Sextet(v)
    ensures SameLow((a * 64 + v) % WORD, (b * 64 + v) % WORD, bits)
  {
    var n, rest := Pow2(bits), Pow2(6 - bits);
    Powers();
    Pow2Sum(bits, 6 - bits);
    Pow2Sum(bits, 64 - bits);
    WordIsPow2();
    var times := Pow2(64 - bits);
    hide Pow2;
    assert rest * n == 64;
    Associate(a, rest, n);
    Associate(b, rest, n);
    var h := Wrap(a * 64 + v, n, times, a * rest, v);
    var g := Wrap(b * 64 + v, n, times, b * rest, v);
    Distribute(g, h - g, n);
    SameRemainder((a * 64 + v) % WORD, (b * 64 + v) % WORD, n, h - g);
  }

  /** Padding bits shifted out. */
  lemma UnshiftKeepsLow(a: nat, b: nat, k: int, bits: nat)
    requires a == b + k * Pow2(bits + 2)
    ensures SameLow(a / 4, b / 4, bits)
  {
    var m := Pow2(bits);
    Pow2Sum(bits, 2);
    assert Pow2(2) == 4;
    hide Pow2;
    Associate(k, m, 4);
    assert a / 4 == b / 4 + k * m;
    SameRemainder(a / 4, b / 4, m, k);
  }

  lemma {:induction false} OctetsOfLow(a: nat, b: nat, bits: int)
    requires bits % 8 == 0 && SameLow(a, b, bits)
    ensures Octets(a, bits) == Octets(b, bits)
    decreases bits
  {
    hide *;
    if bits > 0 {
      OctetsStep(a, bits);
      OctetsStep(b, bits);
      FewerBits(a, b, bits);
      OctetsOfLow(a, b, bits - 8);
    } else {
      NoOctets(a, bits);
      NoOctets(b, bits);
    }
  }

  lemma FewerBits(a: nat, b: nat, bits: nat)
    requires 8 <= bits && SameLow(a, b, bits)
    ensures SameLow(a, b, bits - 8) && GetMsb(a, bits, 8) == GetMsb(b, bits, 8)
  {
    GetMsbOfLowBits(a, bits, 8);
    GetMsbOfLowBits(b, bits, 8);
    hide GetMsb;
    var k := MultipleBetween(a, b, Pow2(bits));
    Pow2Sum(8, bits - 8);
    hide Pow2;
    Associate(k, Pow2(8), Pow2(bits - 8));
    SameRemainder(a, b, Pow2(bits - 8), k * Pow2(8));
  }

  lemma Associate(a: int, b: int, c: int)
    ensures a * (b * c) == (a * b) * c
  {
  }

  /** One character keeps the agreement of the pending bits. */
  lemma ShiftOnLow(a: nat, b: nat, bits: int, c: byte)
    requires bits % 2 == 0 && Waiting(bits) && SameLow(a, b, bits) && Shift(a, bits, c).Ok?
    ensures Shift(b, bits, c).Ok?
    ensures var ((a1, bits1), (b1, bits2)) := (Shift(a, bits, c).value, Shift(b, bits, c).value);
      bits1 == bits2 && 0 <= a1 && 0 <= b1 && SameLow(a1, b1, bits1)
  {
    hide DecodeDigit;
    if c != PAD {
      var v := DecodeDigit(c).value;
      if bits > 0 {
        var k := MultipleBetween(a, b, Pow2(bits));
        ShiftKeepsLow(a, b, k, bits, v);
      } else if bits + 6 > 0 {
        SextetIsLow(a, b, bits + 6, v);
      }
    } else if bits > 2 {
      var k := MultipleBetween(a, b, Pow2(bits));
      UnshiftKeepsLow(a, b, k, bits - 2);
    }
  }

  /**
   * What is decoded depends on the pending bits alone, for every string: the accumulator is
   * never cleared, and what is above them has no effect.
   */
  lemma {:induction false} OnlyPendingBitsMatter(a: nat, b: nat, bits: int, s: bytes)
    requires bits % 2 == 0 && Waiting(bits) && SameLow(a, b, bits)
    ensures DecodeFrom(a, bits, s) == DecodeFrom(b, bits, s)
    decreases |s|
  {
    hide SameLow, Octets, Shift;
    if s != [] {
      if Shift(a, bits, s[0]).Ok? {
        ShiftOnLow(a, b, bits, s[0]);
        WaitingStays(a, bits, s[0]);
        var (a1, bits1) := Shift(a, bits, s[0]).value;
        var b1 := Shift(b, bits, s[0]).value.0;
        if bits1 % 8 != 0 {
          OnlyPendingBitsMatter(a1, b1, bits1, s[1..]);
        } else {
          OctetsOfLow(a1, b1, bits1);
          NothingPending(a1, b1, Min(bits1, 0));
          OnlyPendingBitsMatter(a1, b1, Min(bits1, 0), s[1..]);
        }
      } else {
        ShiftFails(a, b, bits, s[0]);
      }
    }
  }

  /** A string is refused exactly if it has a character that is neither a digit nor padding. */
  lemma {:induction false} DecodesIff(num: nat, bits: int, s: bytes)
    ensures DecodeFrom(num, bits, s).Throw? <==>
      exists i :: 0 <= i < |s| && s[i] != '=' as int && DecodeDigit(s[i]).Throw?
    ensures DecodeFrom(num, bits, s).Throw? ==> DecodeFrom(num, bits, s).error == UnrecognizedChar
    decreases |s|
  {
    hide Octets;
    if s != [] {
      assert forall i :: 0 <= i < |s[1..]| ==> s[1..][i] == s[i + 1];
      if Shift(num, bits, s[0]).Ok? {
        var (num1, bits1) := Shift(num, bits, s[0]).value;
        hide Shift;
        DecodesIff(num1, if bits1 % 8 != 0 then bits1 else Min(bits1, 0), s[1..]);
      }
    }
  }

  lemma NothingPending(a: int, b: int, bits: int)
    ensures bits <= 0 ==> SameLow(a, b, bits)
  {
  }

  lemma ShiftFails(a: int, b: int, bits: int, c: byte)
    requires Shift(a, bits, c).Throw?
    ensures Shift(b, bits, c) == Shift(a, bits, c)
  {
    hide DecodeDigit;
  }

  // ------------------------------------------------------------ the encoder

  /** The sextets in the low `bits` bits, most significant first. */
  function SextetsOf(num: int, bits: int): (v: seq<int>)
    requires 0 <= num && bits % 6 == 0
    ensures forall i :: 0 <= i < |v| ==> 0 <= v[i] < 64
    decreases bits
  {
    if bits <= 0 then []
    else
      assert Pow2(6) == 64;
      [GetMsb(num, bits, 6)] + SextetsOf(num, bits - 6)
  }

  /** The value of up to three octets. */
  function Value(d: bytes): (v: int)
    requires |d| <= 3
    ensures 0 <= v
    ensures |d| == 0 ==> v == 0
    ensures |d| == 1 ==> v < 0x100
    ensures |d| == 2 ==> v < 0x1_0000
    ensures |d| == 3 ==> v < 0x100_0000
  {
    if d == [] then 0 else Value(d[..|d| - 1]) * 256 + d[|d| - 1]
  }

  lemma Powers()
    ensures Pow2(0) == 1 && Pow2(6) == 64 && Pow2(8) == 256 && Pow2(12) == 4096
    ensures Pow2(16) == 65536 && Pow2(18) == 262144
  {
    assert Pow2(3) == 8;
    assert Pow2(6) == 64;
    assert Pow2(9) == 512;
    assert Pow2(12) == 4096;
    assert Pow2(15) == 32768;
  }

  lemma Div64(a: int, q: int, r: int)
    requires a == q * 64 + r && 0 <= r < 64
    ensures a / 64 == q && a % 64 == r
  {
  }

  lemma Div4096(a: int, q: int, r: int)
    requires a == q * 4096 + r && 0 <= r < 4096
    ensures a / 4096 == q
  {
  }

  lemma Div262144(a: int, q: int, r: int)
    requires a == q * 262144 + r && 0 <= r < 262144
    ensures a / 262144 == q
  {
  }

  predicate Sextet(v: int) {
    0 <= v < 64
  }

  /** The last sextets of a number, whatever is above them. */
  lemma LastTwo(num: int, high: int, a: int, b: int)
    requires Sextet(a) && Sextet(b) && num == (high * 64 + a) * 64 + b
    ensures num % 64 == b && num / 64 % 64 == a
  {
    Div64(num, high * 64 + a, b);
    Div64(high * 64 + a, high, a);
  }

  lemma LastThree(num: int, high: int, a: int, b: int, c: int)
    requires Sextet(a) && Sextet(b) && Sextet(c) && num == ((high * 64 + a) * 64 + b) * 64 + c
    ensures num % 64 == c && num / 64 % 64 == b && num / 4096 % 64 == a
  {
    LastTwo(num, high * 64 + a, b, c);
    Div4096(num, high * 64 + a, b * 64 + c);
    Div64(high * 64 + a, high, a);
  }

  lemma LastFour(num: int, high: int, a: int, b: int, c: int, d: int)
    requires Sextet(a) && Sextet(b) && Sextet(c) && Sextet(d)
    requires num == (((high * 64 + a) * 64 + b) * 64 + c) * 64 + d
    ensures num % 64 == d && num / 64 % 64 == c && num / 4096 % 64 == b && num / 262144 % 64 == a
  {
    LastThree(num, high * 64 + a, b, c, d);
    Div262144(num, high * 64 + a, (b * 64 + c) * 64 + d);
    Div64(high * 64 + a, high, a);
  }

  lemma SextetsUnfold(num: int)
    requires 0 <= num
    ensures SextetsOf(num, 12) == [num / 64 % 64, num % 64]
    ensures SextetsOf(num, 18) == [num / 4096 % 64, num / 64 % 64, num % 64]
    ensures SextetsOf(num, 24) == [num / 262144 % 64, num / 4096 % 64, num / 64 % 64, num % 64]
  {
    Powers();
    hide Pow2;
    assert SextetsOf(num, 0) == [];
    assert SextetsOf(num, 6) == [num / 1 % 64];
    assert SextetsOf(num, 12) == [num / 64 % 64] + SextetsOf(num, 6);
    assert SextetsOf(num, 18) == [num / 4096 % 64] + SextetsOf(num, 12);
    assert SextetsOf(num, 24) == [num / 262144 % 64] + SextetsOf(num, 18);
  }

  /** A group's value in base 64, with the bits that fill up its last sextet. */
  lemma GroupInBase64(d: bytes)
    requires 1 <= |d| <= 3
    ensures var v := Sextets(d);
      && (|d| == 1 ==> Value(d) * 16 == v[0] * 64 + v[1])
      && (|d| == 2 ==> Value(d) * 4 == (v[0] * 64 + v[1]) * 64 + v[2])
      && (|d| == 3 ==> Value(d) == ((v[0] * 64 + v[1]) * 64 + v[2]) * 64 + v[3])
  {
    ValueOf(d);
    var b0: int := d[0];
    assert b0 == b0 / 4 * 4 + b0 % 4;
    if |d| >= 2 {
      var b1: int := d[1];
      assert b1 == b1 / 16 * 16 + b1 % 16;
    }
    if |d| == 3 {
      var b2: int := d[2];
      assert b2 == b2 / 64 * 64 + b2 % 64;
    }
  }

  /** Whatever is left in the higher bits, the sextets of a group are read out of the low ones. */
  lemma LowBitsAreSextets(num: int, d: bytes, high: int)
    requires 0 <= num && 1 <= |d| <= 3
    requires |d| == 1 ==> num == high * 0x1000 + Value(d) * 16
    requires |d| == 2 ==> num == high * 0x4_0000 + Value(d) * 4
    requires |d| == 3 ==> num == high * 0x100_0000 + Value(d)
    ensures SextetsOf(num, 6 * (|d| + 1)) == Sextets(d)
  {
    hide SextetsOf;
    SextetsUnfold(num);
    GroupInBase64(d);
    hide Value;
    var v := Sextets(d);
    hide Sextets;
    if |d| == 1 {
      LastTwo(num, high, v[0], v[1]);
    } else if |d| == 2 {
      LastThree(num, high, v[0], v[1], v[2]);
    } else {
      LastFour(num, high, v[0], v[1], v[2], v[3]);
    }
  }

  lemma ValueOf(d: bytes)
    requires 1 <= |d| <= 3
    ensures var b0: int := d[0];
      Value(d) == if |d| == 1 then b0 else if |d| == 2 then b0 * 256 + d[1] else (b0 * 256 + d[1]) * 256 + d[2]
  {
    assert d[..1][..0] == [];
    assert |d| >= 2 ==> d[..2][..1] == d[..1];
    assert Value(d[..1]) == d[0];
    assert |d| >= 2 ==> Value(d[..2]) == Value(d[..1]) * 256 + d[1];
    assert d[..|d|] == d;
  }

  /** The weight of what is above k octets in the accumulator. */
  function Above(k: nat): int
    requires k <= 3
  {
    if k == 0 then 1 else if k == 1 then 0x100 else if k == 2 then 0x1_0000 else 0x100_0000
  }

  lemma Wrap(num: int, m: int, times: int, high: int, low: int) returns (high1: int)
    requires 0 < m && WORD == m * times && num == high * m + low
    ensures num % WORD == high1 * m + low
  {
    var q := num / WORD;
    assert num == q * WORD + num % WORD;
    high1 := high - q * times;
    assert q * (m * times) == (q * times) * m;
  }

  /** Shifting an octet in keeps what is pending exact, although the word wraps around. */
  lemma ShiftIn(num: int, high: int, d: bytes, b: byte) returns (high1: int)
    requires |d| <= 2 && 0 <= num && num == high * Above(|d|) + Value(d)
    ensures (num * 256 + b) % WORD == high1 * Above(|d| + 1) + Value(d + [b])
  {
    assert (d + [b])[..|d|] == d;
    assert Value(d + [b]) == Value(d) * 256 + b;
    if |d| == 0 {
      high1 := Wrap(num * 256 + b, 0x100, 0x100_0000_0000_0000, high, Value(d + [b]));
    } else if |d| == 1 {
      high1 := Wrap(num * 256 + b, 0x1_0000, 0x1_0000_0000_0000, high, Value(d + [b]));
    } else {
      high1 := Wrap(num * 256 + b, 0x100_0000, 0x100_0000_0000, high, Value(d + [b]));
    }
  }

  /** The zero bits that fill up the last sextet. */
  lemma Fill(num: int, high: int, d: bytes) returns (high1: int)
    requires 1 <= |d| <= 2 && 0 <= num && num == high * Above(|d|) + Value(d)
    ensures |d| == 1 ==> num * 16 % WORD == high1 * 0x1000 + Value(d) * 16
    ensures |d| == 2 ==> num * 4 % WORD == high1 * 0x4_0000 + Value(d) * 4
  {
    if |d| == 1 {
      high1 := Wrap(num * 16, 0x1000, 0x10_0000_0000_0000, high, Value(d) * 16);
    } else {
      high1 := Wrap(num * 4, 0x4_0000, 0x4000_0000_0000, high, Value(d) * 4);
    }
  }

  lemma SextetsStep(num: int, bits: int)
    requires 0 <= num && 0 < bits && bits % 6 == 0
    ensures SextetsOf(num, bits) == [GetMsb(num, bits, 6)] + SextetsOf(num, bits - 6)
    ensures 0 <= GetMsb(num, bits, 6) < 64
    ensures EncodeDigits(SextetsOf(num, bits)) ==
      [EncodeDigit(GetMsb(num, bits, 6))] + EncodeDigits(SextetsOf(num, bits - 6))
  {
    assert Pow2(6) == 64;
  }

  lemma NoSextets(num: int)
    requires 0 <= num
    ensures EncodeDigits(SextetsOf(num, 0)) == []
  {
  }

  /** The inner loops of the encoder: the low `total` bits, six at a time. */
  method PushSextets(num: int, total: int, soFar: bytes) returns (result: bytes)
    requires 0 <= num && 0 <= total && total % 6 == 0
    ensures result == soFar + EncodeDigits(SextetsOf(num, total))
  {
    hide SextetsOf, EncodeDigits, EncodeDigit, GetMsb;
    result := soFar;
    var bits := total;
    while bits > 0
      invariant 0 <= bits && bits % 6 == 0
      invariant soFar + EncodeDigits(SextetsOf(num, total)) == result + EncodeDigits(SextetsOf(num, bits))
    {
      SextetsStep(num, bits);
      Assoc(result, [EncodeDigit(GetMsb(num, bits, 6))], EncodeDigits(SextetsOf(num, bits - 6)));
      result := result + [EncodeDigit(GetMsb(num, bits, 6))];
      bits := bits - 6;
    }
    NoSextets(num);
    Unit(result);
  }

  /** The pending octets are the last k of the data; what is above them in the accumulator is garbage. */
  ghost predicate Pending(data: bytes, i: nat, k: nat, num: int, high: int) {
    k <= 2 && k <= i <= |data| && 0 <= num < WORD && num == high * Above(k) + Value(data[i - k..i])
  }

  lemma PendingStep(data: bytes, i: nat, k: nat, num: int, high: int) returns (high1: int)
    requires i < |data| && Pending(data, i, k, num, high)
    ensures var num1 := (num * 256 + data[i]) % WORD;
      && num1 == high1 * Above(k + 1) + Value(data[i - k..i + 1])
      && (k < 2 ==> Pending(data, i + 1, k + 1, num1, high1))
      && (k == 2 ==> Pending(data, i + 1, 0, num1, num1)
                     && SextetsOf(num1, 24) == Sextets(data[i - k..i + 1]))
  {
    hide SextetsOf, Sextets, Value;
    var num1 := (num * 256 + data[i]) % WORD;
    high1 := ShiftIn(num, high, data[i - k..i], data[i]);
    assert data[i - k..i] + [data[i]] == data[i - k..i + 1];
    hide *;
    if k == 2 {
      LowBitsAreSextets(num1, data[i - k..i + 1], high1);
      NonePending(data, i + 1, num1);
    } else {
      OnePending(data, i + 1, k + 1, num1, high1);
    }
  }

  lemma NonePending(data: bytes, i: nat, num: int)
    requires i <= |data| && 0 <= num < WORD
    ensures Pending(data, i, 0, num, num)
  {
    assert data[i..i] == [];
  }

  lemma OnePending(data: bytes, i: nat, k: nat, num: int, high: int)
    requires 1 <= k <= 2 && k <= i <= |data| && 0 <= num < WORD && num == high * Above(k) + Value(data[i - k..i])
    ensures Pending(data, i, k, num, high)
  {
    hide Value, Above;
  }

  lemma GroupFirst(d: bytes)
    requires |d| >= 3
    ensures EncodeSpec(d) == EncodeDigits(Sextets(d[..3])) + EncodeSpec(d[3..])
  {
  }

  method Base64Encode(data: bytes) returns (result: bytes)
    ensures result == EncodeSpec(data)
  {
    hide EncodeSpec, EncodeDigits, Sextets, SextetsOf, Pending;
    result := [];
    var num, bits := 0, 0;
    var i: nat := 0;
    ghost var high, k: nat := 0, 0;
    PendingStart(data);
    while i < |data|
      invariant i <= |data| && bits == 8 * k && k <= 2 && k <= i && 0 <= num && Pending(data, i, k, num, high)
      invariant EncodeSpec(data) == result + EncodeSpec(data[i - k..])
    {
      var b := data[i];
      high := PendingStep(data, i, k, num, high);
      num := (num * 256 + b) % WORD;
      bits := bits + 8;
      i := i + 1;
      k := k + 1;
      if bits % 6 == 0 {
        GroupFirst(data[i - 3..]);
        assert data[i - 3..][..3] == data[i - 3..i] && data[i - 3..][3..] == data[i..];
        Assoc(result, EncodeDigits(Sextets(data[i - 3..i])), EncodeSpec(data[i..]));
        result := PushSextets(num, bits, result);
        bits, k, high := 0, 0, num;
      }
    }
    var paddingBits := if bits == 8 then 4 else if bits == 16 then 2 else 0;
    assert data[i - k..] == data[i - k..i];
    LastGroup(data, k, num, high);
    num := if bits == 8 then num * 16 % WORD else if bits == 16 then num * 4 % WORD else num;
    bits := bits + paddingBits;
    ghost var before := result;
    result := PushSextets(num, bits, result);
    Assoc(before, EncodeDigits(SextetsOf(num, bits)), Padding(paddingBits / 2));
    result := result + Padding(paddingBits / 2);
  }

  lemma PendingStart(data: bytes)
    ensures Pending(data, 0, 0, 0, 0) && [] + EncodeSpec(data[0..]) == EncodeSpec(data)
  {
    assert data[0..] == data && data[0..0] == [];
  }

  lemma LastGroup(data: bytes, k: nat, num: int, high: int)
    requires Pending(data, |data|, k, num, high)
    ensures k == 0 ==> EncodeSpec([]) == EncodeDigits(SextetsOf(num, 0)) + Padding(0)
    ensures var d := data[|data| - k..];
      && (k == 1 ==> EncodeSpec(d) == EncodeDigits(SextetsOf(num * 16 % WORD, 12)) + Padding(2))
      && (k == 2 ==> EncodeSpec(d) == EncodeDigits(SextetsOf(num * 4 % WORD, 18)) + Padding(1))
  {
    hide SextetsOf, Sextets, Value;
    NoSextets(num);
    var d := data[|data| - k..];
    assert d == data[|data| - k..|data|];
    if k > 0 {
      var high1 := Fill(num, high, d);
      LowBitsAreSextets(if k == 1 then num * 16 % WORD else num * 4 % WORD, d, high1);
    }
  }

  // ------------------------------------------------------------ the round trip

  lemma Div256(a: int, q: int, r: int)
    requires a == q * 256 + r && 0 <= r < 256
    ensures a / 256 == q && a % 256 == r
  {
  }

  lemma Div65536(a: int, q: int, r: int)
    requires a == q * 65536 + r && 0 <= r < 65536
    ensures a / 65536 == q
  {
  }

  lemma OctetMsb(num: int)
    requires 0 <= num
    ensures GetMsb(num, 8, 8) == num % 256
    ensures GetMsb(num, 16, 8) == num / 256 % 256
    ensures GetMsb(num, 24, 8) == num / 65536 % 256
  {
    Powers();
    hide Pow2;
    assert num / 1 == num;
  }

  lemma OctetsUnfold(num: int)
    requires 0 <= num
    ensures Octets(num, 8) == [num % 256]
    ensures Octets(num, 16) == [num / 256 % 256, num % 256]
    ensures Octets(num, 24) == [num / 65536 % 256, num / 256 % 256, num % 256]
  {
    hide Octets, GetMsb;
    OctetMsb(num);
    OctetsStep(num, 8);
    OctetsStep(num, 16);
    OctetsStep(num, 24);
    NoOctets(num, 0);
  }

  /** Whatever is left in the higher bits, a group's octets are read out of the low ones. */
  lemma LowBitsAreOctets(num: int, d: bytes, high: int)
    requires 0 <= num && 1 <= |d| <= 3 && num == high * Above(|d|) + Value(d)
    ensures Octets(num, 8 * |d|) == d
  {
    hide Octets;
    OctetsUnfold(num);
    ValueOf(d);
    hide Value;
    if |d| == 1 {
      Div256(num, high, d[0]);
    } else if |d| == 2 {
      Div256(num, high * 256 + d[0], d[1]);
      Div256(high * 256 + d[0], high, d[0]);
    } else {
      Div256(num, (high * 256 + d[0]) * 256 + d[1], d[2]);
      Div256((high * 256 + d[0]) * 256 + d[1], high * 256 + d[0], d[1]);
      var low: int := d[1];
      Div65536(num, high * 256 + d[0], low * 256 + d[2]);
      Div256(high * 256 + d[0], high, d[0]);
    }
  }

  /** One sextet shifted into an accumulator whose low part is known. */
  lemma ShiftSextet(num: int, high: int, m: int, times: int, low: int, v: int) returns (high1: int)
    requires 0 <= num && 0 < m && WORD == (m * 64) * times && num == high * m + low && Sextet(v)
    ensures forall bits :: Shift(num, bits, EncodeDigit(v)) == Ok(((num * 64 + v) % WORD, bits + 6))
    ensures (num * 64 + v) % WORD == high1 * (m * 64) + (low * 64 + v)
  {
    DigitRoundTrip(v);
    hide DecodeDigit, EncodeDigit;
    assert num * 64 + v == high * (m * 64) + (low * 64 + v);
    high1 := Wrap(num * 64 + v, m * 64, times, high, low * 64 + v);
  }

  /** A character that completes no octets. */
  lemma DecodeQuietly(num: int, bits: int, s: bytes)
    requires 0 <= num && s != [] && Shift(num, bits, s[0]).Ok? && Shift(num, bits, s[0]).value.1 % 8 != 0
    ensures var (num1, bits1) := Shift(num, bits, s[0]).value;
      0 <= num1 && DecodeFrom(num, bits, s) == DecodeFrom(num1, bits1, s[1..])
  {
  }

  /** A character that completes some. */
  lemma DecodeLoudly(num: int, bits: int, s: bytes)
    requires 0 <= num && s != [] && Shift(num, bits, s[0]).Ok?
    requires Shift(num, bits, s[0]).value.1 % 8 == 0 && Shift(num, bits, s[0]).value.1 >= 0
    ensures var (num1, bits1) := Shift(num, bits, s[0]).value;
      0 <= num1 && DecodeFrom(num, bits, s) == Prepend<byte>(Octets(num1, bits1), DecodeFrom(num1, 0, s[1..]))
  {
    hide Octets, DecodeDigit;
  }

  /** Two or more sextets that leave no whole number of octets behind. */
  lemma DecodeTwo(num: int, v0: int, v1: int, rest: bytes) returns (num1: int, high: int)
    requires 0 <= num && Sextet(v0) && Sextet(v1)
    ensures 0 <= num1 && num1 == high * 0x1000 + (v0 * 64 + v1)
    ensures DecodeFrom(num, 0, [EncodeDigit(v0), EncodeDigit(v1)] + rest) == DecodeFrom(num1, 12, rest)
  {
    var s := [EncodeDigit(v0), EncodeDigit(v1)] + rest;
    var n0 := (num * 64 + v0) % WORD;
    var h0 := ShiftSextet(num, num, 1, 0x400_0000_0000_0000, 0, v0);
    high := ShiftSextet(n0, h0, 64, 0x10_0000_0000_0000, v0, v1);
    num1 := (n0 * 64 + v1) % WORD;
    hide Shift, EncodeDigit, DecodeFrom;
    assert s[1..] == [EncodeDigit(v1)] + rest && s[1..][1..] == rest;
    DecodeQuietly(num, 0, s);
    DecodeQuietly(n0, 6, s[1..]);
  }

  lemma DecodeThird(num: int, high: int, low: int, v: int, rest: bytes) returns (num1: int, high1: int)
    requires 0 <= num && num == high * 0x1000 + low && Sextet(v)
    ensures 0 <= num1 && num1 == high1 * 0x4_0000 + (low * 64 + v)
    ensures DecodeFrom(num, 12, [EncodeDigit(v)] + rest) == DecodeFrom(num1, 18, rest)
  {
    high1 := ShiftSextet(num, high, 0x1000, 0x4000_0000_0000, low, v);
    num1 := (num * 64 + v) % WORD;
    hide Shift, EncodeDigit, DecodeFrom;
    assert ([EncodeDigit(v)] + rest)[1..] == rest;
    DecodeQuietly(num, 12, [EncodeDigit(v)] + rest);
  }

  lemma DecodeFourth(num: int, high: int, low: int, v: int, rest: bytes) returns (num1: int, high1: int)
    requires 0 <= num && num == high * 0x4_0000 + low && Sextet(v)
    ensures 0 <= num1 && num1 == high1 * 0x100_0000 + (low * 64 + v)
    ensures DecodeFrom(num, 18, [EncodeDigit(v)] + rest) == Prepend<byte>(Octets(num1, 24), DecodeFrom(num1, 0, rest))
  {
    high1 := ShiftSextet(num, high, 0x4_0000, 0x100_0000_0000, low, v);
    num1 := (num * 64 + v) % WORD;
    DecodeLoudly(num, 18, [EncodeDigit(v)] + rest);
    hide *;
    assert ([EncodeDigit(v)] + rest)[1..] == rest;
  }

  /** A full group is decoded to its octets, whatever the accumulator held before it. */
  lemma DecodeFull(num: int, d: bytes, rest: bytes) returns (num1: int)
    requires 0 <= num && |d| == 3
    ensures 0 <= num1
    ensures DecodeFrom(num, 0, EncodeDigits(Sextets(d)) + rest) == Prepend<byte>(d, DecodeFrom(num1, 0, rest))
  {
    GroupInBase64(d);
    var v := Sextets(d);
    var c := EncodeDigits(v);
    hide DecodeFrom, Sextets, EncodeDigits, EncodeDigit, Octets, Value, Prepend;
    assert c + rest == [c[0], c[1]] + (c[2..] + rest);
    assert c[2..] + rest == [c[2]] + (c[3..] + rest);
    assert c[3..] + rest == [c[3]] + rest;
    var n2, h2 := DecodeTwo(num, v[0], v[1], c[2..] + rest);
    var n3, h3 := DecodeThird(n2, h2, v[0] * 64 + v[1], v[2], c[3..] + rest);
    var h4;
    num1, h4 := DecodeFourth(n3, h3, (v[0] * 64 + v[1]) * 64 + v[2], v[3], rest);
    LowBitsAreOctets(num1, d, h4);
  }

  lemma TwoPads(num: int)
    requires 0 <= num
    ensures DecodeFrom(num, 12, [PAD, PAD]) == Ok(Octets(num / 4 / 4, 8))
  {
    hide Octets;
    var n1 := num / 4;
    assert [PAD, PAD][1..] == [PAD] && [PAD][1..] == [];
    assert DecodeFrom(num, 12, [PAD, PAD]) == DecodeFrom(n1, 10, [PAD]);
    DecodeDone(n1 / 4, 0);
    Unit(Octets(n1 / 4, 8));
  }

  lemma OnePad(num: int)
    requires 0 <= num
    ensures DecodeFrom(num, 18, [PAD]) == Ok(Octets(num / 4, 16))
  {
    hide Octets;
    assert [PAD][1..] == [];
    DecodeDone(num / 4, 0);
    Unit(Octets(num / 4, 16));
  }

  /** A padded group: the padding bits are shifted out again. */
  /** After full groups the decoder goes on as if at the beginning. */
  lemma {:induction false} DecodeGroups(num: int, d: bytes, rest: bytes) returns (num1: int)
    requires 0 <= num && |d| % 3 == 0
    ensures 0 <= num1
    ensures DecodeFrom(num, 0, EncodeSpec(d) + rest) == Prepend<byte>(d, DecodeFrom(num1, 0, rest))
    decreases |d|
  {
    hide DecodeFrom, EncodeDigits, Sextets;
    if d == [] {
      num1 := num;
      Unit(rest);
      PrependNothing([], DecodeFrom(num, 0, rest));
    } else {
      var first, later := d[..3], d[3..];
      GroupFirst(d);
      Assoc(EncodeDigits(Sextets(first)), EncodeSpec(later), rest);
      var num2 := DecodeFull(num, first, EncodeSpec(later) + rest);
      num1 := DecodeGroups(num2, later, rest);
      var end := DecodeFrom(num1, 0, rest);
      assert first + later == d;
      if end.Ok? {
        Assoc(first, later, end.value);
      }
    }
  }

  /** An incomplete group at the end, without its padding, yields nothing. */
  lemma IncompleteGroupIsDropped(d: bytes, v: seq<int>)
    requires |d| % 3 == 0 && 1 <= |v| <= 3 && forall i :: 0 <= i < |v| ==> 0 <= v[i] < 64
    ensures DecodeFrom(0, 0, EncodeSpec(d) + EncodeDigits(v)) == Ok(d)
  {
    var num := DecodeGroups(0, d, EncodeDigits(v));
    DecodesToNothing(num, v);
    PrependNothing(d, Ok([]));
    hide DecodeFrom, EncodeSpec, EncodeDigits;
  }

  lemma DecodesToNothing(num: int, v: seq<int>)
    requires 0 <= num && 1 <= |v| <= 3 && forall i :: 0 <= i < |v| ==> 0 <= v[i] < 64
    ensures DecodeFrom(num, 0, EncodeDigits(v)) == Ok([])
  {
    var s := EncodeDigits(v);
    hide DecodeFrom, EncodeDigits, EncodeDigit, Octets;
    if |v| == 1 {
      var h := ShiftSextet(num, num, 1, 0x400_0000_0000_0000, 0, v[0]);
      var n := (num * 64 + v[0]) % WORD;
      hide Shift;
      DecodeQuietly(num, 0, s);
      assert s[1..] == [];
      DecodeDone(n, 6);
    } else {
      var n, h := DecodeTwo(num, v[0], v[1], s[2..]);
      assert s == [s[0], s[1]] + s[2..];
      if |v| == 2 {
        assert s[2..] == [];
        DecodeDone(n, 12);
      } else {
        var rest: bytes := [];
        assert s[2..] == [s[2]] + rest;
        var n1, h1 := DecodeThird(n, h, v[0] * 64 + v[1], v[2], rest);
        DecodeDone(n1, 18);
      }
    }
  }

  lemma DecodePadded(num: int, d: bytes)
    requires 0 <= num && 1 <= |d| <= 2
    ensures DecodeFrom(num, 0, EncodeDigits(Sextets(d)) + Padding(3 - |d|)) == Ok(d)
  {
    GroupInBase64(d);
    var v := Sextets(d);
    var c := EncodeDigits(v);
    assert Padding(1) == [PAD] && Padding(2) == [PAD, PAD];
    hide Sextets, EncodeDigits, EncodeDigit, Octets, Padding, Value, DecodeFrom;
    if |d| == 1 {
      var n2, h2 := DecodeTwo(num, v[0], v[1], [PAD, PAD]);
      assert c + [PAD, PAD] == [c[0], c[1]] + [PAD, PAD];
      TwoPads(n2);
      assert n2 / 4 / 4 == h2 * 0x100 + Value(d);
      LowBitsAreOctets(n2 / 4 / 4, d, h2);
    } else {
      var n2, h2 := DecodeTwo(num, v[0], v[1], [c[2]] + [PAD]);
      var n3, h3 := DecodeThird(n2, h2, v[0] * 64 + v[1], v[2], [PAD]);
      assert c + [PAD] == [c[0], c[1]] + ([c[2]] + [PAD]);
      OnePad(n3);
      assert n3 / 4 == h3 * 0x1_0000 + Value(d);
      LowBitsAreOctets(n3 / 4, d, h3);
    }
  }

  lemma {:induction false} RoundTripFrom(num: int, d: bytes)
    requires 0 <= num
    ensures DecodeFrom(num, 0, EncodeSpec(d)) == Ok(d)
    decreases |d|
  {
    if d == [] {
    } else if |d| < 3 {
      DecodePadded(num, d);
      hide DecodeFrom, EncodeDigits, Sextets;
    } else {
      var num1 := DecodeFull(num, d[..3], EncodeSpec(d[3..]));
      RoundTripFrom(num1, d[3..]);
      assert d[..3] + d[3..] == d;
      hide DecodeFrom, EncodeDigits, Sextets;
    }
  }

  /** Decoding inverts encoding for every octet sequence, though neither accumulator is ever cleared. */
  lemma Base64RoundTrip(d: bytes)
    ensures DecodeFrom(0, 0, EncodeSpec(d)) == Ok(d)
  {
    RoundTripFrom(0, d);
  }

  /** An encoding holds no comma, so it is one attribute of a message. */
  lemma {:induction false} EncodingHasNoComma(d: bytes)
    ensures ',' as int !in EncodeSpec(d)
    decreases |d|
  {
    if d != [] {
      var g := if |d| < 3 then d else d[..3];
      forall i | 0 <= i < |Sextets(g)| ensures EncodeDigits(Sextets(g))[i] != ',' as int {
        DigitRoundTrip(Sextets(g)[i]);
      }
      assert Padding(0) == [] && Padding(1) == [PAD] && Padding(2) == [PAD, PAD];
      hide Sextets, EncodeDigits, EncodeDigit, Padding;
      if |d| >= 3 {
        EncodingHasNoComma(d[3..]);
      }
    }
  }
}
