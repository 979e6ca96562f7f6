/** Octets, exceptions, and the number formats shared by every layer. */
module Bytes {

  /** One octet.  Strings, spans and vectors of bytes are all `bytes`. */
  type byte = b: int | 0 <= b < 256
  type bytes = seq<byte>

  const LONG_MAX: int := 0x7FFF_FFFF_FFFF_FFFF
  const LONG_MIN: int := -0x8000_0000_0000_0000

  /** What a coroutine may throw. */
  datatype Error =
    | IoError              // a negative status from the kernel
    | SocketClosed         // end of stream while bytes were still owed
    | NoChunk              // http_body: the chunk header line is missing
    | InvalidChunkSize     // http_body: the chunk header is not a hexadecimal size
    | InvalidSize          // http_output: a size that is not positive
    | UnsupportedMethod    // http_router: neither GET nor POST
    | DuplicateEndpoint    // http_router
    | ParamNameClash       // http_router
    | InvalidParamName     // http_router
    | UnrecognizedChar     // base64
    | BadServerMessage     // scram: wrong number of parameters, or a foreign nonce
    | NotReady             // pg_connection: a query is still running
    | UnexpectedResponse   // pg_connection
    | OutOfBounds          // a read outside an object, undefined in C++
    | ParseFailure         // pg_parser: not a value of the requested type
    | NullValue            // pg_result: NULL read into a non-optional
    | HandleAlreadySet     // event_callback: another coroutine awaits already
    | NoStatus             // std::bad_optional_access

  /** A C++ result: a value, or an exception. */
  datatype Outcome<+T> = Ok(value: T) | Throw(error: Error) {
    predicate IsFailure() {
      Throw?
    }

    function PropagateFailure<U>(): Outcome<U>
      requires Throw?
    {
      Throw(error)
    }

    function Extract(): T
      requires Ok?
    {
      value
    }
  }

  /** A result whose first elements are known already. */
  function Prepend<T>(front: seq<T>, r: Outcome<seq<T>>): Outcome<seq<T>> {
    match r
    case Throw(e) => Throw(e)
    case Ok(more) => Ok(front + more)
  }

  /** The same, beside another value. */
  function PrependTo<T, S>(front: seq<T>, r: Outcome<(seq<T>, S)>): Outcome<(seq<T>, S)> {
    match r
    case Throw(e) => Throw(e)
    case Ok((more, s)) => Ok((front + more, s))
  }

  datatype Option<+T> = None | Some(value: T)

  function Min(a: int, b: int): int {
    if a <= b then a else b
  }

  // ---------------------------------------------------------------- text

  const LF: byte := 10
  const COLON: byte := 58
  const CR: byte := 13
  const SPACE: byte := 32
  const CRLF: bytes := [13, 10]

  /** The octets of an ASCII literal. */
  function Lit(s: string): (b: bytes)
    requires forall i :: 0 <= i < |s| ==> s[i] as int < 128
    ensures |b| == |s|
    ensures forall i :: 0 <= i < |s| ==> b[i] == s[i] as int
  {
    seq(|s|, i requires 0 <= i < |s| => s[i] as int)
  }

  /** `std::tolower` in the C locale. */
  function LowerByte(c: byte): byte {
    if 'A' as int <= c <= 'Z' as int then c + 32 else c
  }

  function Lower(s: bytes): (r: bytes)
    ensures |r| == |s|
    ensures forall i :: 0 <= i < |s| ==> r[i] == LowerByte(s[i])
  {
    seq(|s|, i requires 0 <= i < |s| => LowerByte(s[i]))
  }

  lemma UpperCase(v: nat)
    requires v < 26
    ensures Lit("ABCDEFGHIJKLMNOPQRSTUVWXYZ")[v] == 65 + v
  {
  }

  lemma LowerCase(v: nat)
    requires v < 26
    ensures Lit("abcdefghijklmnopqrstuvwxyz")[v] == 97 + v
  {
  }

  /** The index of the first occurrence of c, or the length of s. */
  function IndexOf(s: bytes, c: byte): (k: nat)
    ensures k <= |s|
    ensures forall i :: 0 <= i < k ==> s[i] != c
    ensures k < |s| ==> s[k] == c
  {
    if s == [] || s[0] == c then 0 else 1 + IndexOf(s[1..], c)
  }

  /** The first occurrence is the only index with nothing of the kind before it. */
  lemma IndexOfUnique(s: bytes, c: byte, k: nat)
    requires k <= |s| && c !in s[..k] && (k < |s| ==> s[k] == c)
    ensures IndexOf(s, c) == k
  {
    assert forall i :: 0 <= i < k ==> s[i] == s[..k][i];
  }

  /** Taking m octets after k of them is taking k + m. */
  lemma SliceStep(s: bytes, k: nat, m: nat)
    requires k + m <= |s|
    ensures s[k..][m..] == s[k + m..]
    ensures s[..k] + s[k..][..m] == s[..k + m]
  {
  }

  lemma SplitFront(front: bytes, back: bytes, n: nat)
    requires n <= |front|
    ensures (front + back)[..n] == front[..n]
    ensures (front + back)[n..] == front[n..] + back
  {
  }

  lemma Assoc(a: bytes, b: bytes, c: bytes)
    ensures (a + b) + c == a + (b + c)
  {
  }

  lemma Unit(s: bytes)
    ensures [] + s == s && s + [] == s
  {
  }

  function Concat(parts: seq<bytes>): bytes {
    if parts == [] then [] else parts[0] + Concat(parts[1..])
  }

  lemma {:induction false} ConcatAppend(parts: seq<bytes>, more: seq<bytes>)
    ensures Concat(parts + more) == Concat(parts) + Concat(more)
  {
    if parts == [] {
      assert parts + more == more;
    } else {
      assert (parts + more)[1..] == parts[1..] + more;
      ConcatAppend(parts[1..], more);
    }
  }

  // ------------------------------------------- std::to_chars, std::from_chars

  predicate IsBase(base: int) {
    base == 10 || base == 16
  }

  /** The value of a digit, or -1. */
  function DigitValue(c: byte, base: int): (v: int)
    requires IsBase(base)
    ensures -1 <= v < base
  {
    if 48 <= c <= 57 then c - 48
    else if base == 16 && 97 <= c <= 102 then c - 87
    else if base == 16 && 65 <= c <= 70 then c - 55
    else -1
  }

  function DigitChar(v: int): byte
    requires 0 <= v < 16
  {
    if v < 10 then 48 + v else 87 + v
  }

  predicate AllDigits(s: bytes, base: int)
    requires IsBase(base)
  {
    forall i :: 0 <= i < |s| ==> DigitValue(s[i], base) >= 0
  }

  /** The length of the longest run of digits that s begins with. */
  function DigitRun(s: bytes, base: int): (n: nat)
    requires IsBase(base)
    ensures n <= |s| && AllDigits(s[..n], base)
    ensures n < |s| ==> DigitValue(s[n], base) < 0
  {
    if s == [] || DigitValue(s[0], base) < 0 then 0
    else
      var n := DigitRun(s[1..], base);
      assert s[..n + 1] == [s[0]] + s[1..][..n];
      n + 1
  }

  function Num(s: bytes, base: int): nat
    requires IsBase(base) && AllDigits(s, base)
  {
    if s == [] then 0
    else Num(s[..|s| - 1], base) * base + DigitValue(s[|s| - 1], base)
  }

  /** The value of the longest run of digits that s begins with, if there is one. */
  function DigitsValue(s: bytes, base: int): (v: Option<int>)
    requires IsBase(base)
    ensures v.Some? ==> 0 <= v.value
  {
    var n := DigitRun(s, base);
    if n == 0 then None else Some(Num(s[..n], base))
  }

  datatype Parsed = Parsed(value: int) | InvalidArgument | OutOfRange

  /**
   * `std::from_chars` into an integer type with range lo..hi.  Leading blanks are not
   * skipped, a minus sign is read only by a signed type, and whatever follows the
   * longest run of digits is ignored.
   */
  function FromChars(s: bytes, base: int, lo: int, hi: int): (r: Parsed)
    requires IsBase(base)
    ensures r.Parsed? ==> lo <= r.value <= hi
  {
    var negative := lo < 0 && |s| > 0 && s[0] == '-' as int;
    var t := if negative then s[1..] else s;
    match DigitsValue(t, base)
    case None => InvalidArgument
    case Some(m) =>
      var v := if negative then -m else m;
      if lo <= v <= hi then Parsed(v) else OutOfRange
  }

  function LongFromChars(s: bytes, base: int): (r: Parsed)
    requires IsBase(base)
    ensures r.Parsed? ==> LONG_MIN <= r.value <= LONG_MAX
  {
    FromChars(s, base, LONG_MIN, LONG_MAX)
  }

  function NatToChars(n: nat, base: int): (s: bytes)
    requires IsBase(base)
    ensures s != []
  {
    if n < base then [DigitChar(n)]
    else NatToChars(n / base, base) + [DigitChar(n % base)]
  }

  /** `std::to_chars`: lower-case digits, no leading zeros, a minus sign if negative. */
  function ToChars(n: int, base: int): (s: bytes)
    requires IsBase(base)
    ensures s != []
  {
    if n < 0 then ['-' as int] + NatToChars(-n, base) else NatToChars(n, base)
  }

  lemma {:induction false} NatToCharsValue(n: nat, base: int)
    requires IsBase(base)
    ensures AllDigits(NatToChars(n, base), base)
    ensures Num(NatToChars(n, base), base) == n
  {
    var s := NatToChars(n, base);
    if n < base {
      assert s[..0] == [];
      assert Num(s[..0], base) == 0;
    } else {
      NatToCharsValue(n / base, base);
      assert s[..|s| - 1] == NatToChars(n / base, base);
      assert base == 10 || base == 16;
    }
  }

  lemma DigitRunStops(s: bytes, rest: bytes, base: int)
    requires IsBase(base) && AllDigits(s, base)
    requires rest != [] ==> DigitValue(rest[0], base) < 0
    ensures DigitRun(s + rest, base) == |s|
  {
    var n := DigitRun(s + rest, base);
    assert forall i :: 0 <= i < |s| ==> (s + rest)[i] == s[i];
    assert forall i :: 0 <= i < n ==> DigitValue((s + rest)[i], base) >= 0 by {
      forall i | 0 <= i < n ensures DigitValue((s + rest)[i], base) >= 0 {
        assert (s + rest)[i] == (s + rest)[..n][i];
      }
    }
    assert rest != [] ==> (s + rest)[|s|] == rest[0];
  }

  lemma DigitsValueOfPrinted(n: nat, base: int, rest: bytes)
    requires IsBase(base)
    requires rest != [] ==> DigitValue(rest[0], base) < 0
    ensures DigitsValue(NatToChars(n, base) + rest, base) == Some(n)
    ensures NatToChars(n, base)[0] != '-' as int
  {
    var d := NatToChars(n, base);
    NatToCharsValue(n, base);
    DigitRunStops(d, rest, base);
    assert (d + rest)[..|d|] == d;
    assert DigitValue(d[0], base) >= 0;
  }

  lemma FromCharsOfDigits(t: bytes, m: int, base: int, lo: int, hi: int)
    requires IsBase(base) && DigitsValue(t, base) == Some(m)
    ensures t != [] && t[0] != '-' as int && lo <= m <= hi ==> FromChars(t, base, lo, hi) == Parsed(m)
    ensures lo < 0 && lo <= -m <= hi ==> FromChars(['-' as int] + t, base, lo, hi) == Parsed(-m)
    ensures t != [] && t[0] != '-' as int && !(lo <= m <= hi) ==> FromChars(t, base, lo, hi) == OutOfRange
    ensures lo < 0 && !(lo <= -m <= hi) ==> FromChars(['-' as int] + t, base, lo, hi) == OutOfRange
  {
    assert (['-' as int] + t)[1..] == t;
  }

  /** Printing then reading gives the number back, whatever non-digit follows it. */
  lemma ToCharsFromChars(n: int, base: int, lo: int, hi: int, rest: bytes)
    requires IsBase(base) && lo <= n <= hi
    requires rest != [] ==> DigitValue(rest[0], base) < 0
    ensures FromChars(ToChars(n, base) + rest, base, lo, hi) == Parsed(n)
  {
    hide NatToChars;
    hide FromChars;
    hide DigitsValue;
    var m := if n < 0 then -n else n;
    var t := NatToChars(m, base) + rest;
    DigitsValueOfPrinted(m, base, rest);
    FromCharsOfDigits(t, m, base, lo, hi);
    assert n < 0 ==> ToChars(n, base) + rest == ['-' as int] + t;
  }

  /** The number that digits stand for, the most significant first. */
  function Horner(ds: seq<nat>, base: nat): nat {
    if ds == [] then 0 else Horner(ds[..|ds| - 1], base) * base + ds[|ds| - 1]
  }

  /** The character stands for this digit; letters do so in either case. */
  ghost predicate IsDigit(c: byte, v: nat, base: int) {
    v < base && v < 16 && (c == Lit("0123456789abcdef")[v] || c == Lit("0123456789ABCDEF")[v])
  }

  ghost predicate Spells(s: bytes, ds: seq<nat>, base: int) {
    |s| == |ds| && forall i :: 0 <= i < |s| ==> IsDigit(s[i], ds[i], base)
  }

  ghost predicate NoDigit(c: byte, base: int) {
    forall v: nat :: !IsDigit(c, v, base)
  }

  lemma DigitIsSpelled(c: byte, base: int)
    requires IsBase(base)
    ensures DigitValue(c, base) >= 0 ==> IsDigit(c, DigitValue(c, base), base)
    ensures forall v: nat :: IsDigit(c, v, base) ==> DigitValue(c, base) == v
  {
  }

  lemma {:induction false} SpelledNumber(s: bytes, ds: seq<nat>, base: int)
    requires IsBase(base) && Spells(s, ds, base)
    ensures AllDigits(s, base) && Num(s, base) == Horner(ds, base)
  {
    forall i | 0 <= i < |s| ensures DigitValue(s[i], base) == ds[i] {
      DigitIsSpelled(s[i], base);
    }
    if s != [] {
      var n := |s| - 1;
      assert Spells(s[..n], ds[..n], base);
      SpelledNumber(s[..n], ds[..n], base);
    }
  }

  /** Digits in either case are read as the number they stand for, up to what is not a digit, unless it is too large. */
  lemma SpelledIsRead(s: bytes, ds: seq<nat>, rest: bytes, base: int)
    requires IsBase(base) && Spells(s, ds, base) && s != []
    requires rest != [] ==> NoDigit(rest[0], base)
    ensures
      var n: int := Horner(ds, base);
      && LongFromChars(s + rest, base) == (if n <= LONG_MAX then Parsed(n) else OutOfRange)
      && LongFromChars(['-' as int] + (s + rest), base) == (if -n >= LONG_MIN then Parsed(-n) else OutOfRange)
  {
    SpelledNumber(s, ds, base);
    if rest != [] {
      DigitIsSpelled(rest[0], base);
    }
    DigitRunStops(s, rest, base);
    var t := s + rest;
    assert t[..|s|] == s && t[0] == s[0];
    assert DigitValue(s[0], base) >= 0;
    assert DigitsValue(t, base) == Some(Horner(ds, base));
    FromCharsOfDigits(t, Horner(ds, base), base, LONG_MIN, LONG_MAX);
    hide Num, Horner, Spells, DigitRun, FromChars, DigitsValue;
  }

  lemma NegativeIsRead(n: nat, base: int)
    requires IsBase(base) && 0 < n
    ensures
      var r := LongFromChars(['-' as int] + ToChars(n, base), base);
      r.Parsed? ==> r.value < 0
  {
    var t := ToChars(n, base);
    DigitsValueOfPrinted(n, base, []);
    assert t + [] == t && (['-' as int] + t)[1..] == t;
    hide DigitsValue, NatToChars;
  }

  /** Without a digit in front, but perhaps a minus sign, there is no number. */
  lemma NothingIsRead(s: bytes, base: int)
    requires IsBase(base)
    requires s != [] ==> NoDigit(s[0], base)
    ensures s == [] || s[0] != '-' as int ==> LongFromChars(s, base) == InvalidArgument
    ensures LongFromChars(['-' as int] + s, base) == InvalidArgument
  {
    if s != [] {
      DigitIsSpelled(s[0], base);
    }
    assert (['-' as int] + s)[1..] == s;
  }

  /** Numbers are printed in the usual digits, the most significant first, without leading zeros. */
  lemma PrintedDigits(n: nat, d: nat, base: int)
    requires IsBase(base) && d < base
    ensures ToChars(n * base + d, base) == (if n == 0 then [] else ToChars(n, base)) + [Lit("0123456789abcdef")[d]]
    ensures n > 0 ==> ToChars(0 - n, base) == ['-' as int] + ToChars(n, base)
  {
    assert DigitChar(d) == Lit("0123456789abcdef")[d];
    hide Lit, DigitChar;
    if n > 0 {
      LastDigit(n, d, base);
    } else {
      assert [] + [DigitChar(d)] == [DigitChar(d)];
    }
  }

  lemma LastDigit(n: nat, d: nat, base: int)
    requires IsBase(base) && d < base && n > 0
    ensures n * base + d >= base && (n * base + d) / base == n && (n * base + d) % base == d
  {
    if base == 10 {
    } else {
    }
  }

  // ------------------------------------------------------ big-endian integers

  /** `read_u16_be` of the first two octets. */
  function U16(s: bytes): (v: int)
    requires |s| >= 2
    ensures 0 <= v < 0x1_0000
  {
    var hi: int := s[0];
    hi * 0x100 + s[1]
  }

  /** `read_u32_be` of the first four octets. */
  function U32(s: bytes): (v: int)
    requires |s| >= 4
    ensures 0 <= v < 0x1_0000_0000
  {
    U16(s) * 0x1_0000 + U16(s[2..])
  }

  /** `write_u16_be` of a value truncated to 16 bits. */
  function U16Be(v: int): (s: bytes)
    ensures |s| == 2
  {
    [v / 0x100 % 0x100, v % 0x100]
  }

  /** `write_u32_be` of a value truncated to 32 bits. */
  function U32Be(v: int): (s: bytes)
    ensures |s| == 4
  {
    U16Be(v / 0x1_0000) + U16Be(v)
  }

  lemma SplitDigits(v: int)
    ensures v / 0x100 % 0x100 * 0x100 + v % 0x100 == v % 0x1_0000
  {
  }

  lemma SplitWords(v: int)
    ensures v / 0x1_0000 % 0x1_0000 * 0x1_0000 + v % 0x1_0000 == v % 0x1_0000_0000
  {
  }

  /** The last octet is the least significant, and the others are those of what is left. */
  lemma BigEndian(v: nat, b: byte)
    ensures U16Be(v * 256 + b) == [v % 256, b]
    ensures U32Be(v * 256 + b) == U32Be(v)[1..] + [b]
    ensures U32Be(0) == [0, 0, 0, 0]
    ensures U32Be(-1) == [255, 255, 255, 255]
  {
  }

  /** A written integer reads back modulo its width, with anything after it. */
  lemma U16RoundTrip(v: int, rest: bytes)
    ensures U16(U16Be(v) + rest) == v % 0x1_0000
  {
    var s := U16Be(v) + rest;
    assert s[0] == v / 0x100 % 0x100 && s[1] == v % 0x100;
    SplitDigits(v);
  }

  lemma U32RoundTrip(v: int, rest: bytes)
    ensures U32(U32Be(v) + rest) == v % 0x1_0000_0000
  {
    hide U16;
    hide U16Be;
    var s := U32Be(v) + rest;
    assert s == U16Be(v / 0x1_0000) + (U16Be(v) + rest);
    assert s[2..] == U16Be(v) + rest;
    U16RoundTrip(v / 0x1_0000, U16Be(v) + rest);
    U16RoundTrip(v, rest);
    SplitWords(v);
  }
}
