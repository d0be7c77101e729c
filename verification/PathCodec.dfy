/**
  D-Bus object paths of atk-adaptor/accessible-register.c: a fixed prefix followed by "root" or by a
  32-bit reference printed with "%d" and read back with `atoi`.
 */
module PathCodec {
  import opened Common

  const PREFIX := "/org/a11y/atspi/accessible/"
  const PREFIX_LENGTH := 27
  const ROOT := "root"
  const ROOT_PATH := PREFIX + ROOT

  // ---------------------------------------------------------------- printf "%d"

  function DigitChar(d: nat): (c: char)
    requires d < 10
    ensures c as int == '0' as int + d
  {
    ['0', '1', '2', '3', '4', '5', '6', '7', '8', '9'][d]
  }

  function Digits(n: nat): (s: string)
    ensures s != []
  {
    if n < 10 then [DigitChar(n)] else Digits(n / 10) + [DigitChar(n % 10)]
  }

  /** The bits of a guint read as a gint. */
  function AsSigned(u: nat): int {
    if u < 0x8000_0000 then u else u - TWO_32
  }

  function PrintSigned(n: int): string {
    if n < 0 then "-" + Digits(-n) else Digits(n)
  }

  /** ref_to_path */
  function RefToPath(ref: nat): string {
    PREFIX + PrintSigned(AsSigned(ref))
  }

  // ---------------------------------------------------------------- atoi

  predicate IsDigit(c: char) {
    '0' <= c <= '9'
  }

  predicate IsSpace(c: char): (r: bool)
    ensures r <==> c as int in {9, 10, 11, 12, 13, 32}
  {
    c == ' ' || '\t' <= c <= '\r'
  }

  function DigitValue(c: char): nat
    requires IsDigit(c)
  {
    c as int - '0' as int
  }

  function SkipSpace(s: string): string {
    if s != [] && IsSpace(s[0]) then SkipSpace(s[1..]) else s
  }

  /** Reads digits up to the first other character. */
  function ReadDigits(s: string, acc: nat): nat {
    if s == [] || !IsDigit(s[0]) then acc else ReadDigits(s[1..], acc * 10 + DigitValue(s[0]))
  }

  /** The value that `strtol` returns, which ends at the limits of 64 bits. */
  function Clamp64(n: int): (c: int)
    ensures -0x8000_0000_0000_0000 <= n <= 0x7fff_ffff_ffff_ffff ==> c == n
    ensures n > 0x7fff_ffff_ffff_ffff ==> c == 0x7fff_ffff_ffff_ffff
    ensures n < -0x8000_0000_0000_0000 ==> c == -0x8000_0000_0000_0000
  {
    Max(-0x8000_0000_0000_0000, Min(n, 0x7fff_ffff_ffff_ffff))
  }

  /** `atoi` as a 64-bit `strtol` whose result is stored in a guint. */
  function AtoiAsGuint(s: string): nat {
    var t := SkipSpace(s);
    var n: int := if t != [] && t[0] == '-' then 0 - ReadDigits(t[1..], 0) as int
             else if t != [] && t[0] == '+' then ReadDigits(t[1..], 0)
             else ReadDigits(t, 0);
    Wrap32(Clamp64(n))
  }

  datatype Parsed = Foreign | Root | Ref(ref: nat)

  /** How spi_register_path_to_object reads a path before it consults its table. */
  function ParsePath(path: string): Parsed {
    if !(PREFIX <= path) then Foreign
    else
      assert |PREFIX| == PREFIX_LENGTH;
      var rest := path[PREFIX_LENGTH..];
      if rest == ROOT then Root else Ref(AtoiAsGuint(rest))
  }

  // ---------------------------------------------------------------- round trip

  lemma {:induction false} ReadDigitsOneMore(s: string, d: char, acc: nat)
    requires forall c :: c in s ==> IsDigit(c)
    requires IsDigit(d)
    ensures ReadDigits(s + [d], acc) == ReadDigits(s, acc) * 10 + DigitValue(d)
  {
    if s == [] {
      assert [d][1..] == [];
    } else {
      assert (s + [d])[1..] == s[1..] + [d];
      ReadDigitsOneMore(s[1..], d, acc * 10 + DigitValue(s[0]));
    }
  }

  lemma {:induction false} DigitsReadBack(n: nat)
    ensures forall c :: c in Digits(n) ==> IsDigit(c)
    ensures ReadDigits(Digits(n), 0) == n
  {
    if n >= 10 {
      DigitsReadBack(n / 10);
      ReadDigitsOneMore(Digits(n / 10), DigitChar(n % 10), 0);
    } else {
      assert Digits(n)[1..] == [];
    }
  }

  // ---------------------------------------------------------------- decimal numerals

  predicate AllDigits(s: string) {
    forall c :: c in s ==> IsDigit(c)
  }

  /** The number a decimal numeral stands for. */
  function Value(s: string): nat
    requires AllDigits(s)
  {
    if s == [] then 0
    else
      assert s == s[..|s| - 1] + [s[|s| - 1]];
      Value(s[..|s| - 1]) * 10 + DigitValue(s[|s| - 1])
  }

  lemma {:induction false} ReadsValue(s: string)
    requires AllDigits(s)
    ensures ReadDigits(s, 0) == Value(s)
  {
    if s != [] {
      var front, last := s[..|s| - 1], s[|s| - 1];
      assert s == front + [last];
      ReadsValue(front);
      ReadDigitsOneMore(front, last, 0);
    }
  }

  lemma {:induction false} ReadStops(s: string, rest: string, acc: nat)
    requires AllDigits(s) && (rest == [] || !IsDigit(rest[0]))
    ensures ReadDigits(s + rest, acc) == ReadDigits(s, acc)
  {
    if s == [] {
      assert s + rest == rest;
    } else {
      assert (s + rest)[0] == s[0] && (s + rest)[1..] == s[1..] + rest;
      ReadStops(s[1..], rest, acc * 10 + DigitValue(s[0]));
    }
  }

  lemma {:induction false} SpaceSkipped(space: string, s: string)
    requires (forall c :: c in space ==> IsSpace(c)) && (s == [] || !IsSpace(s[0]))
    ensures SkipSpace(space + s) == s
  {
    if space == [] {
      assert space + s == s;
    } else {
      assert (space + s)[0] == space[0] && (space + s)[1..] == space[1..] + s;
      SpaceSkipped(space[1..], s);
    }
  }

  /**
    What is read from any text: white space is skipped, then one sign and a numeral, possibly empty, count,
    and nothing after them does.
   */
  lemma AtoiExact(space: string, sign: string, digits: string, rest: string)
    requires (forall c :: c in space ==> IsSpace(c)) && sign in {"", "+", "-"}
    requires AllDigits(digits) && (rest == [] || !IsDigit(rest[0]))
    requires sign == "" && digits == "" && rest != [] ==> !IsSpace(rest[0]) && rest[0] != '+' && rest[0] != '-'
    ensures AtoiAsGuint(space + (sign + (digits + rest))) ==
            Wrap32(Clamp64(if sign == "-" then 0 - Value(digits) as int else Value(digits)))
  {
    var number := digits + rest;
    var signed := sign + number;
    assert sign == "" ==> signed == number;
    assert sign != "" ==> signed[0] == sign[0] && signed[1..] == number;
    assert digits != [] ==> number[0] == digits[0] && IsDigit(digits[0]);
    SpaceSkipped(space, signed);
    ReadStops(digits, rest, 0);
    ReadsValue(digits);
  }

  /** What is printed for a number is its decimal numeral, without leading zeros. */
  lemma {:induction false} DigitsNumeral(n: nat)
    ensures AllDigits(Digits(n)) && Value(Digits(n)) == n
    ensures Digits(n)[0] == '0' ==> n == 0
    ensures n < 10 ==> |Digits(n)| == 1
  {
    DigitsReadBack(n);
    ReadsValue(Digits(n));
    if n >= 10 {
      DigitsNumeral(n / 10);
      assert Digits(n)[0] == Digits(n / 10)[0];
    }
  }

  /** Three paths as they go over the bus. */
  lemma PathsWritten()
    ensures ROOT_PATH == "/org/a11y/atspi/accessible/root"
    ensures RefToPath(42) == "/org/a11y/atspi/accessible/42"
    ensures RefToPath(4_294_967_295) == "/org/a11y/atspi/accessible/-1"
  {
    assert Digits(1) == "1";
    assert Digits(4) == "4";
    assert Digits(42) == "42";
  }

  /** What "%d" prints begins with a digit or a minus sign. */
  lemma PrintedReadsBack(n: int)
    ensures var s := PrintSigned(n);
            && s != [] && (s[0] == '-' || IsDigit(s[0])) && SkipSpace(s) == s
            && (if s[0] == '-' then 0 - ReadDigits(s[1..], 0) else ReadDigits(s, 0)) == n
  {
    DigitsReadBack(if n < 0 then -n else n);
    assert n < 0 ==> PrintSigned(n)[1..] == Digits(-n);
    assert IsDigit(Digits(if n < 0 then -n else n)[0]);
  }

  /**
    Every reference except zero survives printing and parsing, those of 2^31 and above although they
    print with a minus sign.
   */
  lemma PathRoundTrip(ref: nat)
    requires 0 < ref < TWO_32
    ensures ParsePath(RefToPath(ref)) == Ref(ref)
  {
    var s := PrintSigned(AsSigned(ref));
    PrintedReadsBack(AsSigned(ref));
    assert RefToPath(ref)[|PREFIX|..] == s;
    assert s[0] != ROOT[0];
  }

  /** No printed reference collides with the root path. */
  lemma NeverRootPath(ref: nat)
    requires 0 < ref < TWO_32
    ensures RefToPath(ref) != ROOT_PATH && ParsePath(ROOT_PATH) == Root
  {
    PathRoundTrip(ref);
    assert ROOT_PATH[|PREFIX|..] == ROOT;
  }

  /** Distinct references have distinct paths. */
  lemma PathsDistinct(a: nat, b: nat)
    requires 0 < a < TWO_32 && 0 < b < TWO_32
    ensures RefToPath(a) == RefToPath(b) <==> a == b
  {
    PathRoundTrip(a);
    PathRoundTrip(b);
  }
}
