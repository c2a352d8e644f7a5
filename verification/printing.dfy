/** Number printing (libc/string/itoa.c, utoa.c, strrev.c, strlen.c). Strings are arrays of
    characters ended by a NUL. */
module Printing {
  import opened Powers

  const LONG_MIN: int := -0x8000_0000_0000_0000
  const LONG_MAX: int := 0x7fff_ffff_ffff_ffff
  const ULONG_MAX: int := 0xffff_ffff_ffff_ffff
  const NUL: char := '\0'

  // C division truncates toward zero; the remainder has the sign of the dividend.
  function Quot(a: int, b: int): int
    requires b > 0
  {
    if a >= 0 then a / b else -(-a / b)
  }

  function Rem(a: int, b: int): int
    requires b > 0
  {
    a - Quot(a, b) * b
  }

  function Abs(a: int): nat { if a < 0 then -a else a }

  lemma {:induction false} TruncatedDivision(a: int, b: int)
    requires b > 0
    ensures Abs(Quot(a, b)) == Abs(a) / b && Abs(Rem(a, b)) == Abs(a) % b
    ensures a < 0 ==> Rem(a, b) <= 0 && Quot(a, b) <= 0
    ensures a >= 0 ==> Rem(a, b) >= 0 && Quot(a, b) >= 0
  {
    hide Quot, Rem;
    var q, r := Abs(a) / b, Abs(a) % b;
    DivisionParts(Abs(a), b);
    QuotRem(a, b, q, r);
  }

  lemma {:induction false} DivisionParts(n: nat, b: int)
    requires b > 0
    ensures 0 <= n / b && 0 <= n % b && n / b * b + n % b == n
  {
  }

  // The product is given by name, so that only linear arithmetic is left.
  lemma {:induction false} QuotRem(a: int, b: int, q: int, r: int)
    requires b > 0 && q == Abs(a) / b && q * b + r == Abs(a)
    ensures Quot(a, b) == (if a >= 0 then q else -q) && Rem(a, b) == if a >= 0 then r else -r
  {
    Negated(q, b);
  }

  lemma {:induction false} Negated(q: int, b: int)
    ensures -q * b == -(q * b)
  {
  }

  // ---------- Numerals ----------

  /** The character of a digit: 0 to 9, then letters from a on. */
  function DigitChar(d: nat): char
    requires d < 36
  {
    if d > 9 then 'a' + (d - 10) as char else '0' + d as char
  }

  function DigitValue(c: char): nat {
    if '0' <= c <= '9' then (c - '0') as nat else if 'a' <= c <= 'z' then (c - 'a') as nat + 10 else 0
  }

  lemma {:induction false} DigitRoundTrip(d: nat)
    requires d < 36
    ensures DigitChar(d) == "0123456789abcdefghijklmnopqrstuvwxyz"[d]
    ensures DigitValue(DigitChar(d)) == d && DigitChar(d) != NUL && DigitChar(d) != '-'
    ensures DigitChar(d) == '0' <==> d == 0
  {
  }

  /** The number a numeral stands for. */
  function Parse(s: string, base: nat): nat {
    if s == [] then 0 else Parse(s[..|s| - 1], base) * base + DigitValue(s[|s| - 1])
  }

  function ParseSigned(s: string, base: nat): int {
    if s != [] && s[0] == '-' then -(Parse(s[1..], base) as int) else Parse(s, base)
  }

  function Last(n: nat, base: nat): (d: nat)
    requires 2 <= base <= 36
    ensures d < base
  {
    n % base
  }

  function Rest(n: nat, base: nat): (m: nat)
    requires 2 <= base <= 36
    ensures m <= n / 2 && (n != 0 ==> m < n)
  {
    QuotientHalves(n, base);
    n / base
  }

  lemma {:induction false} QuotientHalves(n: nat, base: nat)
    requires base >= 2
    ensures 0 <= n / base <= n / 2
  {
    var q := n / base;
    assert q * 2 <= q * base <= n;
  }

  lemma {:induction false} LastRest(n: nat, base: nat)
    requires 2 <= base <= 36
    ensures Rest(n, base) * base + Last(n, base) == n
    ensures Rest(n, base) == 0 ==> Last(n, base) == n
  {
  }

  /** The digits of a number, least significant first: the order the loops produce them in. */
  function Digits(n: nat, base: nat): string
    requires 2 <= base <= 36
    decreases n
  {
    if n == 0 then [] else [DigitChar(Last(n, base))] + Digits(Rest(n, base), base)
  }

  function Reversed(s: string): (r: string)
    ensures |r| == |s|
    ensures forall i :: 0 <= i < |s| ==> r[i] == s[|s| - 1 - i]
  {
    if s == [] then [] else Reversed(s[1..]) + [s[0]]
  }

  /** The numeral of a number. */
  function Numeral(n: nat, base: nat): string
    requires 2 <= base <= 36
  {
    if n == 0 then "0" else Reversed(Digits(n, base))
  }

  function SignedNumeral(n: int, base: nat): string
    requires 2 <= base <= 36
  {
    if n < 0 then "-" + Numeral(-n, base) else Numeral(n, base)
  }

  lemma {:induction false} ParseAppend(s: string, c: char, base: nat)
    ensures Parse(s + [c], base) == Parse(s, base) * base + DigitValue(c)
  {
    assert (s + [c])[..|s|] == s;
  }

  lemma {:induction false} ParseDigits(n: nat, base: nat)
    requires 2 <= base <= 36
    ensures Parse(Reversed(Digits(n, base)), base) == n
    decreases n
  {
    hide DigitChar, DigitValue, Parse, Last, Rest;
    if n != 0 {
      var m := Rest(n, base);
      ParseDigits(m, base);
      DigitRoundTrip(Last(n, base));
      LastRest(n, base);
      assert Digits(n, base)[1..] == Digits(m, base);
      ParseAppend(Reversed(Digits(m, base)), DigitChar(Last(n, base)), base);
    } else {
      ParseEmpty(base);
    }
  }

  lemma {:induction false} ParseEmpty(base: nat)
    ensures Parse("", base) == 0
  {
  }

  lemma {:induction false} DigitsShape(n: nat, base: nat)
    requires 2 <= base <= 36
    ensures forall c :: c in Digits(n, base) ==> c != NUL && c != '-'
    ensures n != 0 ==> Digits(n, base) != [] && Digits(n, base)[|Digits(n, base)| - 1] != '0'
    decreases n
  {
    hide DigitChar, DigitValue, Last, Rest;
    if n != 0 {
      DigitsShape(Rest(n, base), base);
      DigitRoundTrip(Last(n, base));
      LastRest(n, base);
    }
  }

  lemma {:induction false} DigitsLength(n: nat, base: nat, k: nat)
    requires 2 <= base <= 36 && n < Pow2(k)
    ensures |Digits(n, base)| <= k
    decreases k
  {
    hide DigitChar, Last, Rest;
    if n != 0 {
      DigitsLength(Rest(n, base), base, k - 1);
    }
  }

  lemma {:induction false} Pow2Of64()
    ensures Pow2(64) == ULONG_MAX + 1
  {
    Pow2Of4();
    hide Pow2;
    Pow2Sum(4, 4);
    Pow2Sum(8, 8);
    Pow2Sum(16, 16);
    Pow2Sum(32, 32);
  }

  lemma {:induction false} Pow2Of4()
    ensures Pow2(4) == 16
  {
  }

  /** Parsing a printed number gives the number back, for every 64-bit value; there is no leading
      zero, and with sign and terminator it takes at most 66 characters. */
  lemma {:induction false} PrintedNumber(n: int, base: nat)
    requires 2 <= base <= 36 && LONG_MIN <= n <= ULONG_MAX
    ensures ParseSigned(SignedNumeral(n, base), base) == n
    ensures Numeral(Abs(n), base)[0] == '0' ==> n == 0 && Numeral(Abs(n), base) == "0"
    ensures |SignedNumeral(n, base)| + 1 <= 66
    ensures n >= 0 ==> |SignedNumeral(n, base)| + 1 <= 65
    ensures NUL !in SignedNumeral(n, base)
  {
    hide Parse, Numeral;
    var s := Numeral(Abs(n), base);
    NumeralFacts(Abs(n), base);
    NumeralParses(Abs(n), base);
    if n < 0 {
      assert ("-" + s)[1..] == s;
    }
  }

  lemma {:induction false} NumeralParses(n: nat, base: nat)
    requires 2 <= base <= 36
    ensures Parse(Numeral(n, base), base) == n
    ensures n <= ULONG_MAX ==> |Numeral(n, base)| <= 64
  {
    hide Digits, Parse, Pow2;
    ParseDigits(n, base);
    Pow2Of64();
    if n <= ULONG_MAX {
      DigitsLength(n, base, 64);
    }
    ParseEmpty(base);
    ParseAppend("", '0', base);
    assert "" + ['0'] == "0";
  }

  lemma {:induction false} NumeralFacts(n: nat, base: nat)
    requires 2 <= base <= 36
    ensures Numeral(n, base) != [] && NUL !in Numeral(n, base) && '-' !in Numeral(n, base)
    ensures Numeral(n, base)[0] == '0' ==> n == 0 && Numeral(n, base) == "0"
  {
    hide Digits, Reversed;
    DigitsShape(n, base);
    var ds := Digits(n, base);
    forall i | 0 <= i < |ds| ensures Reversed(ds)[i] in ds {
    }
  }

  // ---------- Strings in buffers ----------

  /** The characters of a string: those before the first NUL. */
  ghost predicate IsString(buffer: seq<char>, s: string) {
    |s| < |buffer| && buffer[..|s|] == s && buffer[|s|] == NUL && NUL !in s
  }

  lemma {:induction false} InsideString(buffer: seq<char>, s: string)
    requires IsString(buffer, s)
    ensures forall k: nat :: k < |s| ==> k < |buffer| && buffer[k] != NUL
  {
    forall k: nat | k < |s| ensures k < |buffer| && buffer[k] != NUL {
      assert buffer[k] == buffer[..|s|][k] == s[k];
      assert s[k] in s;
    }
  }

  lemma {:induction false} SameString(buffer: seq<char>, s: string, s': string)
    requires IsString(buffer, s) && IsString(buffer, s')
    ensures s == s'
  {
    InsideString(buffer, s);
    InsideString(buffer, s');
    assert |s| == |s'|;
  }

  /** strlen */
  method Strlen(str: array<char>) returns (n: nat)
    requires NUL in str[..]
    ensures n < str.Length && IsString(str[..], str[..n])
  {
    n := 0;
    while str[n] != NUL
      invariant n < str.Length && NUL !in str[..n] && NUL in str[n..]
      decreases str.Length - n
    {
      n := n + 1;
    }
  }

  lemma {:induction false} StringHasNul(buffer: seq<char>, s: string)
    requires IsString(buffer, s)
    ensures NUL in buffer && |s| < |buffer|
  {
  }

  /** strrev, in place. An empty string is not for it: its last index would wrap. */
  method Strrev(str: array<char>, ghost s: string)
    requires IsString(str[..], s) && s != ""
    modifies str
    ensures str[..] == Reversed(s) + old(str[..])[|s|..]
    ensures IsString(str[..], Reversed(s))
  {
    hide Reversed, IsString;
    ghost var was := str[..];
    StringHasNul(was, s);
    var n := Strlen(str);
    SameString(str[..], str[..n], s);
    var i, j := 0, n - 1;
    while i < j
      invariant 0 <= i <= n && j == n - 1 - i && i <= j + 1
      invariant forall k :: 0 <= k < i ==> str[k] == was[n - 1 - k] && str[n - 1 - k] == was[k]
      invariant forall k :: i <= k <= j || n <= k < str.Length ==> str[k] == was[k]
    {
      str[i], str[j] := str[j], str[i];
      i, j := i + 1, j - 1;
    }
    ReversedPrefix(was, str[..], s);
  }

  lemma {:induction false} ReversedPrefix(was: seq<char>, now: seq<char>, s: string)
    requires IsString(was, s) && |now| == |was|
    requires forall k: nat :: k < |s| ==> now[k] == was[|s| - 1 - k]
    requires forall k: nat :: |s| <= k < |was| ==> now[k] == was[k]
    ensures now == Reversed(s) + was[|s|..] && IsString(now, Reversed(s))
  {
    hide Reversed;
    var n := |s|;
    forall k: nat | k < n ensures now[k] == Reversed(s)[k] && Reversed(s)[k] in s {
      assert was[n - 1 - k] == was[..n][n - 1 - k];
    }
    assert now[..n] == Reversed(s);
  }

  lemma {:induction false} ReversedAppend(s: string, c: char)
    ensures Reversed(s + [c]) == [c] + Reversed(s)
  {
  }

  /** The digits written so far, and the number still to be printed. */
  ghost predicate Emitting(n: nat, base: nat, done: string, m: nat)
    requires 2 <= base <= 36
  {
    Digits(n, base) == done + Digits(m, base)
  }

  lemma {:induction false} DigitsStep(m: nat, base: nat)
    requires 2 <= base <= 36 && m != 0
    ensures Digits(m, base) == [DigitChar(Last(m, base))] + Digits(Rest(m, base), base)
  {
    hide DigitChar, Last, Rest;
  }

  lemma {:induction false} EmitDigit(n: nat, base: nat, done: string, m: nat)
    requires 2 <= base <= 36 && m != 0 && Emitting(n, base, done, m)
    ensures Emitting(n, base, done + [DigitChar(Last(m, base))], Rest(m, base))
    ensures |done| < |Digits(n, base)|
  {
    hide *;
    DigitsStep(m, base);
    EmittingIs(n, base, done, m);
    EmittingIs(n, base, done + [DigitChar(Last(m, base))], Rest(m, base));
    MoveDigit(done, DigitChar(Last(m, base)), Digits(Rest(m, base), base));
  }

  lemma {:induction false} EmittingIs(n: nat, base: nat, done: string, m: nat)
    requires 2 <= base <= 36
    ensures Emitting(n, base, done, m) <==> Digits(n, base) == done + Digits(m, base)
  {
  }

  lemma {:induction false} MoveDigit(done: string, c: char, rest: string)
    ensures (done + [c]) + rest == done + ([c] + rest)
  {
  }

  /** The string in the buffer once all digits are out, and what reversing it gives. */
  lemma {:induction false} EmittedAll(n: nat, base: nat, done: string)
    requires 2 <= base <= 36 && n != 0 && Emitting(n, base, done, 0)
    ensures done == Digits(n, base) != "" && NUL !in done && NUL !in done + "-"
    ensures Reversed(done) == Numeral(n, base) && Reversed(done + "-") == "-" + Numeral(n, base)
  {
    DigitsShape(n, base);
    ReversedAppend(done, '-');
  }

  lemma {:induction false} NothingEmitted(n: nat, base: nat)
    requires 2 <= base <= 36
    ensures Emitting(n, base, "", n)
    ensures n != 0 ==> |Numeral(n, base)| == |Digits(n, base)|
    ensures Numeral(0, base) == "0"
  {
  }

  lemma {:induction false} QuotientIs(m: nat, base: nat)
    requires 2 <= base <= 36
    ensures m % base == Last(m, base) && m / base == Rest(m, base)
  {
  }

  /** utoa */
  method Utoa(number: nat, str: array<char>, base: nat)
    requires 2 <= base <= 36 && number <= ULONG_MAX
    requires |Numeral(number, base)| < str.Length
    modifies str
    ensures IsString(str[..], Numeral(number, base))
  {
    hide Digits, Numeral, DigitChar, Emitting, Last, Rest;
    NothingEmitted(number, base);
    if number == 0 {
      str[0], str[1] := '0', NUL;
      return;
    }
    var m: nat, i: nat := number, 0;
    while m != 0
      invariant i < str.Length && Emitting(number, base, str[..i], m)
      invariant |Digits(number, base)| < str.Length
      decreases m
    {
      ghost var done := str[..i];
      EmitDigit(number, base, done, m);
      QuotientIs(m, base);
      var temp := m % base;
      str[i] := DigitChar(temp);
      assert str[..i + 1] == done + [DigitChar(temp)];
      m := m / base;
      i := i + 1;
    }
    str[i] := NUL;
    EmittedAll(number, base, str[..i]);
    Strrev(str, str[..i]);
  }

  /** The next digit of a signed number, and what is left of it. */
  lemma {:induction false} NextDigit(m: int, base: nat, sign: bool)
    requires 2 <= base <= 36 && (if sign then m <= 0 else m >= 0)
    ensures var temp := if sign then Rem(m, base) * -1 else Rem(m, base);
            0 <= temp < 36 && temp == Last(Abs(m), base)
    ensures Abs(Quot(m, base)) == Rest(Abs(m), base)
    ensures if sign then Quot(m, base) <= 0 else Quot(m, base) >= 0
  {
    hide Quot, Rem;
    TruncatedDivision(m, base);
  }

  lemma {:induction false} AbsValues(n: int)
    ensures Abs(n) == 0 <==> n == 0
    ensures n < 0 ==> Abs(n) == -n
    ensures n >= 0 ==> Abs(n) == n
  {
  }

  lemma {:induction false} SignedLength(n: int, base: nat)
    requires 2 <= base <= 36
    ensures SignedNumeral(0, base) == "0"
    ensures n < 0 ==> SignedNumeral(n, base) == "-" + Numeral(Abs(n), base)
    ensures n >= 0 ==> SignedNumeral(n, base) == Numeral(Abs(n), base)
  {
    hide Digits;
  }

  lemma {:induction false} Terminated(buffer: seq<char>, s: string)
    requires |s| < |buffer| && buffer[..|s|] == s && buffer[|s|] == NUL && NUL !in s
    ensures IsString(buffer, s)
  {
  }

  lemma {:induction false} ZeroString(buffer: seq<char>)
    requires |buffer| >= 2 && buffer[0] == '0' && buffer[1] == NUL
    ensures IsString(buffer, "0")
  {
    assert buffer[..1] == "0";
  }

  /** itoa: digits are taken from the signed number as it is, never from its negation, so that the
      smallest number is printed like any other. */
  method Itoa(number: int, str: array<char>, base: nat)
    requires 2 <= base <= 36 && LONG_MIN <= number <= LONG_MAX
    requires |SignedNumeral(number, base)| < str.Length
    modifies str
    ensures IsString(str[..], SignedNumeral(number, base))
  {
    hide *;
    AbsValues(number);
    NothingEmitted(Abs(number), base);
    SignedLength(number, base);
    if number == 0 {
      str[0], str[1] := '0', NUL;
      ZeroString(str[..]);
      return;
    }
    var sign := number < 0;
    var m, i: nat := number, 0;
    while m != 0
      invariant (if sign then m <= 0 else m >= 0) && (if sign then i + 1 else i) < str.Length
      invariant Emitting(Abs(number), base, str[..i], Abs(m))
      decreases Abs(m)
    {
      ghost var done := str[..i];
      AbsValues(m);
      EmitDigit(Abs(number), base, done, Abs(m));
      NextDigit(m, base, sign);
      var temp := Rem(m, base);
      if sign {
        temp := temp * -1;
      }
      str[i] := DigitChar(temp);
      assert str[..i + 1] == done + [DigitChar(temp)];
      m := Quot(m, base);
      i := i + 1;
    }
    ghost var s := str[..i];
    AbsValues(m);
    EmittedAll(Abs(number), base, s);
    if sign {
      str[i] := '-';
      i := i + 1;
      s := s + "-";
    }
    str[i] := NUL;
    assert str[..i] == s;
    Terminated(str[..], s);
    Strrev(str, s);
  }
}
