/** kernel/itoa.c and libc/lib/stdlib/atoi.c. */
module Text {
  import opened Wrappers

  const INT_MIN: int := -0x8000_0000
  const INT_MAX: int := 0x7FFF_FFFF

  function DigitChar(d: nat): char
    requires d < 16
  {
    ['0', '1', '2', '3', '4', '5', '6', '7', '8', '9', 'A', 'B', 'C', 'D', 'E', 'F'][d]
  }

  /** The digits of n, most significant first, and never none. */
  function Digits(n: nat, base: nat): (s: seq<char>)
    requires 2 <= base <= 16
    ensures |s| > 0
    decreases n
  {
    if n < base then [DigitChar(n)]
    else
      Shrinks(n, base);
      Digits(n / base, base) + [DigitChar(n % base)]
  }

  lemma Shrinks(n: nat, base: nat)
    requires base >= 2
    ensures n / base < n || n == 0
  {
    var q := n / base;
    assert n == q * base + n % base;
    MulAtLeastDouble(q, base);
  }

  lemma MulAtLeastDouble(q: nat, base: nat)
    requires base >= 2
    ensures q * base >= 2 * q
  {
    assert q * base == 2 * q + q * (base - 2);
  }

  function Prefix(n: int, base: nat): seq<char> {
    (if n < 0 then ['-'] else []) + (if base == 16 then ['0', 'x'] else [])
  }

  function Magnitude(n: int): nat {
    if n < 0 then -n else n
  }

  /** What itoa prints. */
  function Printed(n: int, base: nat): seq<char>
    requires 2 <= base <= 16
  {
    Prefix(n, base) + Digits(Magnitude(n), base)
  }

  /** The counting loop of itoa: it moves p past exactly the digits there are. */
  method CountDigits(m: nat, base: nat, start: nat) returns (p: nat)
    requires 2 <= base <= 16
    ensures p == start + |Digits(m, base)|
  {
    hide Digits, DigitChar;
    p := start + 1;
    Quotients(m, base);
    var i := m / base;
    while i > 0
      invariant 0 <= i
      invariant p + (if i > 0 then |Digits(i, base)| else 0) == start + |Digits(m, base)|
      decreases i
    {
      Shrinks(i, base);
      Quotients(i, base);
      p := p + 1;
      i := i / base;
    }
  }

  /** The filling loop of itoa: from cell end - 1 downwards, it stops on cell start. */
  method FillDigits(s: array<char>, m: nat, base: nat, start: nat, end: nat)
    requires 2 <= base <= 16 && end == start + |Digits(m, base)| && end <= s.Length
    modifies s
    ensures s[start..end] == Digits(m, base)
    ensures forall k :: 0 <= k < s.Length && !(start <= k < end) ==> s[k] == old(s[k])
  {
    hide Digits, DigitChar;
    ghost var digits := Digits(m, base);
    var p := end - 1;
    s[p] := DigitChar(m % base);
    Quotients(m, base);
    var i := m / base;
    while i > 0
      invariant 0 <= i && start <= p < end
      invariant if i > 0 then p - start == |Digits(i, base)| && Digits(i, base) + s[p..end] == digits
                else p == start && s[p..end] == digits
      invariant forall k :: 0 <= k < s.Length && !(start <= k < end) ==> s[k] == old(s[k])
      decreases i
    {
      Shrinks(i, base);
      Quotients(i, base);
      ghost var done := s[p..end];
      p := p - 1;
      s[p] := DigitChar(i % base);
      assert s[p..end] == [DigitChar(i % base)] + done;
      i := i / base;
    }
  }

  /** A result of int arithmetic, in 32 bits of two's complement. */
  function Wrap32(x: int): int {
    (x + 0x8000_0000) % 0x1_0000_0000 - 0x8000_0000
  }

  /** n % base in C: the sign is that of n. */
  function Remainder(n: int, base: nat): int
    requires base > 0
  {
    if n < 0 then -((-n) % base) else n % base
  }

  /** The number that itoa takes digits from, n or its 32-bit negation, is the magnitude of n
      if and only if n is not INT_MIN ... */
  lemma NegatesIff(n: int)
    requires INT_MIN <= n <= INT_MAX
    ensures (if n < 0 then Wrap32(-n) else n) == Magnitude(n) <==> n != INT_MIN
  {
  }

  /** ... whose negation is itself, so that itoa in base 10 reads eight places before its table
      of digits. */
  lemma MinimumLeavesTable()
    ensures Wrap32(-INT_MIN) == INT_MIN && Remainder(Wrap32(-INT_MIN), 10) == -8
  {
  }

  /** itoa. */
  method Itoa(n: int, s: array<char>, base: nat)
    requires INT_MIN < n <= INT_MAX && 2 <= base <= 16
    requires |Printed(n, base)| < s.Length
    modifies s
    ensures var t := Printed(n, base);
      && s[..|t|] == t && s[|t|] == NUL
      && forall i :: |t| < i < s.Length ==> s[i] == old(s[i])
  {
    var m := n;
    var p := 0;
    hide Digits, DigitChar, Wrap32;
    NegatesIff(n);
    if n < 0 {
      m := Wrap32(-n);
      s[p] := '-';
      p := p + 1;
    }
    if base == 16 {
      s[p], s[p + 1] := '0', 'x';
      p := p + 2;
    }
    ghost var prefix := s[..p];
    assert prefix == Prefix(n, base);
    var end := CountDigits(m, base, p);
    s[end] := NUL;
    FillDigits(s, m, base, p, end);
    assert s[..p] == prefix;
    assert s[..end] == s[..p] + s[p..end];
  }

  lemma Quotients(n: nat, base: nat)
    requires 2 <= base <= 16
    ensures 0 <= n % base < base && n / base >= 0
    ensures Digits(n, base) == (if n / base > 0 then Digits(n / base, base) else []) + [DigitChar(n % base)]
  {
    hide DigitChar;
    if n < base {
      SmallQuotient(n, base);
    } else {
      LargeQuotient(n, base);
    }
  }

  lemma SmallQuotient(n: nat, base: nat)
    requires n < base
    ensures n / base == 0 && n % base == n
  {
  }

  lemma LargeQuotient(n: nat, base: nat)
    requires 0 < base <= n
    ensures n / base > 0 && 0 <= n % base < base
  {
  }

  // ----- atoi

  predicate IsDigit(c: char) {
    '0' <= c <= '9'
  }

  predicate AllDigits(s: seq<char>) {
    forall i :: 0 <= i < |s| ==> IsDigit(s[i])
  }

  /** The value of a string of decimal digits. */
  function Value(s: seq<char>): int
    requires AllDigits(s)
  {
    if s == [] then 0 else Value(s[..|s| - 1]) * 10 + (s[|s| - 1] as int - '0' as int)
  }

  /** What atoi reads, before 32-bit arithmetic: 0 as soon as something else than a digit follows the optional sign. */
  function Parsed(t: seq<char>): int {
    var neg := t != [] && t[0] == '-';
    var body := if neg then t[1..] else t;
    if !AllDigits(body) then 0 else if neg then -Value(body) else Value(body)
  }

  method Strlen(s: array<char>) returns (len: nat)
    requires exists k :: 0 <= k < s.Length && s[k] == NUL
    ensures len < s.Length && s[len] == NUL && forall i :: 0 <= i < len ==> s[i] != NUL
  {
    len := 0;
    while s[len] != NUL
      invariant len < s.Length && forall i :: 0 <= i < len ==> s[i] != NUL
      decreases s.Length - len
    {
      len := len + 1;
    }
  }

  method Atoi(s: array<char>) returns (r: int, len: nat)
    requires exists k :: 0 <= k < s.Length && s[k] == NUL
    ensures len < s.Length && s[len] == NUL && NUL !in s[..len] && r == Wrap32(Parsed(s[..len]))
  {
    len := Strlen(s);
    var isNeg := s[0] == '-';
    var start := if isNeg then 1 else 0;
    var i := start;
    var ret := 0;
    ghost var t := s[..len];
    ghost var body := if isNeg then t[1..] else t;
    assert isNeg <==> t != [] && t[0] == '-';
    assert body == s[start..len];
    while i < len
      invariant start <= i <= len
      invariant AllDigits(s[start..i])
      invariant ret == Wrap32(Value(s[start..i]))
    {
      if IsDigit(s[i]) {
        assert s[start..i + 1][..i - start] == s[start..i];
        WrapDigit(Value(s[start..i]), s[i] as int - '0' as int);
        ret := Wrap32(ret * 10 + (s[i] as int - '0' as int));
      } else {
        assert body[i - start] == s[i];
        assert !AllDigits(body);
        return 0, len;
      }
      i := i + 1;
    }
    WrapNegative(Value(body));
    r := if isNeg then Wrap32(ret * -1) else ret;
  }

  lemma WrapTurns(x: int, k: int)
    ensures Wrap32(x + k * 0x1_0000_0000) == Wrap32(x)
  {
  }

  lemma WrapDigit(x: int, d: int)
    ensures Wrap32(Wrap32(x) * 10 + d) == Wrap32(x * 10 + d)
  {
    var k := (x + 0x8000_0000) / 0x1_0000_0000;
    assert Wrap32(x) == x - k * 0x1_0000_0000;
    WrapTurns(x * 10 + d, -k * 10);
  }

  lemma WrapNegative(x: int)
    ensures Wrap32(Wrap32(x) * -1) == Wrap32(-x)
  {
    var k := (x + 0x8000_0000) / 0x1_0000_0000;
    assert Wrap32(x) == x - k * 0x1_0000_0000;
    WrapTurns(-x, k);
  }

  lemma {:induction false} DecimalValue(n: nat)
    ensures var d := Digits(n, 10);
      AllDigits(d) && Value(d) == n
    decreases n
  {
    if n >= 10 {
      Shrinks(n, 10);
      DecimalValue(n / 10);
      var d := Digits(n, 10);
      assert d[..|d| - 1] == Digits(n / 10, 10);
    } else {
      assert Digits(n, 10)[..0] == [];
    }
  }

  // ----- numbers read without the code above

  const DECIMAL := "0123456789"

  /** The value of a character as a digit of some base up to 16. */
  function DigitValue(c: char): Option<nat> {
    if '0' <= c <= '9' then Some(c as int - '0' as int)
    else if 'A' <= c <= 'F' then Some(c as int - 'A' as int + 10)
    else None
  }

  function ValueIn(s: seq<char>, base: nat): Option<nat> {
    if s == [] then Some(0)
    else
      var a :- ValueIn(s[..|s| - 1], base);
      var d :- DigitValue(s[|s| - 1]);
      if d < base then Some(a * base + d) else None
  }

  /** The number that a text denotes: a sign, "0x" in base 16, and at least one digit. */
  function NumberIn(t: seq<char>, base: nat): Option<int> {
    if t != [] && t[0] == '-' then
      var n :- UnsignedIn(t[1..], base);
      Some(-n)
    else
      UnsignedIn(t, base)
  }

  function UnsignedIn(t: seq<char>, base: nat): Option<int> {
    var digits :- if base != 16 then Some(t) else if "0x" <= t then Some(t[2..]) else None;
    if digits == [] then None
    else
      var n :- ValueIn(digits, base);
      Some(n)
  }

  lemma {:induction false} DigitsValue(n: nat, base: nat)
    requires 2 <= base <= 16
    ensures var d := Digits(n, base);
      ValueIn(d, base) == Some(n) && d[0] != '-' && (d[0] == '0' ==> n == 0 && |d| == 1)
    decreases n
  {
    hide DigitChar, DigitValue;
    if n >= base {
      Shrinks(n, base);
      LargeQuotient(n, base);
      DigitsValue(n / base, base);
      CharValue(n % base);
      var d := Digits(n, base);
      assert d[..|d| - 1] == Digits(n / base, base);
      Parts(n, base);
      assert ValueIn(d, base) == Some(n / base * base + n % base);
    } else {
      CharValue(n);
      assert Digits(n, base)[..0] == [];
    }
  }

  lemma CharValue(d: nat)
    requires d < 16
    ensures DigitValue(DigitChar(d)) == Some(d) && DigitChar(d) != '-' && (DigitChar(d) == '0' ==> d == 0)
  {
  }

  lemma Parts(n: nat, base: nat)
    requires base > 0
    ensures n / base * base + n % base == n
  {
  }

  /** What itoa prints denotes the number, in every base, and has no superfluous zero. */
  lemma PrintedValue(n: int, base: nat)
    requires 2 <= base <= 16
    ensures NumberIn(Printed(n, base), base) == Some(n)
    ensures var digits := Printed(n, base)[|Prefix(n, base)|..]; digits[0] == '0' ==> |digits| == 1
  {
    DigitsValue(Magnitude(n), base);
    var d := Digits(Magnitude(n), base);
    var t := Printed(n, base);
    assert t[|Prefix(n, base)|..] == d;
    hide Digits, ValueIn, UnsignedIn;
    UnsignedDigits(d, Magnitude(n), base);
    assert n < 0 ==> t[1..] == if base == 16 then "0x" + d else d;
    assert n >= 0 ==> t == if base == 16 then "0x" + d else d;
  }

  lemma UnsignedDigits(d: seq<char>, n: nat, base: nat)
    requires d != [] && ValueIn(d, base) == Some(n)
    ensures UnsignedIn(if base == 16 then "0x" + d else d, base) == Some(n)
  {
    assert ("0x" + d)[2..] == d;
  }

  lemma {:induction false} SameValue(s: seq<char>)
    requires AllDigits(s)
    ensures ValueIn(s, 10) == Some(Value(s))
    decreases |s|
  {
    if s != [] {
      SameValue(s[..|s| - 1]);
    }
  }

  /** What atoi reads, in terms of NumberIn: the number behind an optional sign, if there are
      digits alone, and 0 if there are none, or if there is anything else. */
  lemma ParsedNumber(t: seq<char>)
    ensures var body := if t != [] && t[0] == '-' then t[1..] else t;
      if body != [] && forall c :: c in body ==> c in DECIMAL then NumberIn(t, 10) == Some(Parsed(t))
      else Parsed(t) == 0
  {
    var body := if t != [] && t[0] == '-' then t[1..] else t;
    InDecimal(body);
    hide ValueIn, Value;
    if AllDigits(body) {
      SameValue(body);
      EmptyValue();
      assert t != [] && t[0] == '-' ==> !IsDigit(t[0]);
    }
  }

  lemma InDecimal(s: seq<char>)
    ensures (forall c :: c in s ==> c in DECIMAL) <==> AllDigits(s)
  {
    forall c: char ensures c in DECIMAL <==> IsDigit(c) {
      if IsDigit(c) {
        assert DECIMAL[c as int - '0' as int] == c;
      }
    }
  }

  lemma EmptyValue()
    ensures Value([]) == 0
  {
  }

  /** atoi inverts itoa in base 10, on every int. */
  lemma PrintParse(n: int)
    ensures Parsed(Printed(n, 10)) == n
    ensures Wrap32(Parsed(Printed(n, 10))) == n <==> INT_MIN <= n <= INT_MAX
  {
    DecimalValue(Magnitude(n));
    var t := Printed(n, 10);
    assert n < 0 ==> t[1..] == Digits(-n, 10);
    assert n >= 0 ==> t == Digits(n, 10) && IsDigit(t[0]);
  }
}
