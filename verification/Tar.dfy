/** The tar archive walk of kernel/ramdisk.c, in its 32-bit arithmetic. */
module Tar {
  import opened Wrappers

  const TWO32 := 0x1_0000_0000

  predicate OctalDigits(s: seq<char>) {
    forall i :: 0 <= i < |s| ==> '0' <= s[i] <= '7'
  }

  /** in[j] - '0' for a byte of the field; char is signed. */
  function DigitOf(c: char): int {
    (if c as int < 128 then c as int else c as int - 256) - '0' as int
  }

  /** The positional value in base 8, whatever the bytes. */
  function Octal(s: seq<char>): int {
    if s == [] then 0 else Octal(s[..|s| - 1]) * 8 + DigitOf(s[|s| - 1])
  }

  lemma {:induction false} OctalNat(s: seq<char>)
    requires OctalDigits(s)
    ensures Octal(s) >= 0
    decreases |s|
  {
    if s != [] {
      OctalNat(s[..|s| - 1]);
    }
  }

  /** The size that a field of octal digits denotes. */
  function SizeOf(s: seq<char>): nat
    requires OctalDigits(s)
  {
    OctalNat(s);
    Octal(s)
  }

  function Pow8(n: nat): nat {
    if n == 0 then 1 else 8 * Pow8(n - 1)
  }

  lemma {:induction false} OctalFirst(s: seq<char>)
    requires s != []
    ensures Octal(s) == DigitOf(s[0]) * Pow8(|s| - 1) + Octal(s[1..])
    decreases |s|
  {
    if |s| > 1 {
      var a := s[..|s| - 1];
      OctalFirst(a);
      assert a[1..] == s[1..][..|s| - 2];
      assert s[1..][|s| - 2] == s[|s| - 1];
      TimesEight(DigitOf(s[0]), Pow8(|a| - 1));
    }
  }

  lemma TimesEight(d: int, p: int)
    ensures d * p * 8 == d * (8 * p)
  {
  }

  const OCTAL := "01234567"

  /** The field that tar writes for n: its last digits in base 8, with leading zeros. */
  function OctalText(n: nat, digits: nat): seq<char>
    decreases digits
  {
    if digits == 0 then [] else OctalText(n / 8, digits - 1) + [OCTAL[n % 8]]
  }

  /** Such a field is read back as n ... */
  lemma {:induction false} OctalInverse(n: nat, digits: nat)
    requires n < Pow8(digits)
    ensures |OctalText(n, digits)| == digits && OctalDigits(OctalText(n, digits))
    ensures Octal(OctalText(n, digits)) == n
    decreases digits
  {
    if digits > 0 {
      OctalInverse(n / 8, digits - 1);
      var s := OctalText(n, digits);
      assert s[..|s| - 1] == OctalText(n / 8, digits - 1);
    }
  }

  /** ... and every field of octal digits is such a field. */
  lemma {:induction false} OctalPrinted(s: seq<char>)
    requires OctalDigits(s)
    ensures 0 <= Octal(s) < Pow8(|s|) && OctalText(Octal(s), |s|) == s
    decreases |s|
  {
    if s != [] {
      var a, c := s[..|s| - 1], s[|s| - 1];
      OctalPrinted(a);
      OctalChar(c);
      LastOctal(Octal(a), DigitOf(c));
      hide DigitOf;
      assert s == a + [c];
    }
  }

  lemma OctalChar(c: char)
    requires '0' <= c <= '7'
    ensures 0 <= DigitOf(c) < 8 && OCTAL[DigitOf(c)] == c
  {
  }

  lemma LastOctal(a: nat, d: nat)
    requires d < 8
    ensures (a * 8 + d) / 8 == a && (a * 8 + d) % 8 == d
  {
  }

  /** What any other byte counts for: the digit is the byte as a signed number, less 48. */
  lemma DigitBytes(c: char)
    requires c as int < 256
    ensures -128 <= DigitOf(c) + 48 < 128 && (DigitOf(c) + 48 - c as int) % 256 == 0
  {
  }

  lemma ElevenDigits()
    ensures Pow8(11) == 0x2_0000_0000
  {
    assert Pow8(4) == 0x1000;
    assert Pow8(8) == 0x100_0000;
  }

  /** getsize: the digits are taken from the last one back, with size and weight in 32 bits.
      For any field the result is its value in base 8, modulo 2^32; for the field that tar
      writes for n it is n, unless n takes more than 32 bits. */
  method GetSize(s: seq<char>) returns (size: Uint32)
    requires |s| >= 11
    ensures size == Octal(s[..11]) % TWO32
    ensures forall n: nat :: n < 0x2_0000_0000 && s[..11] == OctalText(n, 11) ==> size == n % TWO32
  {
    hide Octal, Pow8, DigitOf, OctalText;
    size := 0;
    var count: Uint32 := 1;
    var j := 11;
    NoDigits(s[11..11]);
    while j > 0
      invariant 0 <= j <= 11
      invariant size == Octal(s[j..11]) % TWO32
      invariant count == Pow8(11 - j) % TWO32
    {
      var d := DigitOf(s[j - 1]);
      OneDigit(s, j);
      ModularStep(Octal(s[j..11]), d, Pow8(11 - j));
      ModularWeight(Pow8(11 - j));
      size := (size + d * count) % TWO32;
      count := count * 8 % TWO32;
      j := j - 1;
    }
    assert s[0..11] == s[..11];
    ElevenDigits();
    forall n: nat | n < 0x2_0000_0000 && s[..11] == OctalText(n, 11) ensures size == n % TWO32 {
      OctalInverse(n, 11);
    }
  }

  lemma NoDigits(s: seq<char>)
    requires s == []
    ensures Octal(s) == 0 && Pow8(0) == 1
  {
  }

  lemma OneDigit(s: seq<char>, j: nat)
    requires 0 < j <= 11 <= |s|
    ensures Octal(s[j - 1..11]) == DigitOf(s[j - 1]) * Pow8(11 - j) + Octal(s[j..11])
    ensures Pow8(11 - (j - 1)) == 8 * Pow8(11 - j)
  {
    var t := s[j - 1..11];
    OctalFirst(t);
    assert t[1..] == s[j..11];
  }

  lemma ModularStep(a: int, d: int, c: nat)
    ensures (a % TWO32 + d * (c % TWO32)) % TWO32 == (d * c + a) % TWO32
  {
    var q := c / TWO32;
    assert c == q * TWO32 + c % TWO32;
    MultiplyOut(d, q, c % TWO32);
    Multiple(a % TWO32 + d * (c % TWO32), a / TWO32 + d * q);
  }

  lemma MultiplyOut(d: int, q: int, r: int)
    ensures d * (q * TWO32 + r) == (d * q) * TWO32 + d * r
  {
  }

  lemma ModularWeight(c: nat)
    ensures (c % TWO32) * 8 % TWO32 == 8 * c % TWO32
  {
    Multiple(8 * (c % TWO32), 8 * (c / TWO32));
  }

  lemma Multiple(x: int, k: int)
    ensures (x + k * TWO32) % TWO32 == x % TWO32
  {
  }

  /** The step find_file adds to the address: 32-bit, and unsigned even for size 0. */
  function Step(size: Uint32): Uint32 {
    ((size - 1) % TWO32 / 512 + 2) * 512 % TWO32
  }

  /** A header block and the data in whole blocks. */
  function Span(size: nat): nat {
    512 + (size + 511) / 512 * 512
  }

  /** It is the least number of whole blocks that hold a header block and n bytes. */
  lemma SpanLeast(n: nat)
    ensures Span(n) % 512 == 0 && 512 + n <= Span(n) < 1024 + n
  {
    assert n + 511 == (n + 511) / 512 * 512 + (n + 511) % 512;
  }

  /** The step skips one header and the padded data, for every size and 0 in particular. */
  lemma StepIsSpan(size: Uint32)
    ensures Step(size) == Span(size) % TWO32
  {
    if size == 0 {
    } else {
      assert (size - 1) / 512 + 1 == (size + 511) / 512;
    }
  }

  // ----- archives

  /** The fields of a header block that find_file looks at. */
  datatype Block = Block(filename: seq<char>, size: seq<char>)

  type Header = b: Block | |b.filename| == 100 && |b.size| == 11
    witness Block(seq(100, _ => NUL), seq(11, _ => NUL))

  /** A file: it has a name and an octal size. */
  type Member = b: Header | b.filename[0] != NUL && OctalDigits(b.size)
    witness Block(seq(100, _ => 'a'), seq(11, _ => '0'))

  /** The string name, NUL at its end, and the buffer b agree in their first n characters, or up
      to a NUL. */
  predicate Alike(name: seq<char>, b: seq<char>, n: nat)
    requires n <= |b|
  {
    if |name| >= n then b[..n] == name[..n] else b[..|name|] == name && b[|name|] == NUL
  }

  function CharAt(name: seq<char>, i: nat): char {
    if i < |name| then name[i] else NUL
  }

  /** The first difference is at k. */
  ghost predicate DiffersAt(name: seq<char>, b: seq<char>, k: nat) {
    k < |b| && k <= |name| && CharAt(name, k) != b[k] && forall i :: 0 <= i < k ==> name[i] == b[i]
  }

  /** strncmp: 0 if and only if the two are alike, and otherwise the order of the characters at
      the first difference. */
  method Strncmp(name: seq<char>, b: seq<char>, n: nat) returns (r: int)
    requires NUL !in name && n <= |b|
    ensures r == 0 <==> Alike(name, b, n)
    ensures r < 0 ==> exists k: nat :: k < n && DiffersAt(name, b, k) && CharAt(name, k) < b[k]
    ensures r > 0 ==> exists k: nat :: k < n && DiffersAt(name, b, k) && CharAt(name, k) > b[k]
  {
    for i := 0 to n
      invariant i <= |name| && forall j :: 0 <= j < i ==> name[j] == b[j]
    {
      var c := CharAt(name, i);
      if c != b[i] {
        assert DiffersAt(name, b, i);
        DiffersUnlike(name, b, n, i);
      }
      if c < b[i] {
        return -1;
      } else if c > b[i] {
        return 1;
      } else if c == NUL {
        return 0;
      }
    }
    r := 0;
  }

  lemma DiffersUnlike(name: seq<char>, b: seq<char>, n: nat, k: nat)
    requires n <= |b| && k < n && DiffersAt(name, b, k)
    ensures !Alike(name, b, n)
  {
    if |name| >= n {
      assert b[..n][k] != name[..n][k];
    } else if k < |name| {
      assert b[..|name|][k] != name[k];
    }
  }

  /** strncmp(name, filename, 100) == 0. */
  predicate Names(name: seq<char>, h: Header) {
    Alike(name, h.filename, 100)
  }

  /** Where member k of the archive starts. */
  function Address(first: nat, members: seq<Member>, k: nat): nat
    requires k <= |members|
  {
    if k == 0 then first else Address(first, members, k - 1) + Span(SizeOf(members[k - 1].size))
  }

  /** Memory holds the members one after the other and then a zero block, below 4 GiB. */
  ghost predicate Archived(mem: map<nat, Header>, first: nat, members: seq<Member>) {
    && (forall k :: 0 <= k <= |members| ==>
          Address(first, members, k) in mem && Address(first, members, k) < TWO32)
    && (forall k :: 0 <= k < |members| ==> mem[Address(first, members, k)] == members[k])
    && mem[Address(first, members, |members|)] == Block(seq(100, _ => NUL), seq(11, _ => NUL))
  }

  /** Member k is the first of that name. */
  ghost predicate FoundAt(members: seq<Member>, name: seq<char>, k: nat) {
    k < |members| && Names(name, members[k]) && forall i :: 0 <= i < k ==> !Names(name, members[i])
  }

  /** find_file returns the first member of that name, or NULL at the zero block. An empty
      name is found too: it matches the zero block itself. */
  method FindFile(mem: map<nat, Header>, first: nat, name: seq<char>, ghost members: seq<Member>)
    returns (r: Option<nat>)
    requires Archived(mem, first, members) && NUL !in name
    ensures r.None? ==> name != [] && forall i :: 0 <= i < |members| ==> !Names(name, members[i])
    ensures r.Some? && name != [] ==> exists k :: FoundAt(members, name, k) && r.value == Address(first, members, k)
    ensures name == [] ==> r == Some(Address(first, members, |members|))
  {
    hide Octal, OctalText, Span, Step, Alike, Archived, Address;
    var address := first;
    ghost var k := 0;
    Layout(mem, first, members, 0);
    var order := Strncmp(name, mem[address].filename, 100);
    while order != 0
      invariant 0 <= k <= |members| && address == Address(first, members, k) && address in mem
      invariant order == 0 <==> Names(name, mem[address])
      invariant forall i :: 0 <= i < k ==> !Names(name, members[i])
      decreases |members| - k
    {
      var header := mem[address];
      NameTest(name, header);
      Layout(mem, first, members, k);
      var size := GetSize(header.size);
      address := (address + Step(size)) % TWO32;
      if header.filename[0] == NUL {
        return None;
      }
      NextAddress(first, members, k);
      k := k + 1;
      Layout(mem, first, members, k);
      order := Strncmp(name, mem[address].filename, 100);
    }
    NameTest(name, mem[address]);
    Layout(mem, first, members, k);
    assert name != [] ==> FoundAt(members, name, k);
    r := Some(address);
  }

  lemma Layout(mem: map<nat, Header>, first: nat, members: seq<Member>, k: nat)
    requires Archived(mem, first, members) && k <= |members|
    ensures Address(first, members, k) in mem && Address(first, members, 0) == first
    ensures k < |members| ==> Address(first, members, k + 1) < TWO32
    ensures var h := mem[Address(first, members, k)];
      && (h.filename[0] == NUL <==> k == |members|)
      && (k < |members| ==> h == members[k])
  {
    if k < |members| {
      var m: Member := members[k];
      assert m.filename[0] != NUL;
      assert Address(first, members, k + 1) in mem;
    }
  }

  /** The empty name matches the zero block and nothing else; any other name never does. */
  lemma NameTest(name: seq<char>, h: Header)
    requires NUL !in name
    ensures name == [] ==> (Names(name, h) <==> h.filename[0] == NUL)
    ensures name != [] && Names(name, h) ==> h.filename[0] != NUL
  {
    if name != [] && Names(name, h) {
      if |name| >= 100 {
        assert h.filename[0] == name[0];
      } else {
        assert h.filename[0] == h.filename[..|name|][0];
      }
    }
  }

  /** The walk lands on the next header. */
  lemma NextAddress(first: nat, members: seq<Member>, k: nat)
    requires k < |members| && Address(first, members, k + 1) < TWO32
    ensures members[k].size[..11] == members[k].size
    ensures (Address(first, members, k) + Step(SizeOf(members[k].size) % TWO32)) % TWO32
         == Address(first, members, k + 1)
  {
    var n := SizeOf(members[k].size);
    StepIsSpan(n % TWO32);
    SpanModulo(n);
    SumModulo(Address(first, members, k), Span(n));
  }

  lemma SpanModulo(n: nat)
    ensures Span(n % TWO32) % TWO32 == Span(n) % TWO32
  {
    var q := n / TWO32;
    assert n + 511 == (n % TWO32 + 511) + 512 * (q * 0x80_0000);
    DivShift(n % TWO32 + 511, q * 0x80_0000);
    Multiple(Span(n % TWO32), q);
  }

  lemma DivShift(x: int, k: int)
    ensures (x + 512 * k) / 512 == x / 512 + k
  {
  }

  lemma SumModulo(a: nat, b: nat)
    requires a + b < TWO32
    ensures (a + b % TWO32) % TWO32 == a + b
  {
  }
}
