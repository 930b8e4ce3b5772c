/**
 The base-64 numerals of ircd/numnicks.c.
 */
module Base64 {
  import opened Basics
  import opened CString

  const NUMNICKLOG: nat := 6
  const NUMNICKBASE: nat := 64
  const UINT_RANGE: nat := 0x1_0000_0000

  /** The table `convert2y`. */
  function Convert2Y(n: nat): (c: char)
    requires n < NUMNICKBASE
    ensures c != NUL && c != '_'
  {
    if n < 26 then (n + 'A' as int) as char
    else if n < 52 then (n - 26 + 'a' as int) as char
    else if n < 62 then (n - 52 + '0' as int) as char
    else if n == 62 then '[' else ']'
  }

  /** The table `convert2n`: characters that are no digit read as zero. */
  function Convert2N(c: char): (n: nat)
    ensures n < NUMNICKBASE
  {
    if 'A' <= c <= 'Z' then c as int - 'A' as int
    else if 'a' <= c <= 'z' then c as int - 'a' as int + 26
    else if '0' <= c <= '9' then c as int - '0' as int + 52
    else if c == '[' then 62
    else if c == ']' then 63
    else 0
  }

  predicate IsDigit(c: char) {
    'A' <= c <= 'Z' || 'a' <= c <= 'z' || '0' <= c <= '9' || c == '[' || c == ']'
  }

  lemma DigitRoundTrip(n: nat, c: char)
    ensures n < NUMNICKBASE ==> IsDigit(Convert2Y(n)) && Convert2N(Convert2Y(n)) == n
    ensures IsDigit(c) ==> Convert2Y(Convert2N(c)) == c
  {}

  const ALPHABET: string := UPPER + LOWER + "0123456789" + "[]"

  /** Both tables are this alphabet, and what is not in it reads as zero. */
  lemma TablesAre(n: nat, c: char)
    ensures |ALPHABET| == 64
    ensures n < 64 ==> Convert2Y(n) == ALPHABET[n] && Convert2N(ALPHABET[n]) == n
    ensures c !in ALPHABET ==> Convert2N(c) == 0
  {
    hide UPPER, LOWER;
    Alphabets();
    var k := Convert2N(c);
    assert IsDigit(c) ==> ALPHABET[k] == c;
  }

  // ----- Numerals as sequences -----

  function Power(count: nat): (p: nat)
    ensures p >= 1
  {
    if count == 0 then 1 else NUMNICKBASE * Power(count - 1)
  }

  /** The last `count` digits of `v`. */
  function Digits(v: nat, count: nat): (s: seq<char>)
    ensures |s| == count
    ensures forall i :: 0 <= i < count ==> s[i] != NUL && s[i] != '_'
  {
    if count == 0 then [] else Digits(v / NUMNICKBASE, count - 1) + [Convert2Y(v % NUMNICKBASE)]
  }

  /** The number a numeral stands for. */
  function Value(s: seq<char>): nat {
    if s == [] then 0 else Value(s[..|s|-1]) * NUMNICKBASE + Convert2N(s[|s|-1])
  }

  /** Reading back what was written gives the number, as far as the digits reach. */
  lemma {:induction false} ValueOfDigits(v: nat, count: nat)
    ensures Value(Digits(v, count)) == v % Power(count)
  {
    if count > 0 {
      var s := Digits(v, count);
      assert s[..|s|-1] == Digits(v / NUMNICKBASE, count - 1);
      ValueOfDigits(v / NUMNICKBASE, count - 1);
      DigitRoundTrip(v % NUMNICKBASE, 'A');
      ModOfQuotient(v, Power(count - 1));
    } else {
      assert v % 1 == 0;
    }
  }

  lemma ModOfQuotient(v: nat, p: nat)
    requires p > 0
    ensures v % (NUMNICKBASE * p) == (v / NUMNICKBASE) % p * NUMNICKBASE + v % NUMNICKBASE
  {
    var q, r := v / NUMNICKBASE, v % NUMNICKBASE;
    var a, b := q / p, q % p;
    assert q == a * p + b;
    assert v == a * (NUMNICKBASE * p) + (b * NUMNICKBASE + r);
    Quotient(v, NUMNICKBASE * p, a, b * NUMNICKBASE + r);
  }

  /** Writing what was read gives the numeral back. */
  lemma {:induction false} DigitsOfValue(s: seq<char>)
    requires forall i :: 0 <= i < |s| ==> IsDigit(s[i])
    ensures Digits(Value(s), |s|) == s
    ensures Value(s) < Power(|s|)
  {
    if s != [] {
      var t := s[..|s|-1];
      DigitsOfValue(t);
      DigitRoundTrip(0, s[|s|-1]);
      Quotient(Value(s), NUMNICKBASE, Value(t), Convert2N(s[|s|-1]));
      assert s == t + [s[|s|-1]];
    }
  }

  /** Most significant digit first: what three digits stand for. */
  lemma ThreeDigits(v: nat)
    ensures Digits(v, 3) == [Convert2Y(v / 4096 % 64), Convert2Y(v / 64 % 64), Convert2Y(v % 64)]
  {
    assert v / 64 / 64 == v / 4096;
    assert Digits(v, 3) == Digits(v / 64, 2) + [Convert2Y(v % 64)];
    assert Digits(v / 64, 2) == Digits(v / 64 / 64, 1) + [Convert2Y(v / 64 % 64)];
    assert Digits(v / 64 / 64, 1) == Digits(v / 64 / 64 / 64, 0) + [Convert2Y(v / 64 / 64 % 64)];
  }

  lemma Places(v: nat)
    ensures v / 64 / 64 == v / 4096 && v / 4096 / 64 == v / 0x4_0000
    ensures v / 0x4_0000 / 64 == v / 0x100_0000 && v / 0x4_0000 / 4096 == v / 0x4000_0000
  {}

  lemma SixDigits(v: nat)
    ensures Digits(v, 6) == [Convert2Y(v / 0x4000_0000 % 64), Convert2Y(v / 0x100_0000 % 64), Convert2Y(v / 0x4_0000 % 64),
                             Convert2Y(v / 4096 % 64), Convert2Y(v / 64 % 64), Convert2Y(v % 64)]
  {
    hide Digits, Convert2Y;
    Places(v);
    DigitsStep(v, 6);
    DigitsStep(v / 64, 5);
    DigitsStep(v / 4096, 4);
    ThreeDigits(v / 0x4_0000);
  }

  lemma DigitsStep(v: nat, count: nat)
    requires count > 0
    ensures Digits(v, count) == Digits(v / 64, count - 1) + [Convert2Y(v % 64)]
  {}

  /** Different numbers in range have different numerals. */
  lemma DigitsInjective(v: nat, w: nat, count: nat)
    requires v < Power(count) && w < Power(count) && Digits(v, count) == Digits(w, count)
    ensures v == w
  {
    ValueOfDigits(v, count);
    ValueOfDigits(w, count);
    Quotient(v, Power(count), 0, v);
    Quotient(w, Power(count), 0, w);
  }

  lemma Powers()
    ensures Power(1) == 64 && Power(2) == 4096 && Power(3) == 262144 && Power(6) > UINT_RANGE
  {
    assert Power(3) == 64 * Power(2) && Power(2) == 64 * Power(1) && Power(1) == 64 * Power(0);
    assert Power(6) == 64 * Power(5) && Power(5) == 64 * Power(4) && Power(4) == 64 * Power(3);
  }

  lemma {:induction false} ValueBound(s: seq<char>)
    ensures Value(s) < Power(|s|)
  {
    if s != [] { ValueBound(s[..|s|-1]); }
  }

  /** One more digit read into 32 bits: leading digits may be shifted out. */
  lemma ReadDigit(s: seq<char>, k: nat, i: nat)
    requires k < |s| && i == Value(s[..k]) % UINT_RANGE
    ensures (i * NUMNICKBASE % UINT_RANGE + Convert2N(s[k])) % UINT_RANGE == Value(s[..k+1]) % UINT_RANGE
  {
    assert s[..k+1][..k] == s[..k];
    WrapTwice(Value(s[..k]), Convert2N(s[k]));
  }

  lemma WrapTwice(v: nat, d: nat)
    requires d < NUMNICKBASE
    ensures (v % UINT_RANGE * NUMNICKBASE % UINT_RANGE + d) % UINT_RANGE == (v * NUMNICKBASE + d) % UINT_RANGE
  {
    var a, b := v / UINT_RANGE, v % UINT_RANGE;
    var x := b * NUMNICKBASE;
    var y := x % UINT_RANGE + d;
    assert v == a * UINT_RANGE + b;
    assert x == (x / UINT_RANGE) * UINT_RANGE + x % UINT_RANGE;
    assert y == (y / UINT_RANGE) * UINT_RANGE + y % UINT_RANGE;
    Quotient(v * NUMNICKBASE + d, UINT_RANGE, a * NUMNICKBASE + x / UINT_RANGE + y / UINT_RANGE, y % UINT_RANGE);
  }

  // ----- The routines -----

  /** `base64toint`: the first character is read whatever it is, then all up to the terminator. */
  method Base64ToInt(s: seq<char>) returns (i: nat)
    requires IsCString(s) && s != []
    ensures i == Value(s) % UINT_RANGE
    ensures |s| <= 5 ==> i == Value(s)
  {
    hide Value, Convert2N;
    var k := 1;
    OneDigit(s);
    i := Convert2N(s[0]);
    while At(s, k) != NUL
      invariant 1 <= k <= |s| && i == Value(s[..k]) % UINT_RANGE
      decreases |s| - k
    {
      ReadDigit(s, k, i);
      i := i * NUMNICKBASE % UINT_RANGE;
      i := (i + Convert2N(s[k])) % UINT_RANGE;
      k := k + 1;
    }
    assert s[..k] == s;
    FiveDigits(s);
  }

  lemma OneDigit(s: seq<char>)
    requires s != []
    ensures Value(s[..1]) == Convert2N(s[0]) == Convert2N(s[0]) % UINT_RANGE
  {
    assert s[..1][..0] == [];
  }

  lemma FiveDigits(s: seq<char>)
    ensures |s| <= 5 ==> Value(s) < UINT_RANGE
  {
    if |s| <= 5 {
      ValueBound(s);
      PowerMonotone(|s|, 5);
      assert Power(5) == 64 * Power(4) && Power(4) == 64 * Power(3);
      Powers();
    }
  }

  lemma {:induction false} PowerMonotone(a: nat, b: nat)
    requires a <= b
    ensures Power(a) <= Power(b)
    decreases b - a
  {
    if a < b { PowerMonotone(a + 1, b); }
  }

  /** `inttobase64(buf + at, v, count)`: digits from the last to the first, and the terminator. */
  method IntToBase64(buf: array<char>, at: nat, v0: nat, count0: nat)
    requires at + count0 < buf.Length
    modifies buf
    ensures buf[at..at+count0] == Digits(v0, count0) && buf[at+count0] == NUL
    ensures forall k :: 0 <= k < buf.Length && !(at <= k <= at + count0) ==> buf[k] == old(buf[k])
  {
    var v: nat, count: nat := v0, count0;
    buf[at+count] := NUL;
    while count > 0
      invariant count <= count0 && buf[at+count0] == NUL
      invariant Digits(v, count) + buf[at+count..at+count0] == Digits(v0, count0)
      invariant forall k :: 0 <= k < buf.Length && !(at <= k <= at + count0) ==> buf[k] == old(buf[k])
    {
      count := count - 1;
      buf[at+count] := Convert2Y(v % NUMNICKBASE);
      assert buf[at+count..at+count0] == [Convert2Y(v % NUMNICKBASE)] + buf[at+count+1..at+count0];
      v := v / NUMNICKBASE;
    }
  }
}
