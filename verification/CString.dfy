/**
 The character layer every mask routine works on: NUL-terminated strings seen as
 sequences without a NUL, and the server's case folding table.
 */
module CString {

  const NUL: char := '\0'

  /** A C string: no embedded terminator. */
  predicate IsCString(s: seq<char>) {
    NUL !in s
  }

  /** The character a C pointer at offset `i` sees: the terminator at the end. */
  function At(s: seq<char>, i: nat): char
    requires i <= |s|
  {
    if i < |s| then s[i] else NUL
  }

  /** `NTL_tolower_tab`: RFC 1459 folding plus the Latin-1 capitals. */
  function ToLower(c: char): (r: char)
    ensures r != 'A' && r != 'Z' && r != '\\'
    ensures r == '*' <==> c == '*'
    ensures r == '?' <==> c == '?'
    ensures r == NUL <==> c == NUL
  {
    if 'A' <= c <= '^' then (c as int + 0x20) as char
    else if '\U{c0}' <= c <= '\U{de}' && c != '\U{d0}' && c != '\U{d7}' then (c as int + 0x20) as char
    else c
  }

  const UPPER: string := "ABCDEFGHIJKLMNOPQRSTUVWXYZ"
  const LOWER: string := "abcdefghijklmnopqrstuvwxyz"
  // The Latin-1 capitals up to the multiplication sign, without the Icelandic eth, and behind it.
  const ACCENTED: string := "\U{c0}\U{c1}\U{c2}\U{c3}\U{c4}\U{c5}\U{c6}\U{c7}\U{c8}\U{c9}\U{ca}\U{cb}\U{cc}\U{cd}\U{ce}\U{cf}"
  const ACCENTED_MORE: string := "\U{d1}\U{d2}\U{d3}\U{d4}\U{d5}\U{d6}"
  const ACCENTED_LAST: string := "\U{d8}\U{d9}\U{da}\U{db}\U{dc}\U{dd}\U{de}"
  const ACCENTED_LOWER: string := "\U{e0}\U{e1}\U{e2}\U{e3}\U{e4}\U{e5}\U{e6}\U{e7}\U{e8}\U{e9}\U{ea}\U{eb}\U{ec}\U{ed}\U{ee}\U{ef}"
  const ACCENTED_LOWER_MORE: string := "\U{f1}\U{f2}\U{f3}\U{f4}\U{f5}\U{f6}"
  const ACCENTED_LOWER_LAST: string := "\U{f8}\U{f9}\U{fa}\U{fb}\U{fc}\U{fd}\U{fe}"
  const CAPITALS: string := UPPER + "[\\]^" + ACCENTED + ACCENTED_MORE + ACCENTED_LAST
  const SMALLS: string := LOWER + "{|}~" + ACCENTED_LOWER + ACCENTED_LOWER_MORE + ACCENTED_LOWER_LAST

  lemma Alphabets()
    ensures |UPPER| == |LOWER| == 26
    ensures forall i :: 0 <= i < 26 ==> UPPER[i] as int == 'A' as int + i && LOWER[i] as int == 'a' as int + i
  {}

  lemma Accents()
    ensures |ACCENTED| == |ACCENTED_LOWER| == 16 && |ACCENTED_MORE| == |ACCENTED_LOWER_MORE| == 6
    ensures |ACCENTED_LAST| == |ACCENTED_LOWER_LAST| == 7
    ensures forall i :: 0 <= i < 16 ==> ACCENTED[i] as int == 0xC0 + i && ACCENTED_LOWER[i] as int == 0xE0 + i
    ensures forall i :: 0 <= i < 6 ==> ACCENTED_MORE[i] as int == 0xD1 + i && ACCENTED_LOWER_MORE[i] as int == 0xF1 + i
    ensures forall i :: 0 <= i < 7 ==> ACCENTED_LAST[i] as int == 0xD8 + i && ACCENTED_LOWER_LAST[i] as int == 0xF8 + i
  {}

  lemma CapitalsAre(i: nat)
    ensures |CAPITALS| == 59
    ensures i < 30 ==> CAPITALS[i] as int == 'A' as int + i
    ensures 30 <= i < 46 ==> CAPITALS[i] as int == 0xC0 + i - 30
    ensures 46 <= i < 52 ==> CAPITALS[i] as int == 0xD1 + i - 46
    ensures 52 <= i < 59 ==> CAPITALS[i] as int == 0xD8 + i - 52
  {
    hide UPPER, ACCENTED, ACCENTED_MORE, ACCENTED_LAST;
    Alphabets();
    Accents();
  }

  lemma SmallsAre(i: nat)
    ensures |SMALLS| == 59
    ensures i < 30 ==> SMALLS[i] as int == 'a' as int + i
    ensures 30 <= i < 46 ==> SMALLS[i] as int == 0xE0 + i - 30
    ensures 46 <= i < 52 ==> SMALLS[i] as int == 0xF1 + i - 46
    ensures 52 <= i < 59 ==> SMALLS[i] as int == 0xF8 + i - 52
  {
    hide LOWER, ACCENTED_LOWER, ACCENTED_LOWER_MORE, ACCENTED_LOWER_LAST;
    Alphabets();
    Accents();
  }

  /** The folding letter by letter: these go to those, and every other character stays. */
  lemma FoldingIs(c: char)
    ensures |CAPITALS| == |SMALLS|
    ensures forall i :: 0 <= i < |CAPITALS| ==> ToLower(CAPITALS[i]) == SMALLS[i]
    ensures c !in CAPITALS ==> ToLower(c) == c
  {
    hide CAPITALS, SMALLS;
    forall i: nat ensures |CAPITALS| == |SMALLS| == 59 && (i < 59 ==> ToLower(CAPITALS[i]) == SMALLS[i]) {
      CapitalsAre(i);
      SmallsAre(i);
    }
    var n: nat := if 'A' <= c <= '^' then c as int - 'A' as int
                  else if '\U{c0}' <= c <= '\U{cf}' then c as int - 0xC0 + 30
                  else if '\U{d1}' <= c <= '\U{d6}' then c as int - 0xD1 + 46
                  else if '\U{d8}' <= c <= '\U{de}' then c as int - 0xD8 + 52 else 59;
    CapitalsAre(n);
    assert n < 59 ==> CAPITALS[n] == c;
  }

  /** `strCasediff(a, b) == 0`. */
  predicate SameName(a: seq<char>, b: seq<char>) {
    |a| == |b| && forall i :: 0 <= i < |a| ==> ToLower(a[i]) == ToLower(b[i])
  }

  lemma ToLowerIdempotent(c: char)
    ensures ToLower(ToLower(c)) == ToLower(c)
  {}

  /** `*b++ = ch`. */
  method Put(buf: array<char>, b: nat, ch: char) returns (b': nat)
    requires b < buf.Length
    modifies buf
    ensures b' == b + 1 && buf[..b'] == old(buf[..b]) + [ch]
    ensures forall k :: b' <= k < buf.Length ==> buf[k] == old(buf[k])
  {
    buf[b] := ch;
    b' := b + 1;
  }
}
