/**
 * Byte-level text operations used by the NMEA 0183 sentence parsers
 * (GPSMTK339.cpp): the XOR checksum, the digit readers that stand for
 * atoi / atof's integer part / strtol, the C-string end that strncmp and
 * strtok_r stop at, and strtok_r's tokenisation on ','.
 *
 * All recursion runs forward over an index so that Dafny can evaluate the
 * functions on literal test vectors.
 */
module NmeaText {
  import opened CInt

  const NUL: Byte := 0x00
  const LF: Byte := 0x0A
  const Dollar: Byte := 0x24
  const Star: Byte := 0x2A
  const Comma: Byte := 0x2C

  // ---------------------------------------------------------------------
  // Checksum
  // ---------------------------------------------------------------------

  /** The XOR of the bytes s[i..j]. */
  function Xor(s: seq<Byte>, i: nat, j: nat): Byte
    requires i <= j <= |s|
    decreases j - i
  {
    if i == j then 0 else s[i] ^ Xor(s, i + 1, j)
  }

  /** XOR-ing one more byte onto the accumulator, as the parser's loop does. */
  lemma {:induction false} XorExtend(s: seq<Byte>, i: nat, j: nat)
    requires i <= j < |s|
    decreases j - i
    ensures Xor(s, i, j + 1) == Xor(s, i, j) ^ s[j]
  {
    if i < j {
      XorExtend(s, i + 1, j);
    }
  }

  /** Replacing the byte at k changes the XOR of a span covering k by old ^ new, and no other span. */
  lemma {:induction false} XorUpdate(s: seq<Byte>, i: nat, j: nat, k: nat, c: Byte)
    requires i <= j <= |s| && k < |s|
    decreases j - i
    ensures Xor(s[k := c], i, j) == if i <= k < j then Xor(s, i, j) ^ s[k] ^ c else Xor(s, i, j)
  {
    if i < j {
      XorUpdate(s, i + 1, j, k, c);
    }
  }

  /** Every single-byte change inside the covered span changes the checksum. */
  lemma XorDetectsSingleByteChange(s: seq<Byte>, i: nat, j: nat, k: nat, c: Byte)
    requires i <= k < j <= |s| && c != s[k]
    ensures Xor(s[k := c], i, j) != Xor(s, i, j)
  {
    XorUpdate(s, i, j, k, c);
  }

  /** The XOR only depends on the bytes it covers: equal cells, shifted by d, give equal XORs. */
  lemma {:induction false} XorShift(s: seq<Byte>, t: seq<Byte>, i: nat, j: nat, d: nat)
    requires i <= j <= |s| && j + d <= |t|
    requires forall k :: i <= k < j ==> s[k] == t[k + d]
    decreases j - i
    ensures Xor(s, i, j) == Xor(t, i + d, j + d)
  {
    if i < j {
      XorShift(s, t, i + 1, j, d);
    }
  }

  /** The XOR of a span is the XOR of its two halves. */
  lemma {:induction false} XorSplit(s: seq<Byte>, i: nat, m: nat, j: nat)
    requires i <= m <= j <= |s|
    decreases m - i
    ensures Xor(s, i, j) == Xor(s, i, m) ^ Xor(s, m, j)
  {
    if i < m {
      XorSplit(s, i + 1, m, j);
    }
  }

  /** The checksum of a concatenation is the XOR of the parts' checksums. */
  lemma XorConcat(a: seq<Byte>, b: seq<Byte>)
    ensures Xor(a + b, 0, |a + b|) == Xor(a, 0, |a|) ^ Xor(b, 0, |b|)
  {
    XorSplit(a + b, 0, |a|, |a + b|);
    XorShift(a, a + b, 0, |a|, 0);
    XorShift(b, a + b, 0, |b|, |a|);
  }

  // ---------------------------------------------------------------------
  // Digit runs: atoi, the integer part atof yields, strtol(…, 10 or 16)
  // ---------------------------------------------------------------------

  /** b^n */
  function Power(b: nat, n: nat): (r: nat)
    ensures b >= 1 ==> r >= 1
  {
    if n == 0 then 1 else b * Power(b, n - 1)
  }

  /** 10^n grows with n. */
  lemma {:induction false} PowerTenMono(n: nat, m: nat)
    requires n <= m
    decreases m
    ensures Power(10, n) <= Power(10, m)
  {
    if n < m {
      PowerTenMono(n, m - 1);
      assert Power(10, m) == 10 * Power(10, m - 1);
    }
  }


  /** The value of b as a digit in the given base (10 or 16, either letter case), or -1. */
  function DigitOf(b: Byte, base: nat): (d: int)
    requires base == 10 || base == 16
    ensures -1 <= d < base
    ensures d >= 0 && base == 16 ==> d == DigitOf(b, 10) || DigitOf(b, 10) == -1
  {
    if 0x30 <= b <= 0x39 then (b - 0x30) as int
    else if base == 16 && 0x41 <= b <= 0x46 then (b - 0x41) as int + 10
    else if base == 16 && 0x61 <= b <= 0x66 then (b - 0x61) as int + 10
    else -1
  }

  predicate IsDigit(b: Byte, base: nat)
    requires base == 10 || base == 16
  {
    DigitOf(b, base) >= 0
  }

  /** The length of the run of base-`base` digits starting at s[i] (0 when i is at or past the end). */
  function DigitRun(s: seq<Byte>, i: nat, base: nat): (n: nat)
    requires base == 10 || base == 16
    decreases |s| - i
    ensures n > 0 ==> i + n <= |s|
    ensures forall k :: i <= k < i + n ==> IsDigit(s[k], base)
    ensures i + n < |s| ==> !IsDigit(s[i + n], base)
  {
    if i < |s| && IsDigit(s[i], base) then 1 + DigitRun(s, i + 1, base) else 0
  }

  /** The value of the n digits s[i..i+n], most significant first. */
  function DigitsValue(s: seq<Byte>, i: nat, n: nat, base: nat): (v: nat)
    requires base == 10 || base == 16
    requires i + n <= |s|
    requires forall k :: i <= k < i + n ==> IsDigit(s[k], base)
    decreases n
    ensures v < Power(base, n)
  {
    if n == 0 then 0
    else
      assert IsDigit(s[i + n - 1], base);
      DigitsValue(s, i, n - 1, base) * base + DigitOf(s[i + n - 1], base) as nat
  }

  /**
   * What atoi, strtol and the integer part of atof read from a pointer to
   * s[i]: the value of the digit run there, 0 when there is none.
   */
  function ReadNumber(s: seq<Byte>, i: nat, base: nat): (v: nat)
    requires base == 10 || base == 16
    ensures v < Power(base, DigitRun(s, i, base))
  {
    var n := DigitRun(s, i, base);
    if n == 0 then 0 else DigitsValue(s, i, n, base)
  }

  /** A reader only looks at the bytes from i on: two sequences that agree there read alike. */
  lemma {:induction false} ReadNumberLocal(s: seq<Byte>, t: seq<Byte>, i: nat, j: nat, base: nat)
    requires base == 10 || base == 16
    requires i <= |s| && j <= |t| && s[i..] == t[j..]
    ensures DigitRun(s, i, base) == DigitRun(t, j, base)
    ensures ReadNumber(s, i, base) == ReadNumber(t, j, base)
  {
    RunLocal(s, t, i, j, base);
    var n := DigitRun(s, i, base);
    if n > 0 {
      ValueLocal(s, t, i, j, n, base);
    }
  }

  lemma {:induction false} RunLocal(s: seq<Byte>, t: seq<Byte>, i: nat, j: nat, base: nat)
    requires base == 10 || base == 16
    requires i <= |s| && j <= |t| && s[i..] == t[j..]
    decreases |s| - i
    ensures DigitRun(s, i, base) == DigitRun(t, j, base)
  {
    if i < |s| {
      assert s[i] == s[i..][0] == t[j..][0] == t[j];
      assert s[i + 1..] == s[i..][1..] == t[j..][1..] == t[j + 1..];
      RunLocal(s, t, i + 1, j + 1, base);
    }
  }

  lemma {:induction false} ValueLocal(s: seq<Byte>, t: seq<Byte>, i: nat, j: nat, n: nat, base: nat)
    requires base == 10 || base == 16
    requires i + n <= |s| && j + n <= |t| && s[i..i + n] == t[j..j + n]
    requires forall k :: i <= k < i + n ==> IsDigit(s[k], base)
    requires forall k :: j <= k < j + n ==> IsDigit(t[k], base)
    decreases n
    ensures DigitsValue(s, i, n, base) == DigitsValue(t, j, n, base)
  {
    if n > 0 {
      assert s[i + n - 1] == s[i..i + n][n - 1] == t[j..j + n][n - 1] == t[j + n - 1];
      assert s[i..i + n - 1] == s[i..i + n][..n - 1] == t[j..j + n][..n - 1] == t[j..j + n - 1];
      ValueLocal(s, t, i, j, n - 1, base);
    }
  }

  // ---------------------------------------------------------------------
  // C strings and strtok_r
  // ---------------------------------------------------------------------

  /** Index of the first NUL at or after i, or |s|: where strncmp and strtok_r stop. */
  function StrEnd(s: seq<Byte>, i: nat): (n: nat)
    requires i <= |s|
    decreases |s| - i
    ensures i <= n <= |s|
    ensures forall k :: i <= k < n ==> s[k] != NUL
    ensures n < |s| ==> s[n] == NUL
  {
    if i == |s| || s[i] == NUL then i else StrEnd(s, i + 1)
  }

  /** Index of the first ',' in s[i..limit], or limit. */
  function FieldEnd(s: seq<Byte>, i: nat, limit: nat): (e: nat)
    requires i <= limit <= |s|
    decreases limit - i
    ensures i <= e <= limit
    ensures forall k :: i <= k < e ==> s[k] != Comma
    ensures e < limit ==> s[e] == Comma
  {
    if i == limit || s[i] == Comma then i else FieldEnd(s, i + 1, limit)
  }

  /** The bytes s[start..end] of one token. */
  datatype Span = Span(start: nat, end: nat)

  predicate SpansWithin(t: seq<Span>, lo: nat, hi: nat) {
    forall k :: 0 <= k < |t| ==> lo <= t[k].start < t[k].end <= hi
  }

  /**
   * The tokens successive strtok_r(…, ",", …) calls return from s[i..limit],
   * limit being the string's NUL: the maximal comma-free runs, so that
   * consecutive commas produce no empty token.
   */
  function Tokens(s: seq<Byte>, i: nat, limit: nat): (t: seq<Span>)
    requires i <= limit <= |s|
    decreases limit - i
    ensures SpansWithin(t, i, limit)
  {
    if i == limit then []
    else if s[i] == Comma then Tokens(s, i + 1, limit)
    else
      var e := FieldEnd(s, i, limit);
      [Span(i, e)] + Tokens(s, e, limit)
  }

  /** The texts of a list of spans. */
  function Texts(s: seq<Byte>, t: seq<Span>): (r: seq<seq<Byte>>)
    requires SpansWithin(t, 0, |s|)
    ensures |r| == |t|
    ensures forall k :: 0 <= k < |t| ==> r[k] == s[t[k].start..t[k].end]
  {
    if t == [] then [] else [s[t[0].start..t[0].end]] + Texts(s, t[1..])
  }

  /** Reference definition: all comma-separated fields of s[i..limit], empty ones included. */
  function Split(s: seq<Byte>, i: nat, limit: nat): (r: seq<seq<Byte>>)
    requires i <= limit <= |s|
    decreases limit - i
    ensures |r| >= 1
  {
    var e := FieldEnd(s, i, limit);
    if e == limit then [s[i..limit]] else [s[i..e]] + Split(s, e + 1, limit)
  }

  function DropEmpty(fs: seq<seq<Byte>>): seq<seq<Byte>> {
    if fs == [] then []
    else (if fs[0] == [] then [] else [fs[0]]) + DropEmpty(fs[1..])
  }

  lemma DropEmptyCons(f: seq<Byte>, fs: seq<seq<Byte>>)
    ensures DropEmpty([f] + fs) == (if f == [] then [] else [f]) + DropEmpty(fs)
  {
    assert ([f] + fs)[1..] == fs;
  }

  lemma TextsCons(s: seq<Byte>, sp: Span, t: seq<Span>)
    requires sp.start < sp.end <= |s| && SpansWithin(t, 0, |s|)
    ensures Texts(s, [sp] + t) == [s[sp.start..sp.end]] + Texts(s, t)
  {
    assert ([sp] + t)[1..] == t;
  }

  /** strtok_r's tokens are exactly the non-empty comma-separated fields. */
  lemma {:induction false} TokensAreNonEmptyFields(s: seq<Byte>, i: nat, limit: nat)
    requires i <= limit <= |s|
    decreases limit - i
    ensures Texts(s, Tokens(s, i, limit)) == DropEmpty(Split(s, i, limit))
  {
    if i == limit {
      EmptyCase(s, i);
    } else if s[i] == Comma {
      TokensAreNonEmptyFields(s, i + 1, limit);
      CommaCase(s, i, limit);
    } else if FieldEnd(s, i, limit) == limit {
      LastFieldCase(s, i, limit);
    } else {
      TokensAreNonEmptyFields(s, FieldEnd(s, i, limit) + 1, limit);
      FieldCase(s, i, limit);
    }
  }

  /** Nothing left: no token, and one empty field. */
  lemma EmptyCase(s: seq<Byte>, i: nat)
    requires i <= |s|
    ensures Texts(s, Tokens(s, i, i)) == DropEmpty(Split(s, i, i))
  {
    assert s[i..i] == [];
    assert Split(s, i, i) == [[]] + [];
    DropEmptyCons([], []);
  }

  /** A last field that does not start with ',' is the last token. */
  lemma LastFieldCase(s: seq<Byte>, i: nat, limit: nat)
    requires i < limit <= |s| && s[i] != Comma && FieldEnd(s, i, limit) == limit
    ensures Texts(s, Tokens(s, i, limit)) == DropEmpty(Split(s, i, limit))
  {
    assert Tokens(s, i, limit) == [Span(i, limit)] + [];
    assert Split(s, i, limit) == [s[i..limit]] + [];
    DropEmptyCons(s[i..limit], []);
    TextsCons(s, Span(i, limit), []);
  }

  /** A ',' at i: strtok_r skips it, and it closes an empty field that DropEmpty removes. */
  lemma CommaCase(s: seq<Byte>, i: nat, limit: nat)
    requires i < limit <= |s| && s[i] == Comma
    requires Texts(s, Tokens(s, i + 1, limit)) == DropEmpty(Split(s, i + 1, limit))
    ensures Texts(s, Tokens(s, i, limit)) == DropEmpty(Split(s, i, limit))
  {
    assert FieldEnd(s, i, limit) == i && s[i..i] == [];
    assert Split(s, i, limit) == [[]] + Split(s, i + 1, limit);
    DropEmptyCons([], Split(s, i + 1, limit));
  }

  /** A non-empty field closed by a ',' before the limit is the next token. */
  lemma FieldCase(s: seq<Byte>, i: nat, limit: nat)
    requires i < limit <= |s| && s[i] != Comma && FieldEnd(s, i, limit) < limit
    requires Texts(s, Tokens(s, FieldEnd(s, i, limit) + 1, limit)) == DropEmpty(Split(s, FieldEnd(s, i, limit) + 1, limit))
    ensures Texts(s, Tokens(s, i, limit)) == DropEmpty(Split(s, i, limit))
  {
    var e := FieldEnd(s, i, limit);
    var rest := Tokens(s, e + 1, limit);
    assert Tokens(s, e, limit) == rest;
    assert s[i..e] != [] by { assert |s[i..e]| == e - i > 0; }
    calc {
      Texts(s, Tokens(s, i, limit));
      == Texts(s, [Span(i, e)] + rest);
      == { TextsCons(s, Span(i, e), rest); }
      [s[i..e]] + Texts(s, rest);
      == [s[i..e]] + DropEmpty(Split(s, e + 1, limit));
      == { DropEmptyCons(s[i..e], Split(s, e + 1, limit)); }
      DropEmpty([s[i..e]] + Split(s, e + 1, limit));
      == DropEmpty(Split(s, i, limit));
    }
  }
}
