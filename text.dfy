/** Text and octet helpers shared by the camera server model.

    Everything written to a socket is modelled as a `string` in which every
    character stands for one octet (its code is below 256).  Opaque payloads
    (JPEG and PNG buffers) are `seq<byte>` and are turned into such text by
    `OctetsToText`.  `Find` models `std::string::find` including its `npos`
    result on a 64-bit `size_t`. */
module Text {

  type byte = b: int | 0 <= b < 256

  datatype Option<T> = None | Some(value: T)

  /** 2^64: the modulus of `size_t` arithmetic. */
  const SizeModulus: nat := 0x1_0000_0000_0000_0000
  /** `std::string::npos`, the largest `size_t`. */
  const NPOS: nat := SizeModulus - 1

  /** A `uint64_t` value. */
  type Uint64 = x: int | 0 <= x < SizeModulus

  /** One character per octet, same code. */
  function OctetsToText(b: seq<byte>): (s: string)
    ensures |s| == |b|
    ensures forall i :: 0 <= i < |b| ==> s[i] as int == b[i]
  {
    seq(|b|, i requires 0 <= i < |b| => b[i] as char)
  }

  /** A value below the modulus is its own remainder. */
  lemma SmallRemainder(n: nat)
    requires n < SizeModulus
    ensures n % SizeModulus == n
  {
  }

  /** `pat` occurs in `s` starting at index `k`. */
  predicate OccursAt(s: string, pat: string, k: nat)
  {
    k + |pat| <= |s| && s[k..k + |pat|] == pat
  }

  /** `s.find(pat, from)`: the first occurrence of `pat` at or after `from`,
      or `NPOS` when there is none. */
  function Find(s: string, pat: string, from: nat): (r: nat)
    requires |s| < NPOS
    ensures r == NPOS || (from <= r && OccursAt(s, pat, r))
    decreases |s| - from
  {
    if from + |pat| > |s| then NPOS
    else if s[from..from + |pat|] == pat then from
    else Find(s, pat, from + 1)
  }

  /** The search finds the first occurrence: none lies between `from` and
      the result, and none at all when the result is `NPOS`. */
  lemma {:induction false} FindFirst(s: string, pat: string, from: nat)
    requires |s| < NPOS
    ensures Find(s, pat, from) == NPOS ==> forall k :: from <= k ==> !OccursAt(s, pat, k)
    ensures Find(s, pat, from) != NPOS ==> forall k :: from <= k < Find(s, pat, from) ==> !OccursAt(s, pat, k)
    decreases |s| - from
  {
    if from + |pat| <= |s| && s[from..from + |pat|] != pat {
      FindFirst(s, pat, from + 1);
    }
  }

  /** `s.find(pat) == 0` holds exactly when `pat` is a prefix of `s`. */
  lemma FindAtStart(s: string, pat: string)
    requires |s| < NPOS
    ensures Find(s, pat, 0) == 0 <==> pat <= s
  {
    if pat <= s {
      assert s[0..|pat|] == pat;
      assert OccursAt(s, pat, 0);
    }
  }

  /** When no occurrence can start inside `pre` and `pat` follows it, the
      search from the start of `pre` stops right after `pre`. */
  lemma FindAfter(pre: string, pat: string, rest: string, from: nat)
    requires |pre + pat + rest| < NPOS
    requires from <= |pre|
    requires forall k :: from <= k < |pre| ==> !OccursAt(pre + pat + rest, pat, k)
    ensures Find(pre + pat + rest, pat, from) == |pre|
  {
    var s := pre + pat + rest;
    assert s[|pre|..|pre| + |pat|] == pat;
    assert OccursAt(s, pat, |pre|);
    FindFirst(s, pat, from);
  }

  /** A search for `pat` skips a prefix free of the first character of `pat`. */
  lemma FindAfterFree(pre: string, pat: string, rest: string)
    requires |pre + pat + rest| < NPOS
    requires |pat| > 0 && pat[0] !in pre
    ensures Find(pre + pat + rest, pat, 0) == |pre|
  {
    var s := pre + pat + rest;
    forall k | 0 <= k < |pre| ensures !OccursAt(s, pat, k) {
      assert s[k] == pre[k];
      if k + |pat| <= |s| {
        assert s[k..k + |pat|][0] == s[k];
      }
    }
    FindAfter(pre, pat, rest, 0);
  }

  /** `s.substr(pos, n)`; `pos > s.size()` would throw and is excluded. */
  function Substr(s: string, pos: nat, n: nat): (r: string)
    requires pos <= |s|
    ensures |r| == if n < |s| - pos then n else |s| - pos
    ensures r == s[pos..pos + |r|]
  {
    if n < |s| - pos then s[pos..pos + n] else s[pos..]
  }

  /** `std::string(buffer)`: the text up to the first NUL. */
  function CString(buffer: string): (r: string)
    ensures r <= buffer
    ensures '\0' !in r
    ensures |r| < |buffer| ==> buffer[|r|] == '\0'
  {
    if buffer == [] || buffer[0] == '\0' then [] else [buffer[0]] + CString(buffer[1..])
  }

  predicate IsDigit(c: char)
  {
    '0' <= c <= '9'
  }

  /** The characters `isalnum` accepts in the C locale, and `_` and `-`:
      the characters a snapshot filename prefix may consist of. */
  predicate IsNameChar(c: char)
  {
    'A' <= c <= 'Z' || 'a' <= c <= 'z' || IsDigit(c) || c == '_' || c == '-'
  }

  predicate AllNameChars(s: string)
  {
    forall i :: 0 <= i < |s| ==> IsNameChar(s[i])
  }

  predicate AllDigits(s: string)
  {
    forall i :: 0 <= i < |s| ==> IsDigit(s[i])
  }

  function DigitChar(d: nat): (c: char)
    requires d < 10
    ensures IsDigit(c) && c as int - '0' as int == d
  {
    ('0' as int + d) as char
  }

  function Pow10(n: nat): (p: nat)
    ensures p >= 1
  {
    if n == 0 then 1 else 10 * Pow10(n - 1)
  }

  /** Decimal rendering of an unsigned value, as `<<` on an integer or `%zu`
      produce it: at least one digit and no leading zero. */
  function Decimal(n: nat): (s: string)
    ensures |s| > 0 && AllDigits(s)
    ensures s[0] == '0' ==> n == 0
    decreases n
  {
    if n < 10 then [DigitChar(n)] else Decimal(n / 10) + [DigitChar(n % 10)]
  }

  /** The value of a string of decimal digits. */
  function DecimalValue(s: string): nat
    requires AllDigits(s)
  {
    if s == [] then 0
    else DecimalValue(s[..|s| - 1]) * 10 + (s[|s| - 1] as int - '0' as int)
  }

  lemma {:induction false} DecimalRoundTrip(n: nat)
    ensures DecimalValue(Decimal(n)) == n
    decreases n
  {
    if n >= 10 {
      DecimalRoundTrip(n / 10);
      var s := Decimal(n);
      assert s[..|s| - 1] == Decimal(n / 10);
    }
  }

  lemma {:induction false} DecimalLength(n: nat, k: nat)
    requires k >= 1 && n < Pow10(k)
    ensures |Decimal(n)| <= k
    decreases n
  {
    if n >= 10 {
      assert Pow10(1) == 10;
      assert Pow10(k) == 10 * Pow10(k - 1);
      DecimalLength(n / 10, k - 1);
    }
  }

  /** `%0<width>d` for a non-negative value: zeros on the left up to `width`,
      read back as the value. */
  function ZeroPad(n: nat, width: nat): (s: string)
    ensures AllDigits(s) && |s| >= width && |s| >= |Decimal(n)|
    ensures |Decimal(n)| <= width ==> |s| == width
    ensures DecimalValue(s) == n
  {
    var d := Decimal(n);
    DecimalRoundTrip(n);
    if |d| < width then
      var zeros := seq(width - |d|, _ => '0');
      LeadingZeros(zeros, d);
      zeros + d
    else d
  }

  /** Zeros in front of a digit string do not change its value. */
  lemma {:induction false} LeadingZeros(zeros: string, d: string)
    requires forall i :: 0 <= i < |zeros| ==> zeros[i] == '0'
    requires AllDigits(d)
    ensures AllDigits(zeros + d) && DecimalValue(zeros + d) == DecimalValue(d)
    decreases |d| + |zeros|
  {
    var s := zeros + d;
    if d == [] {
      assert s == zeros;
      if zeros != [] {
        assert s[..|s| - 1] == zeros[..|zeros| - 1];
        LeadingZeros(zeros[..|zeros| - 1], []);
        assert zeros[..|zeros| - 1] + [] == zeros[..|zeros| - 1];
      }
    } else {
      assert s[..|s| - 1] == zeros + d[..|d| - 1];
      LeadingZeros(zeros, d[..|d| - 1]);
    }
  }

  /** `snprintf` into a buffer of `size` bytes: at most `size - 1` characters
      are kept. */
  function Snprintf(s: string, size: nat): (r: string)
    requires size > 0
    ensures r <= s
    ensures |r| == if |s| < size then |s| else size - 1
  {
    if |s| < size then s else s[..size - 1]
  }
}
