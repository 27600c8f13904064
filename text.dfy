/**
 * Byte strings and the textual encodings the cache engine relies on:
 * lower-case hexadecimal (`%x`), decimal (`%d`, `strconv.FormatInt`),
 * Go's `strconv.ParseInt(s, 10, 64)`, 64-bit wrap-around and
 * `strings.TrimSpace`.
 */
module Text {
  import opened Wrappers

  type byte = x: int | 0 <= x < 256
  type Bytes = seq<byte>

  const MaxInt64: int := 0x7fff_ffff_ffff_ffff
  const MaxUint64: int := 0xffff_ffff_ffff_ffff

  /** A signed 64-bit value. */
  predicate IsInt64(x: int) { -MaxInt64 - 1 <= x <= MaxInt64 }

  type int64 = x: int | IsInt64(x)
  type uint64 = x: int | 0 <= x <= MaxUint64

  /** Go's `[]byte(s)` on an ASCII string, where UTF-8 spends one byte per character. */
  function AsciiBytes(s: string): (b: Bytes)
    requires forall i :: 0 <= i < |s| ==> s[i] as int < 128
    ensures |b| == |s|
  {
    seq(|s|, i requires 0 <= i < |s| => s[i] as int as byte)
  }

  /** Go's `string(b)`, one character per byte. */
  function ByteString(b: Bytes): (s: string)
    ensures |s| == |b|
  {
    seq(|b|, i requires 0 <= i < |b| => b[i] as char)
  }

  lemma AsciiRoundTrip(s: string)
    requires forall i :: 0 <= i < |s| ==> s[i] as int < 128
    ensures ByteString(AsciiBytes(s)) == s
  {
  }

  /** Two's-complement wrap-around of an unbounded integer into int64. */
  function Wrap64(x: int): (r: int)
    ensures IsInt64(r)
    ensures IsInt64(x) ==> r == x
    ensures (r - x) % (MaxUint64 + 1) == 0
  {
    (x + MaxInt64 + 1) % (MaxUint64 + 1) - MaxInt64 - 1
  }

  // ---------------------------------------------------------------- hex

  predicate IsLowerHex(c: char) { '0' <= c <= '9' || 'a' <= c <= 'f' }

  function HexDigit(d: int): (c: char)
    requires 0 <= d < 16
    ensures IsLowerHex(c) && HexValue(c) == d
  {
    if d < 10 then ('0' as int + d) as char else ('a' as int + d - 10) as char
  }

  function HexValue(c: char): (d: int)
    requires IsLowerHex(c)
    ensures 0 <= d < 16
  {
    if c <= '9' then c as int - '0' as int else c as int - 'a' as int + 10
  }

  /** `fmt.Sprintf("%x", bs)`: two lower-case hex digits per byte, high nibble first. */
  function Hex(bs: Bytes): (s: string)
    ensures |s| == 2 * |bs|
    ensures forall i :: 0 <= i < |s| ==> IsLowerHex(s[i])
  {
    if bs == [] then "" else [HexDigit(bs[0] / 16), HexDigit(bs[0] % 16)] + Hex(bs[1..])
  }

  /** Inverse of Hex: None unless the text is an even run of lower-case hex digits. */
  function UnHex(s: string): (r: Option<Bytes>)
    ensures r.Some? ==> 2 * |r.value| == |s|
    decreases |s|
  {
    if s == [] then Some([])
    else if |s| == 1 || !IsLowerHex(s[0]) || !IsLowerHex(s[1]) then None
    else
      match UnHex(s[2..])
      case None => None
      case Some(rest) => Some([(HexValue(s[0]) * 16 + HexValue(s[1])) as byte] + rest)
  }

  lemma {:induction false} UnHexHex(bs: Bytes)
    ensures UnHex(Hex(bs)) == Some(bs)
  {
    if bs != [] {
      var s := Hex(bs);
      assert s[2..] == Hex(bs[1..]);
      UnHexHex(bs[1..]);
      var hi, lo := bs[0] / 16, bs[0] % 16;
      assert s[0] == HexDigit(hi) && s[1] == HexDigit(lo);
      assert HexValue(s[0]) == hi && HexValue(s[1]) == lo;
      assert hi * 16 + lo == bs[0];
      assert UnHex(s) == Some([(hi * 16 + lo) as byte] + bs[1..]);
      assert [bs[0]] + bs[1..] == bs;
    }
  }

  /** Distinct fingerprints have distinct hex segments. */
  lemma HexInjective(a: Bytes, b: Bytes)
    ensures Hex(a) == Hex(b) <==> a == b
  {
    UnHexHex(a);
    UnHexHex(b);
  }

  // ------------------------------------------------------------ decimal

  predicate IsDigit(c: char) { '0' <= c <= '9' }

  predicate AllDigits(s: string) { forall i :: 0 <= i < |s| ==> IsDigit(s[i]) }

  function Pow10(k: nat): (p: nat)
    ensures p >= 1
  {
    if k == 0 then 1 else 10 * Pow10(k - 1)
  }

  function DigitChar(d: int): (c: char)
    requires 0 <= d < 10
    ensures IsDigit(c)
  {
    ('0' as int + d) as char
  }

  /** The number a run of decimal digits denotes (leading zeros allowed). */
  function DigitsValue(s: string): (n: nat)
    requires AllDigits(s)
    ensures n < Pow10(|s|)
  {
    if s == [] then 0 else DigitsValue(s[..|s| - 1]) * 10 + (s[|s| - 1] as int - '0' as int)
  }

  /** `%d` of a non-negative number: no padding, no leading zero. */
  function Decimal(n: nat): (s: string)
    ensures AllDigits(s) && |s| >= 1
    ensures s[0] == '0' ==> n == 0
    ensures DigitsValue(s) == n
  {
    if n < 10 then [DigitChar(n)]
    else
      var s := Decimal(n / 10) + [DigitChar(n % 10)];
      assert s[..|s| - 1] == Decimal(n / 10);
      s
  }

  /** `strconv.FormatInt(x, 10)` and `%d` of an int64. */
  function FormatInt(x: int): (s: string)
    ensures |s| >= 1
    ensures forall i :: 0 <= i < |s| ==> IsDigit(s[i]) || s[i] == '-'
    ensures x >= 0 ==> AllDigits(s) && DigitsValue(s) == x
    ensures x < 0 ==> s[0] == '-'
  {
    if x < 0 then "-" + Decimal(-x) else Decimal(x)
  }

  /** A number has exactly k digits in `%d` when it lies in [10^(k-1), 10^k). */
  lemma {:induction false} DecimalWidth(n: nat, k: nat)
    requires k >= 1 && Pow10(k - 1) <= n < Pow10(k)
    ensures |Decimal(n)| == k
  {
    if k > 1 {
      assert Pow10(k) == 10 * Pow10(k - 1);
      assert Pow10(k - 1) == 10 * Pow10(k - 2);
      DecimalWidth(n / 10, k - 1);
    }
  }

  /** A run of zeros denotes 0, whatever its width. */
  lemma {:induction false} ZerosValue(s: string)
    requires forall i :: 0 <= i < |s| ==> s[i] == '0'
    ensures AllDigits(s) && DigitsValue(s) == 0
  {
    if s != [] {
      ZerosValue(s[..|s| - 1]);
    }
  }

  /** `%d` prints exactly ten digits precisely for the numbers in [10^9, 10^10). */
  lemma DecimalTenDigits(n: nat)
    ensures |Decimal(n)| == 10 <==> 1_000_000_000 <= n < 10_000_000_000
  {
    assert Pow10(9) == 1_000_000_000;
    assert Pow10(10) == 10_000_000_000;
    var s := Decimal(n);
    if 1_000_000_000 <= n < 10_000_000_000 {
      DecimalWidth(n, 10);
    }
    if |s| == 10 {
      DigitsValueFront(s);
      assert s[0] != '0';
    }
  }

  // ------------------------------------------------- strconv.ParseInt

  /** Outcome of `strconv.ParseUint(s, 10, 64)`. */
  datatype UintResult = USyntax | URange | UValue(n: nat)

  /** Go's digit loop: stops at the first non-digit (syntax) or overflow (range). */
  function ParseUintAcc(s: string, n: nat): UintResult
    requires n <= MaxUint64
  {
    if s == [] then UValue(n)
    else if !IsDigit(s[0]) then USyntax
    else
      var m := n * 10 + (s[0] as int - '0' as int);
      if m > MaxUint64 then URange else ParseUintAcc(s[1..], m)
  }

  function ParseUint(s: string): UintResult
  {
    if s == [] then USyntax else ParseUintAcc(s, 0)
  }

  /**
   * `strconv.ParseInt(s, 10, 64)`: the value it returns and whether the error is nil.
   * A syntax error yields 0; a range error yields the clamped bound.
   */
  datatype Parsed = Parsed(value: int, ok: bool)

  function ParseInt(s: string): (r: Parsed)
    ensures IsInt64(r.value)
    ensures !r.ok && r.value != 0 ==> r.value == MaxInt64 || r.value == -MaxInt64 - 1
  {
    if s == [] then Parsed(0, false)
    else
      var neg := s[0] == '-';
      var body := if s[0] == '+' || s[0] == '-' then s[1..] else s;
      match ParseUint(body)
      case USyntax => Parsed(0, false)
      case URange => if neg then Parsed(-MaxInt64 - 1, false) else Parsed(MaxInt64, false)
      case UValue(u) =>
        if !neg && u > MaxInt64 then Parsed(MaxInt64, false)
        else if neg && u > MaxInt64 + 1 then Parsed(-MaxInt64 - 1, false)
        else
          var v: int := if neg then -(u as int) else u;
          Parsed(v, true)
  }

  /** Reading a digit run from the front agrees with DigitsValue. */
  lemma {:induction false} DigitsValueFront(s: string)
    requires AllDigits(s) && |s| >= 1
    ensures DigitsValue(s) == (s[0] as int - '0' as int) * Pow10(|s| - 1) + DigitsValue(s[1..])
  {
    if |s| > 1 {
      var t := s[..|s| - 1];
      var u := s[1..];
      assert t[1..] == u[..|u| - 1];
      DigitsValueFront(t);
      var d0 := s[0] as int - '0' as int;
      var last := s[|s| - 1] as int - '0' as int;
      var p := Pow10(|s| - 2);
      var a := DigitsValue(t[1..]);
      assert DigitsValue(t) == d0 * p + a;
      assert DigitsValue(u) == a * 10 + last;
      assert DigitsValue(s) == DigitsValue(t) * 10 + last;
      assert Pow10(|s| - 1) == 10 * p;
      ShiftDigit(d0, p, a, last);
    }
  }

  lemma ShiftDigit(d: int, p: int, a: int, last: int)
    ensures (d * p + a) * 10 + last == d * (10 * p) + (a * 10 + last)
  {
  }

  lemma Regroup(n: nat, d: nat, p: nat)
    requires p >= 1
    ensures n * (10 * p) + d * p == (n * 10 + d) * p
    ensures n * 10 + d <= (n * 10 + d) * p
  {
    var m := n * 10 + d;
    assert m * p == m + m * (p - 1);
  }

  lemma {:induction false} ParseUintAccDigits(s: string, n: nat)
    requires AllDigits(s) && n <= MaxUint64
    requires n * Pow10(|s|) + DigitsValue(s) <= MaxUint64
    ensures ParseUintAcc(s, n) == UValue(n * Pow10(|s|) + DigitsValue(s))
  {
    if s != [] {
      var d := s[0] as int - '0' as int;
      var m := n * 10 + d;
      var p := Pow10(|s| - 1);
      var total := n * Pow10(|s|) + DigitsValue(s);
      DigitsValueFront(s);
      assert DigitsValue(s) == d * p + DigitsValue(s[1..]);
      assert Pow10(|s|) == 10 * p;
      Regroup(n, d, p);
      assert total == m * p + DigitsValue(s[1..]);
      assert m <= total;
      assert ParseUintAcc(s, n) == ParseUintAcc(s[1..], m);
      ParseUintAccDigits(s[1..], m);
    }
  }

  /** A non-empty digit run that fits in int64 parses to its value. */
  lemma ParseDigits(s: string)
    requires AllDigits(s) && |s| >= 1 && DigitsValue(s) <= MaxInt64
    ensures ParseInt(s) == Parsed(DigitsValue(s), true)
  {
    UintDigits(s);
    UnsignedParse(s, DigitsValue(s));
  }

  /** Go's digit loop reads a digit run that fits in uint64 as its value. */
  lemma UintDigits(s: string)
    requires AllDigits(s) && DigitsValue(s) <= MaxUint64
    ensures ParseUintAcc(s, 0) == UValue(DigitsValue(s))
  {
    var p := Pow10(|s|);
    assert 0 * p == 0;
    ParseUintAccDigits(s, 0);
  }

  /** Text without a sign that ParseUint reads as a value fitting int64 parses to it. */
  lemma UnsignedParse(s: string, u: nat)
    requires s != [] && IsDigit(s[0]) && ParseUintAcc(s, 0) == UValue(u) && u <= MaxInt64
    ensures ParseInt(s) == Parsed(u, true)
  {
  }

  /** What Go's digit loop accepts is a digit run, and it reads that run as its decimal value. */
  lemma {:induction false} ParseUintAccSound(t: string, n: nat, u: nat)
    requires n <= MaxUint64 && ParseUintAcc(t, n) == UValue(u)
    ensures AllDigits(t) && u == n * Pow10(|t|) + DigitsValue(t)
  {
    if t != [] {
      var d := t[0] as int - '0' as int;
      var m := n * 10 + d;
      var rest := t[1..];
      ParseUintAccSound(rest, m, u);
      assert forall i :: 1 <= i < |t| ==> t[i] == rest[i - 1];
      var p := Pow10(|t| - 1);
      DigitsValueFront(t);
      assert Pow10(|t|) == 10 * p;
      Regroup(n, d, p);
    }
  }

  /** Go's digit loop reports a range error on a digit run whose value exceeds uint64. */
  lemma {:induction false} ParseUintAccBig(t: string, n: nat)
    requires AllDigits(t) && n <= MaxUint64 && n * Pow10(|t|) + DigitsValue(t) > MaxUint64
    ensures ParseUintAcc(t, n) == URange
  {
    if t != [] {
      var d := t[0] as int - '0' as int;
      var m := n * 10 + d;
      var p := Pow10(|t| - 1);
      DigitsValueFront(t);
      assert Pow10(|t|) == 10 * p;
      Regroup(n, d, p);
      if m <= MaxUint64 {
        ParseUintAccBig(t[1..], m);
      }
    }
  }

  /** The text ParseInt reads digits from: `s` without one leading sign. */
  function Unsigned(s: string): (body: string)
    ensures |body| <= |s| && body == s[|s| - |body|..]
  {
    if s != [] && (s[0] == '+' || s[0] == '-') then s[1..] else s
  }

  /** True when `s` has a minus sign in front. */
  predicate Negative(s: string) { s != [] && s[0] == '-' }

  /**
   * ParseInt succeeds only on an optional sign followed by a digit run, and
   * its value is that run's decimal value, negated after a minus.
   */
  lemma ParseIntSound(s: string)
    requires ParseInt(s).ok
    ensures s != [] && |Unsigned(s)| >= 1 && AllDigits(Unsigned(s))
    ensures ParseInt(s).value == if Negative(s) then -(DigitsValue(Unsigned(s)) as int) else DigitsValue(Unsigned(s))
  {
    var body := Unsigned(s);
    var u :| ParseUint(body) == UValue(u);
    ParseUintAccSound(body, 0, u);
    assert 0 * Pow10(|body|) == 0;
  }

  /** Text with nothing after its sign, or a non-digit there, is a syntax error and reads as 0. */
  predicate NoLeadingDigit(s: string) { Unsigned(s) == [] || !IsDigit(Unsigned(s)[0]) }

  lemma ParseIntSyntaxFront(s: string)
    requires NoLeadingDigit(s)
    ensures ParseInt(s) == Parsed(0, false)
  {
  }

  /** A signed digit run beyond int64 is a range error and reads as the bound of its sign. */
  lemma ParseIntRange(s: string)
    requires |Unsigned(s)| >= 1 && AllDigits(Unsigned(s))
    requires DigitsValue(Unsigned(s)) > MaxInt64 + (if Negative(s) then 1 else 0)
    ensures ParseInt(s) == Parsed(if Negative(s) then -MaxInt64 - 1 else MaxInt64, false)
  {
    var body := Unsigned(s);
    if DigitsValue(body) <= MaxUint64 {
      UintDigits(body);
    } else {
      assert 0 * Pow10(|body|) == 0;
      ParseUintAccBig(body, 0);
    }
  }

  /** Go's digit loop stops with a syntax error at the first non-digit, if the digits before it fit in uint64. */
  lemma {:induction false} ParseUintAccStop(t: string, n: nat, k: nat)
    requires k < |t| && AllDigits(t[..k]) && !IsDigit(t[k])
    requires n <= MaxUint64 && n * Pow10(k) + DigitsValue(t[..k]) <= MaxUint64
    ensures ParseUintAcc(t, n) == USyntax
  {
    if k > 0 {
      var d := t[0] as int - '0' as int;
      var m := n * 10 + d;
      var p := Pow10(k - 1);
      var head := t[..k];
      DigitsValueFront(head);
      assert head[1..] == t[1..][..k - 1];
      assert Pow10(k) == 10 * p;
      Regroup(n, d, p);
      assert ParseUintAcc(t, n) == ParseUintAcc(t[1..], m);
      ParseUintAccStop(t[1..], m, k - 1);
    }
  }

  /**
   * Go's digit loop meets a non-digit at position `k` after the sign before
   * the digits ahead of it overflow uint64.
   */
  predicate StopsAt(s: string, k: nat)
  {
    k < |Unsigned(s)| && AllDigits(Unsigned(s)[..k]) && !IsDigit(Unsigned(s)[k])
    && DigitsValue(Unsigned(s)[..k]) <= MaxUint64
  }

  /** The texts ParseInt rejects with a syntax error: nothing after the sign, or a stop at a non-digit. */
  predicate SyntaxError(s: string)
  {
    Unsigned(s) == [] || exists k: nat :: k < |Unsigned(s)| && StopsAt(s, k)
  }

  /** A non-digit anywhere after the sign, reached before any overflow, is a syntax error and reads as 0. */
  lemma ParseIntSyntax(s: string, k: nat)
    requires StopsAt(s, k)
    ensures ParseInt(s) == Parsed(0, false)
  {
    assert 0 * Pow10(k) == 0;
    ParseUintAccStop(Unsigned(s), 0, k);
  }

  /** A signed digit run within int64 parses without error to its signed value. */
  lemma ParseIntExact(s: string)
    requires |Unsigned(s)| >= 1 && AllDigits(Unsigned(s))
    requires DigitsValue(Unsigned(s)) <= MaxInt64 + (if Negative(s) then 1 else 0)
    ensures ParseInt(s) == Parsed(if Negative(s) then -(DigitsValue(Unsigned(s)) as int) else DigitsValue(Unsigned(s)), true)
  {
    UintDigits(Unsigned(s));
    assert ParseUint(Unsigned(s)) == UValue(DigitsValue(Unsigned(s)));
  }

  /** Every 10-digit run (a file-name epoch) parses without error. */
  lemma ParseEpochDigits(s: string)
    requires AllDigits(s) && |s| == 10
    ensures ParseInt(s) == Parsed(DigitsValue(s), true)
  {
    assert Pow10(10) == 10_000_000_000;
    ParseDigits(s);
  }

  /** ParseInt undoes FormatInt on every int64. */
  lemma ParseFormat(x: int)
    requires IsInt64(x)
    ensures ParseInt(FormatInt(x)) == Parsed(x, true)
  {
    var s := FormatInt(x);
    if x < 0 {
      var t := Decimal(-x);
      assert s[1..] == t;
      UintDigits(t);
    } else {
      ParseDigits(s);
    }
  }

  // ------------------------------------------------- strings.TrimSpace

  /** Go's `unicode.IsSpace`. */
  predicate IsSpace(c: char)
  {
    var u := c as int;
    (0x09 <= u <= 0x0D) || u == 0x20 || u == 0x85 || u == 0xA0 || u == 0x1680
    || (0x2000 <= u <= 0x200A) || u == 0x2028 || u == 0x2029 || u == 0x202F
    || u == 0x205F || u == 0x3000
  }

  function TrimLeft(s: string): (r: string)
    ensures |r| <= |s| && r == s[|s| - |r|..]
    ensures r != [] ==> !IsSpace(r[0])
    ensures forall i :: 0 <= i < |s| - |r| ==> IsSpace(s[i])
  {
    if s != [] && IsSpace(s[0]) then
      var r := TrimLeft(s[1..]);
      assert s[1..][|s| - 1 - |r|..] == s[|s| - |r|..];
      assert forall i :: 1 <= i < |s| - |r| ==> s[i] == s[1..][i - 1];
      r
    else s
  }

  function TrimRight(s: string): (r: string)
    ensures |r| <= |s| && r == s[..|r|]
    ensures r != [] ==> !IsSpace(r[|r| - 1])
    ensures forall i :: |r| <= i < |s| ==> IsSpace(s[i])
  {
    if s != [] && IsSpace(s[|s| - 1]) then
      var r := TrimRight(s[..|s| - 1]);
      assert s[..|s| - 1][..|r|] == s[..|r|];
      r
    else s
  }

  /** `strings.TrimSpace`: the longest slice without leading or trailing white space. */
  function TrimSpace(s: string): (r: string)
    ensures r != [] ==> !IsSpace(r[0]) && !IsSpace(r[|r| - 1])
    ensures r == [] <==> forall i :: 0 <= i < |s| ==> IsSpace(s[i])
  {
    var l := TrimLeft(s);
    var r := TrimRight(l);
    assert r == [] ==> l == [];
    assert l != [] ==> !IsSpace(s[|s| - |l|]);
    r
  }

  /**
   * `strings.TrimSpace` returns a slice of its input: what it drops before
   * and after that slice is all white space.
   */
  lemma TrimSpaceSlice(s: string) returns (i: nat)
    ensures i + |TrimSpace(s)| <= |s| && TrimSpace(s) == s[i..i + |TrimSpace(s)|]
    ensures forall k :: 0 <= k < i ==> IsSpace(s[k])
    ensures forall k :: i + |TrimSpace(s)| <= k < |s| ==> IsSpace(s[k])
  {
    var l := TrimLeft(s);
    assert TrimSpace(s) == TrimRight(l);
    i := SpaceAround(s, l, TrimRight(l));
  }

  /** A prefix `r` of a suffix `l` of `s`, with only white space around it, is a slice of `s`. */
  lemma SpaceAround(s: string, l: string, r: string) returns (i: nat)
    requires |l| <= |s| && l == s[|s| - |l|..] && forall k :: 0 <= k < |s| - |l| ==> IsSpace(s[k])
    requires |r| <= |l| && r == l[..|r|] && forall k :: |r| <= k < |l| ==> IsSpace(l[k])
    ensures i == |s| - |l| && i + |r| <= |s| && r == s[i..i + |r|]
    ensures forall k :: 0 <= k < i ==> IsSpace(s[k])
    ensures forall k :: i + |r| <= k < |s| ==> IsSpace(s[k])
  {
    i := |s| - |l|;
    assert s[i..][..|r|] == s[i..i + |r|];
    SuffixSpace(s, i, l, |r|);
  }

  /** White space at the end of a suffix of `s` is white space at the end of `s`. */
  lemma SuffixSpace(s: string, i: nat, l: string, m: nat)
    requires i <= |s| && l == s[i..] && m <= |l|
    requires forall j :: m <= j < |l| ==> IsSpace(l[j])
    ensures forall k :: i + m <= k < |s| ==> IsSpace(s[k])
  {
    forall k | i + m <= k < |s| ensures IsSpace(s[k]) {
      assert s[k] == l[k - i];
    }
  }
}
