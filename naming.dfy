/**
 * The naming scheme of cache files: `prefix + hex(fingerprint) + epoch`, and the
 * three regular expressions the engine matches names against, written out as
 * predicates. The prefix is a literal in every pattern: a valid prefix holds
 * no regular-expression metacharacter.
 */
module Naming {
  import opened Text
  import opened Lex

  const DefaultPrefix: string := "dsk_"
  /** Epoch segment of a record that never expires. */
  const NeverEpoch: string := "0000000000"
  /** Width of the fingerprint segment hard-coded in the Purge and Sweep patterns. */
  const HashWidth: nat := 128
  const EpochWidth: nat := 10

  predicate IsAlnum(c: char) { 'A' <= c <= 'Z' || 'a' <= c <= 'z' || '0' <= c <= '9' }

  /** `^[A-Za-z0-9]{3,49}_$`: 3 to 49 alphanumerics and a trailing underscore. */
  predicate ValidPrefix(p: string)
  {
    4 <= |p| <= 50 && p[|p| - 1] == '_' && forall i :: 0 <= i < |p| - 1 ==> IsAlnum(p[i])
  }

  /** The class `\s` of Go's regular expressions: `[\t\n\f\r ]`. */
  predicate IsRegexSpace(c: char)
  {
    c as int == 9 || c as int == 10 || c as int == 12 || c as int == 13 || c == ' '
  }

  /** `^PREFIX(\S{128})(\d{10})$`, the Sweep pattern. */
  predicate SweepMatch(prefix: string, name: string)
  {
    && |name| == |prefix| + HashWidth + EpochWidth
    && name[..|prefix|] == prefix
    && (forall i :: |prefix| <= i < |prefix| + HashWidth ==> !IsRegexSpace(name[i]))
    && AllDigits(name[|prefix| + HashWidth..])
  }

  /** First capture group of the Sweep pattern. */
  function HashSegment(prefix: string, name: string): string
    requires SweepMatch(prefix, name)
  {
    name[|prefix|..|prefix| + HashWidth]
  }

  /** The name is the prefix, the first capture group and the ten digits, and the group holds no white space. */
  lemma HashSegmentSplit(prefix: string, name: string)
    requires SweepMatch(prefix, name)
    ensures |HashSegment(prefix, name)| == HashWidth
    ensures forall i :: 0 <= i < HashWidth ==> !IsRegexSpace(HashSegment(prefix, name)[i])
    ensures name == prefix + HashSegment(prefix, name) + name[|prefix| + HashWidth..]
  {
    var h := HashSegment(prefix, name);
    assert name == name[..|prefix|] + name[|prefix|..|prefix| + HashWidth] + name[|prefix| + HashWidth..];
    forall i | 0 <= i < HashWidth ensures !IsRegexSpace(h[i]) {
      assert h[i] == name[|prefix| + i];
    }
  }

  /** The second capture group of the Sweep pattern, read as a number. */
  function NameEpoch(prefix: string, name: string): nat
    requires SweepMatch(prefix, name)
  {
    DigitsValue(name[|prefix| + HashWidth..])
  }

  /** `^\.{0,1}PREFIX\S{128}\d{10}$`, the Purge pattern: the Sweep shape, possibly behind a dot. */
  predicate PurgeMatch(prefix: string, name: string)
  {
    SweepMatch(prefix, name) || (|name| > 0 && name[0] == '.' && SweepMatch(prefix, name[1..]))
  }

  function Stem(prefix: string, hash: Bytes): string { prefix + Hex(hash) }

  /** `^PREFIX HEX(\d{10})$`, the pattern GetFileName uses for one fingerprint. */
  predicate ResolveMatch(prefix: string, hash: Bytes, name: string)
  {
    var stem := Stem(prefix, hash);
    |name| == |stem| + EpochWidth && name[..|stem|] == stem && AllDigits(name[|stem|..])
  }

  /** The epoch of a name that matches the GetFileName pattern. */
  function ResolveEpoch(prefix: string, hash: Bytes, name: string): nat
    requires ResolveMatch(prefix, hash, name)
  {
    DigitsValue(name[|Stem(prefix, hash)|..])
  }

  /** The name of the never-expiring record of a fingerprint. */
  function NeverName(prefix: string, hash: Bytes): string { Stem(prefix, hash) + NeverEpoch }

  /** Write's expiry: 0 without a TTL, else `now + int64(duration)` with int64 wrap-around. */
  function Expiry(duration: nat, now: int): (r: int)
    ensures IsInt64(r)
    ensures duration == 0 ==> r == 0
    ensures duration > 0 && IsInt64(now + duration) ==> r == now + duration
  {
    if duration == 0 then 0 else Wrap64(now + duration)
  }

  /** Write's epoch segment: the literal ten zeros, or `%d` of the expiry, unpadded. */
  function EpochText(duration: nat, now: int): string
  {
    if duration == 0 then NeverEpoch else FormatInt(Expiry(duration, now))
  }

  /**
   * The epoch text is digits with at most a leading minus; it is all digits
   * exactly when the expiry is not negative, and then spells the expiry.
   */
  lemma EpochTextValue(duration: nat, now: int)
    ensures var e := EpochText(duration, now);
      |e| >= 1 && forall i :: 0 <= i < |e| ==> IsDigit(e[i]) || e[i] == '-'
    ensures AllDigits(EpochText(duration, now)) <==> Expiry(duration, now) >= 0
    ensures AllDigits(EpochText(duration, now)) ==> DigitsValue(EpochText(duration, now)) == Expiry(duration, now)
  {
    if duration == 0 {
      ZerosValue(NeverEpoch);
    }
  }

  /** The name Write gives to a record. */
  function Title(prefix: string, hash: Bytes, duration: nat, now: int): string
  {
    Stem(prefix, hash) + EpochText(duration, now)
  }

  /** Write's name splits back into the prefix, the hex fingerprint and the epoch text. */
  lemma TitleParts(prefix: string, hash: Bytes, duration: nat, now: int)
    ensures var t := Title(prefix, hash, duration, now);
      |t| == |prefix| + 2 * |hash| + |EpochText(duration, now)|
      && t[..|prefix|] == prefix && t[|prefix|..|prefix| + 2 * |hash|] == Hex(hash)
      && t[|prefix| + 2 * |hash|..] == EpochText(duration, now)
  {
    var t := Title(prefix, hash, duration, now);
    assert t == prefix + Hex(hash) + EpochText(duration, now);
  }

  /** True when Write's epoch segment has the ten-digit shape every pattern expects. */
  predicate WellShaped(duration: nat, now: int)
  {
    duration == 0 || 1_000_000_000 <= Expiry(duration, now) < 10_000_000_000
  }

  /**
   * GetFileName can find what Write wrote exactly when the expiry has ten
   * digits; the epoch it then reads back is the expiry.
   */
  lemma TitleResolvable(prefix: string, hash: Bytes, duration: nat, now: int)
    ensures ResolveMatch(prefix, hash, Title(prefix, hash, duration, now)) <==> WellShaped(duration, now)
    ensures WellShaped(duration, now) ==>
      ResolveEpoch(prefix, hash, Title(prefix, hash, duration, now)) == Expiry(duration, now)
  {
    var stem := Stem(prefix, hash);
    var e := EpochText(duration, now);
    var t := Title(prefix, hash, duration, now);
    assert t[..|stem|] == stem && t[|stem|..] == e;
    if duration == 0 {
      ZerosValue(NeverEpoch);
    } else {
      var x := Expiry(duration, now);
      if x >= 0 {
        DecimalTenDigits(x);
      } else {
        assert !IsDigit(e[0]);
      }
    }
  }

  /** Names Write gives to 64-byte fingerprints fit the Sweep and Purge patterns. */
  lemma TitleSwept(prefix: string, hash: Bytes, duration: nat, now: int)
    requires |hash| == 64 && WellShaped(duration, now)
    ensures SweepMatch(prefix, Title(prefix, hash, duration, now))
    ensures PurgeMatch(prefix, Title(prefix, hash, duration, now))
    ensures HashSegment(prefix, Title(prefix, hash, duration, now)) == Hex(hash)
    ensures NameEpoch(prefix, Title(prefix, hash, duration, now)) == Expiry(duration, now)
  {
    TitleResolvable(prefix, hash, duration, now);
    var t := Title(prefix, hash, duration, now);
    var h := Hex(hash);
    assert t[|prefix|..|prefix| + HashWidth] == h;
    assert t[|prefix| + HashWidth..] == t[|Stem(prefix, hash)|..];
    forall i | |prefix| <= i < |prefix| + HashWidth
      ensures !IsRegexSpace(t[i])
    {
      assert t[i] == h[i - |prefix|];
    }
  }

  /**
   * Among names of one fingerprint with fixed-width epochs, string order is
   * epoch order.
   */
  lemma ResolveOrder(prefix: string, hash: Bytes, a: string, b: string)
    requires ResolveMatch(prefix, hash, a) && ResolveMatch(prefix, hash, b)
    ensures Below(a, b) <==> ResolveEpoch(prefix, hash, a) < ResolveEpoch(prefix, hash, b)
  {
    var stem := Stem(prefix, hash);
    assert a == stem + a[|stem|..];
    assert b == stem + b[|stem|..];
    BelowCommonPrefix(stem, a[|stem|..], b[|stem|..]);
    BelowDigits(a[|stem|..], b[|stem|..]);
  }

  /** The never-expiring name matches the GetFileName pattern with epoch 0. */
  lemma NeverNameMatches(prefix: string, hash: Bytes)
    ensures ResolveMatch(prefix, hash, NeverName(prefix, hash))
    ensures ResolveEpoch(prefix, hash, NeverName(prefix, hash)) == 0
  {
    var stem := Stem(prefix, hash);
    var n := NeverName(prefix, hash);
    assert n[..|stem|] == stem && n[|stem|..] == NeverEpoch;
    ZerosValue(NeverEpoch);
  }
}
