/**
 * Go's `<` on strings, which `os.ReadDir` uses to sort a listing: byte-wise
 * lexicographic order. On valid UTF-8 this is the order of code points, which
 * is how it is stated here on `seq<char>`.
 */
module Lex {
  import opened Text

  predicate Below(a: string, b: string)
  {
    if a == [] then b != []
    else b != [] && (a[0] < b[0] || (a[0] == b[0] && Below(a[1..], b[1..])))
  }

  lemma {:induction false} BelowIrreflexive(a: string)
    ensures !Below(a, a)
  {
    if a != [] {
      BelowIrreflexive(a[1..]);
    }
  }

  lemma {:induction false} BelowTransitive(a: string, b: string, c: string)
    requires Below(a, b) && Below(b, c)
    ensures Below(a, c)
  {
    if a != [] && a[0] == b[0] && b[0] == c[0] {
      BelowTransitive(a[1..], b[1..], c[1..]);
    }
  }

  lemma {:induction false} BelowTotal(a: string, b: string)
    ensures a == b || Below(a, b) || Below(b, a)
  {
    if a != [] && b != [] && a[0] == b[0] {
      BelowTotal(a[1..], b[1..]);
      if a[1..] == b[1..] {
        assert a == [a[0]] + a[1..] && b == [b[0]] + b[1..];
      }
    }
  }

  /** A shared leading part does not change the order. */
  lemma {:induction false} BelowCommonPrefix(p: string, a: string, b: string)
    ensures Below(p + a, p + b) <==> Below(a, b)
  {
    if p == [] {
      assert p + a == a && p + b == b;
    } else {
      assert (p + a)[0] == p[0] == (p + b)[0];
      assert (p + a)[1..] == p[1..] + a;
      assert (p + b)[1..] == p[1..] + b;
      BelowCommonPrefix(p[1..], a, b);
    }
  }

  lemma LeadingDigitBound(x: int, y: int, p: int, ra: int, rb: int)
    requires 0 <= x < y && p >= 1 && 0 <= ra < p && 0 <= rb < p
    ensures x * p + ra < y * p + rb
  {
    var k := y - x - 1;
    assert k >= 0;
    assert k * p >= 0;
    assert y * p == x * p + p + k * p;
  }

  /**
   * On digit runs of one width, string order is numeric order: this is why
   * the last fixed-width epoch in a sorted listing is the largest one.
   */
  lemma {:induction false} BelowDigits(a: string, b: string)
    requires AllDigits(a) && AllDigits(b) && |a| == |b|
    ensures Below(a, b) <==> DigitsValue(a) < DigitsValue(b)
  {
    if a != [] {
      DigitsValueFront(a);
      DigitsValueFront(b);
      BelowDigits(a[1..], b[1..]);
      var x := a[0] as int - '0' as int;
      var y := b[0] as int - '0' as int;
      var p := Pow10(|a| - 1);
      if x < y {
        LeadingDigitBound(x, y, p, DigitsValue(a[1..]), DigitsValue(b[1..]));
      } else if y < x {
        LeadingDigitBound(y, x, p, DigitsValue(b[1..]), DigitsValue(a[1..]));
      }
    }
  }
}
