/**
  Decimal rendering of non-negative integers, as Python's `str(int)` produces
  it inside the f-strings that build kind names (`f"{element}{i}"`).
*/
module Decimal {

  predicate IsDigit(c: char) {
    '0' <= c <= '9'
  }

  predicate AllDigits(s: string) {
    forall k :: 0 <= k < |s| ==> IsDigit(s[k])
  }

  predicate NoDigits(s: string) {
    forall k :: 0 <= k < |s| ==> !IsDigit(s[k])
  }

  function DigitChar(d: nat): (c: char)
    requires d < 10
    ensures IsDigit(c)
    ensures c as int == '0' as int + d
  {
    ('0' as int + d) as char
  }

  /** `str(n)` for a non-negative integer: at least one character, all digits. */
  function NatToString(n: nat): (s: string)
    ensures |s| >= 1 && AllDigits(s)
    ensures n < 10 <==> |s| == 1
  {
    if n < 10 then [DigitChar(n)] else NatToString(n / 10) + [DigitChar(n % 10)]
  }

  /** Different numbers never print the same. */
  lemma {:induction false} NatToStringInjective(a: nat, b: nat)
    requires NatToString(a) == NatToString(b)
    ensures a == b
  {
    if a >= 10 && b >= 10 {
      var sa, sb := NatToString(a), NatToString(b);
      assert sa[|sa| - 1] == sb[|sb| - 1];
      assert DigitChar(a % 10) == DigitChar(b % 10);
      assert sa[..|sa| - 1] == NatToString(a / 10);
      assert sb[..|sb| - 1] == NatToString(b / 10);
      NatToStringInjective(a / 10, b / 10);
    } else if a < 10 && b < 10 {
      assert NatToString(a)[0] == NatToString(b)[0];
    }
  }

  /**
    A string made of a digit-free prefix followed by a non-empty run of digits
    splits in exactly one way.
  */
  lemma SplitUnique(p1: string, d1: string, p2: string, d2: string)
    requires NoDigits(p1) && NoDigits(p2)
    requires AllDigits(d1) && AllDigits(d2) && |d1| > 0 && |d2| > 0
    requires p1 + d1 == p2 + d2
    ensures p1 == p2 && d1 == d2
  {
    var s := p1 + d1;
    assert forall k :: 0 <= k < |s| ==> (IsDigit(s[k]) <==> k >= |p1|);
    assert forall k :: 0 <= k < |s| ==> (IsDigit(s[k]) <==> k >= |p2|);
    var m := if |p1| < |p2| then |p1| else |p2|;
    assert IsDigit(s[m]) <==> m >= |p1|;
    assert p1 == s[..|p1|] == p2;
    assert d1 == s[|p1|..] == d2;
  }
}
