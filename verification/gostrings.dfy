/** String helpers with the meaning the Go standard library gives them:
    strings.Contains, strings.IndexByte / LastIndexByte, and fmt's "%d". */
module GoStrings {

  /** `sub` occurs in `s` starting at offset `i`. */
  ghost predicate OccursAt(s: string, sub: string, i: int)
  {
    0 <= i && i + |sub| <= |s| && s[i..i + |sub|] == sub
  }

  predicate HasPrefix(s: string, prefix: string)
  {
    |prefix| <= |s| && s[..|prefix|] == prefix
  }

  /** strings.Contains: some offset of `s` starts a copy of `sub`. */
  function Contains(s: string, sub: string): (r: bool)
    ensures r <==> exists i :: OccursAt(s, sub, i)
    decreases |s|
  {
    if HasPrefix(s, sub) then
      assert OccursAt(s, sub, 0);
      true
    else if |s| == 0 then
      false
    else
      var r := Contains(s[1..], sub);
      assert forall i :: OccursAt(s[1..], sub, i) <==> OccursAt(s, sub, i + 1) by {
        forall i
          ensures OccursAt(s[1..], sub, i) <==> OccursAt(s, sub, i + 1)
        {
          if 0 <= i && i + |sub| <= |s[1..]| {
            assert s[1..][i..i + |sub|] == s[i + 1..i + 1 + |sub|];
          }
        }
      }
      assert !OccursAt(s, sub, 0);
      assert r ==> exists i :: OccursAt(s, sub, i) by {
        if r {
          var i :| OccursAt(s[1..], sub, i);
          assert OccursAt(s, sub, i + 1);
        }
      }
      assert (exists i :: OccursAt(s, sub, i)) ==> r by {
        if exists i :: OccursAt(s, sub, i) {
          var i :| OccursAt(s, sub, i);
          assert i != 0;
          assert OccursAt(s[1..], sub, i - 1);
        }
      }
      r
  }

  /** An occurrence of `sub` in a prefix is an occurrence in the whole string. */
  lemma ContainsExtend(s: string, tail: string, sub: string)
    requires Contains(s, sub)
    ensures Contains(s + tail, sub)
  {
    var i :| OccursAt(s, sub, i);
    assert (s + tail)[i..i + |sub|] == s[i..i + |sub|];
    assert OccursAt(s + tail, sub, i);
  }

  /** strings.IndexByte(s, c), with "not found" reported as |s| instead of -1. */
  function IndexOf(s: string, c: char): (i: nat)
    ensures i <= |s|
    ensures i < |s| <==> c in s
    ensures i < |s| ==> s[i] == c
    ensures forall j :: 0 <= j < i ==> s[j] != c
  {
    if |s| == 0 then 0
    else if s[0] == c then 0
    else 1 + IndexOf(s[1..], c)
  }

  /** strings.LastIndexByte(s, c), for a character known to occur. */
  function LastIndexOf(s: string, c: char): (i: nat)
    requires c in s
    ensures i < |s| && s[i] == c
    ensures forall j :: i < j < |s| ==> s[j] != c
  {
    if s[|s| - 1] == c then |s| - 1
    else LastIndexOf(s[..|s| - 1], c)
  }

  predicate IsDigit(c: char)
  {
    '0' <= c <= '9'
  }

  predicate AllDigits(s: string)
  {
    forall i :: 0 <= i < |s| ==> IsDigit(s[i])
  }

  function DigitChar(d: nat): (c: char)
    requires d < 10
    ensures IsDigit(c)
  {
    ('0' as int + d) as char
  }

  function DigitValue(c: char): (d: nat)
    requires IsDigit(c)
    ensures d < 10
  {
    (c - '0') as nat
  }

  /** The base-10 digits of `n`, most significant first, without leading zeros. */
  function NatDecimal(n: nat): (r: string)
    ensures |r| > 0 && AllDigits(r)
    ensures n >= 10 ==> |r| >= 2
    decreases n
  {
    if n < 10 then [DigitChar(n)]
    else NatDecimal(n / 10) + [DigitChar(n % 10)]
  }

  /** fmt.Sprintf("%d", i): a minus sign for negative numbers, then the digits. */
  function Decimal(i: int): string
  {
    if i < 0 then "-" + NatDecimal(-i) else NatDecimal(i)
  }

  /** The value of a string of digits (the inverse of NatDecimal). */
  function ParseDigits(s: string): nat
    requires AllDigits(s)
  {
    if |s| == 0 then 0
    else ParseDigits(s[..|s| - 1]) * 10 + DigitValue(s[|s| - 1])
  }

  /** An optional minus sign followed by at least one digit. */
  predicate IsDecimal(s: string)
  {
    if |s| > 0 && s[0] == '-' then |s| > 1 && AllDigits(s[1..])
    else |s| > 0 && AllDigits(s)
  }

  function ParseDecimal(s: string): int
    requires IsDecimal(s)
  {
    if s[0] == '-' then -(ParseDigits(s[1..]) as int) else ParseDigits(s)
  }

  lemma {:induction false} NatDecimalRoundTrip(n: nat)
    ensures ParseDigits(NatDecimal(n)) == n
    decreases n
  {
    var s := NatDecimal(n);
    if n < 10 {
      assert s[..0] == [];
    } else {
      NatDecimalRoundTrip(n / 10);
      assert s[..|s| - 1] == NatDecimal(n / 10);
    }
  }

  /** The form "%d" writes: no leading zero unless the number is zero, and
      no minus sign in front of zero. */
  predicate Canonical(s: string)
  {
    && IsDecimal(s)
    && if s[0] == '-' then NoLeadingZero(s[1..]) && s[1..] != "0" else NoLeadingZero(s)
  }

  predicate NoLeadingZero(digits: string)
  {
    |digits| == 1 || (|digits| > 0 && digits[0] != '0')
  }

  /** Decimal has an inverse, so `"%d"` never maps two integers to one string,
      and it writes each number in canonical form. */
  lemma DecimalRoundTrip(i: int)
    ensures IsDecimal(Decimal(i))
    ensures ParseDecimal(Decimal(i)) == i
    ensures Canonical(Decimal(i))
  {
    if i < 0 {
      NegativeDecimal(-i);
      NatDecimalLeading(-i);
      NegativeCanonical(NatDecimal(-i));
    } else {
      NonNegativeDecimal(i);
      NatDecimalLeading(i);
      NonNegativeCanonical(NatDecimal(i));
    }
  }

  lemma NegativeCanonical(d: string)
    requires |d| > 0 && AllDigits(d) && NoLeadingZero(d) && d != "0"
    ensures Canonical("-" + d)
  {
    assert ("-" + d)[1..] == d;
  }

  lemma NonNegativeCanonical(d: string)
    requires |d| > 0 && AllDigits(d) && NoLeadingZero(d)
    ensures Canonical(d)
  {
    assert IsDigit(d[0]);
  }

  /** NatDecimal writes zero as "0" and starts every other number with a
      nonzero digit. */
  lemma {:induction false} NatDecimalLeading(n: nat)
    ensures NatDecimal(n) == "0" <==> n == 0
    ensures NoLeadingZero(NatDecimal(n))
    decreases n
  {
    if n >= 10 {
      NatDecimalLeading(n / 10);
      assert NatDecimal(n)[0] == NatDecimal(n / 10)[0];
    }
  }

  lemma NegativeDecimal(n: nat)
    ensures IsDecimal("-" + NatDecimal(n)) && ParseDecimal("-" + NatDecimal(n)) == -(n as int)
  {
    var d := NatDecimal(n);
    var s := "-" + d;
    NatDecimalRoundTrip(n);
    assert s[0] == '-' && s[1..] == d;
  }

  lemma NonNegativeDecimal(n: nat)
    ensures IsDecimal(NatDecimal(n)) && ParseDecimal(NatDecimal(n)) == n
  {
    var d := NatDecimal(n);
    NatDecimalRoundTrip(n);
    assert IsDigit(d[0]);
  }

  lemma SeqAssoc<T>(a: seq<T>, b: seq<T>, c: seq<T>)
    ensures a + (b + c) == a + b + c
  {
  }

  lemma DecimalInjective(a: int, b: int)
    ensures Decimal(a) == Decimal(b) <==> a == b
  {
    DecimalRoundTrip(a);
    DecimalRoundTrip(b);
  }

  /** A decimal rendering never contains a path separator, a space or a line break,
      and ends with a digit. */
  lemma DecimalShape(i: int)
    ensures |Decimal(i)| > 0 && IsDigit(Decimal(i)[|Decimal(i)| - 1])
    ensures '/' !in Decimal(i) && ' ' !in Decimal(i) && '\n' !in Decimal(i)
  {
    var d := NatDecimal(if i < 0 then -i else i);
    assert forall k :: 0 <= k < |d| ==> IsDigit(d[k]);
    if i < 0 {
      assert Decimal(i) == "-" + d;
      assert forall k :: 1 <= k < |Decimal(i)| ==> Decimal(i)[k] == d[k - 1];
    }
  }
}
