/** Cleaning of the audio bitrate label in `download_video`: every non-digit is
    deleted, so `256kbps` becomes `256`. */
module Bitrate {
  import opened Decimal

  /** The labels the bitrate selector offers. */
  const BitrateLabels: seq<string> := ["132kbps", "256kbps", "320kbps"]

  /** Every non-digit deleted. */
  function DigitsOnly(s: string): (r: string)
    ensures AllDigits(r)
    ensures |r| <= |s|
  {
    if s == [] then []
    else if IsDigit(s[0]) then [s[0]] + DigitsOnly(s[1..])
    else DigitsOnly(s[1..])
  }

  /** `r` can be obtained from `s` by deleting characters: the order is kept. */
  predicate IsSubsequence(r: string, s: string)
    decreases |s|
  {
    if r == [] then true
    else if s == [] then false
    else if r[0] == s[0] then IsSubsequence(r[1..], s[1..])
    else IsSubsequence(r, s[1..])
  }

  /** The cleaned bitrate is the input with characters deleted, never reordered. */
  lemma {:induction false} DigitsOnlyIsSubsequence(s: string)
    ensures IsSubsequence(DigitsOnly(s), s)
  {
    if s != [] {
      DigitsOnlyIsSubsequence(s[1..]);
      if IsDigit(s[0]) {
        assert DigitsOnly(s)[1..] == DigitsOnly(s[1..]);
      }
    }
  }

  /** Every digit of the input survives, as often as it occurs; nothing else does. */
  lemma {:induction false} DigitsOnlyCounts(s: string, c: char)
    ensures multiset(DigitsOnly(s))[c] == if IsDigit(c) then multiset(s)[c] else 0
  {
    if s != [] {
      DigitsOnlyCounts(s[1..], c);
      assert s == [s[0]] + s[1..];
      assert multiset(s) == multiset([s[0]]) + multiset(s[1..]);
    }
  }

  /** A string that is all digits is left as it is, and only such a string is. */
  lemma {:induction false} DigitsOnlyFixpoints(s: string)
    ensures DigitsOnly(s) == s <==> AllDigits(s)
  {
    if s != [] {
      DigitsOnlyFixpoints(s[1..]);
      if !IsDigit(s[0]) {
        assert |DigitsOnly(s)| <= |s[1..]| < |s|;
      } else {
        assert AllDigits(s) <==> AllDigits(s[1..]) by {
          if AllDigits(s[1..]) {
            forall i | 0 <= i < |s| ensures IsDigit(s[i]) {
              if i > 0 { assert s[i] == s[1..][i - 1]; }
            }
          }
        }
      }
    }
  }

  /** Cleaning twice is cleaning once. */
  lemma DigitsOnlyIdempotent(s: string)
    ensures DigitsOnly(DigitsOnly(s)) == DigitsOnly(s)
  {
    DigitsOnlyFixpoints(DigitsOnly(s));
  }

  lemma {:induction false} DigitsOnlyAppend(a: string, b: string)
    ensures DigitsOnly(a + b) == DigitsOnly(a) + DigitsOnly(b)
  {
    if a == [] {
      assert a + b == b;
    } else {
      assert (a + b)[0] == a[0];
      assert (a + b)[1..] == a[1..] + b;
      DigitsOnlyAppend(a[1..], b);
    }
  }

  /** A label made of a number followed by letters only is cleaned to that number,
      so the quality target read from it is the number itself. */
  lemma NumberThenUnitCleans(n: nat, unit: string)
    requires forall i :: 0 <= i < |unit| ==> !IsDigit(unit[i])
    ensures DigitsOnly(DecimalString(n) + unit) == DecimalString(n)
    ensures ParseDecimal(DigitsOnly(DecimalString(n) + unit)) == n
  {
    DigitsOnlyAppend(DecimalString(n), unit);
    DigitsOnlyFixpoints(DecimalString(n));
    NoDigitsCleansToEmpty(unit);
    ParseDecimalString(n);
  }

  lemma {:induction false} NoDigitsCleansToEmpty(s: string)
    requires forall i :: 0 <= i < |s| ==> !IsDigit(s[i])
    ensures DigitsOnly(s) == []
  {
    if s != [] {
      assert forall i :: 0 <= i < |s[1..]| ==> s[1..][i] == s[i + 1];
      NoDigitsCleansToEmpty(s[1..]);
    }
  }

  /** The numbers the offered labels carry. */
  const OfferedKbps: seq<nat> := [132, 256, 320]

  /** Each offered label is cleaned to the text of its number, and the quality
      target read back from it is that number: `256kbps` gives `256`. */
  lemma OfferedBitrates(i: nat)
    requires i < |BitrateLabels|
    ensures DigitsOnly(BitrateLabels[i]) == DecimalString(OfferedKbps[i])
    ensures ParseDecimal(DigitsOnly(BitrateLabels[i])) == OfferedKbps[i]
  {
    var n := OfferedKbps[i];
    if i == 0 {
      assert DecimalString(132) == "132";
    } else if i == 1 {
      assert DecimalString(256) == "256";
    } else {
      assert DecimalString(320) == "320";
    }
    assert BitrateLabels[i] == DecimalString(n) + "kbps";
    NumberThenUnitCleans(n, "kbps");
  }
}
