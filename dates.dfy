/** The date strings of the model: the `yyyy/mm/dd` stamp a new transaction
    receives, and the `d/m/y -> y/m/d` field swap applied to budget dates. */
module Dates {
  import opened Text

  /** The current date as the handlers read it: `getDate()`, `getMonth() + 1`
      and `getFullYear()` of `new Date()`. */
  datatype Today = Today(day: nat, month: nat, year: nat)

  function DigitChar(d: nat): (c: char)
    requires d < 10
    ensures '0' <= c <= '9'
  {
    ('0' as int + d) as char
  }

  predicate AllDigits(s: string)
  {
    forall i :: 0 <= i < |s| ==> '0' <= s[i] <= '9'
  }

  /** `n.toString()` for a natural number: its decimal digits, no leading zero. */
  function NatToString(n: nat): (s: string)
    ensures 1 <= |s| && AllDigits(s)
    ensures |s| == 1 <==> n < 10
    ensures s[0] == '0' ==> n == 0
  {
    if n < 10 then [DigitChar(n)] else NatToString(n / 10) + [DigitChar(n % 10)]
  }

  /** The number a string of decimal digits denotes. */
  function DigitsValue(s: string): int
  {
    if s == [] then 0 else DigitsValue(s[..|s| - 1]) * 10 + (s[|s| - 1] as int - '0' as int)
  }

  /** Reading back the digits of `n` gives `n`. */
  lemma {:induction false} NatToStringValue(n: nat)
    ensures DigitsValue(NatToString(n)) == n
  {
    if n >= 10 {
      NatToStringValue(n / 10);
      var s := NatToString(n);
      assert s[..|s| - 1] == NatToString(n / 10);
    }
  }

  /** `n.toString().padStart(2, '0')`. */
  function Pad2(n: nat): (r: string)
    ensures AllDigits(r)
    ensures n < 100 ==> |r| == 2
    ensures DigitsValue(r) == n
  {
    var s := NatToString(n);
    NatToStringValue(n);
    if |s| < 2 then
      assert DigitsValue("0" + s) == n by {
        assert ("0" + s)[..1] == "0";
      }
      "0" + s
    else
      assert n < 100 ==> |s| == 2 by {
        if n < 100 && |s| > 2 { NatToStringLength(n); }
      }
      s
  }

  /** Numbers below 100 have at most two digits. */
  lemma NatToStringLength(n: nat)
    requires 10 <= n < 100
    ensures |NatToString(n)| == 2
  {
    assert NatToString(n) == NatToString(n / 10) + [DigitChar(n % 10)];
  }

  lemma DigitsHaveNoSlash(s: string)
    requires AllDigits(s)
    ensures '/' !in s
  {
  }

  predicate ThreeFields(s: string)
  {
    |Split(s, '/')| == 3
  }

  /** A destructured field of `s.split('/')`: JavaScript yields undefined past
      the end, which a template literal renders as "undefined". */
  function Field(parts: seq<string>, i: nat): string
  {
    if i < |parts| then parts[i] else "undefined"
  }

  /** `const [x, y, z] = s.split('/'); `${z}/${y}/${x}``: the first and third
      fields trade places, nothing is padded, fields past the third are dropped. */
  function SwapDate(s: string): (r: string)
    ensures ThreeFields(s) ==> var p := Split(s, '/'); Split(r, '/') == [p[2], p[1], p[0]]
    ensures ThreeFields(s) ==> |r| == |s|
  {
    var p := Split(s, '/');
    var r := Field(p, 2) + "/" + Field(p, 1) + "/" + p[0];
    if |p| == 3 then
      SplitThree(p[2], p[1], p[0], '/');
      ThreeFieldsJoined(s, '/');
      r
    else
      r
  }

  /** On three separator-free fields the swap exchanges the first and the third. */
  lemma SwapDateOfFields(a: string, b: string, c: string)
    requires '/' !in a && '/' !in b && '/' !in c
    ensures SwapDate(a + "/" + b + "/" + c) == c + "/" + b + "/" + a
  {
    SplitThree(a, b, c, '/');
  }

  /** Swapping twice gives back a three-field date unchanged. */
  lemma SwapDateInvolution(s: string)
    requires ThreeFields(s)
    ensures ThreeFields(SwapDate(s))
    ensures SwapDate(SwapDate(s)) == s
  {
    ThreeFieldsJoined(s, '/');
  }

  /** The date a new transaction is stamped with: `dd/mm/yyyy` built from
      today's padded day and month, then split and reassembled by SwapDate. */
  function StampDate(today: Today): (stamp: string)
    ensures stamp == NatToString(today.year) + "/" + Pad2(today.month) + "/" + Pad2(today.day)
    ensures Split(stamp, '/') == [NatToString(today.year), Pad2(today.month), Pad2(today.day)]
  {
    var year, month, day := NatToString(today.year), Pad2(today.month), Pad2(today.day);
    DigitsHaveNoSlash(year);
    DigitsHaveNoSlash(month);
    DigitsHaveNoSlash(day);
    SplitThree(day, month, year, '/');
    SplitThree(year, month, day, '/');
    SwapDate(day + "/" + month + "/" + year)
  }
}
