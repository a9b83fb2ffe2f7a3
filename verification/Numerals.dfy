/** Decimal numerals: what String(n) prints and parseInt(s, 10) reads. */
module Numerals {
  predicate IsDigits(s: string) { s != "" && forall k :: 0 <= k < |s| ==> '0' <= s[k] <= '9' }

  function ParseInt(s: string): nat
    requires forall k :: 0 <= k < |s| ==> '0' <= s[k] <= '9'
  {
    if s == "" then 0
    else 10 * ParseInt(s[..|s| - 1]) + ((s[|s| - 1] - '0') as nat)
  }

  function Show(n: nat): string {
    if n < 10 then [(n as char) + '0'] else Show(n / 10) + [((n % 10) as char) + '0']
  }

  function ShowInt(n: int): string { if n < 0 then "-" + Show(-n) else Show(n) }

  function Digit(n: nat): char { '0' + (n % 10) as char }

  /** n in `width` digits, padded with zeros. */
  function Padded(n: nat, width: nat): string {
    if width == 0 then "" else Padded(n / 10, width - 1) + [Digit(n)]
  }

  /** A printed number is made of digits and reads back as itself. */
  lemma {:induction false} ShowParses(n: nat)
    ensures IsDigits(Show(n)) && ParseInt(Show(n)) == n
  {
    if n >= 10 {
      ShowParses(n / 10);
      assert Show(n)[..|Show(n)| - 1] == Show(n / 10);
    }
  }

  lemma ShortNumerals(n: nat)
    ensures n < 100 ==> 1 <= |Show(n)| <= 2
    ensures n < 10000 ==> 1 <= |Show(n)| <= 4
  {
    if n >= 10 { assert |Show(n)| == |Show(n / 10)| + 1; }
    if n >= 100 { assert |Show(n / 10)| == |Show(n / 10 / 10)| + 1; }
    if n >= 1000 { assert |Show(n / 10 / 10)| == |Show(n / 10 / 10 / 10)| + 1; }
  }

  lemma ShowIsInjective(m: nat, n: nat)
    ensures Show(m) == Show(n) <==> m == n
  {
    ShowParses(m);
    ShowParses(n);
  }

  /** The padded numerals of a width are the strings of that many digits. */
  lemma {:induction false} DigitsArePadded(s: string)
    requires forall k :: 0 <= k < |s| ==> '0' <= s[k] <= '9'
    ensures s == Padded(ParseInt(s), |s|)
    decreases |s|
  {
    if s != "" {
      var front, last := s[..|s| - 1], s[|s| - 1];
      DigitsArePadded(front);
      assert ParseInt(s) / 10 == ParseInt(front) && ParseInt(s) % 10 == (last - '0') as nat;
      assert s == front + [last];
    }
  }

  lemma {:induction false} PaddedAreDigits(n: nat, width: nat)
    ensures |Padded(n, width)| == width && forall k :: 0 <= k < width ==> '0' <= Padded(n, width)[k] <= '9'
    decreases width
  {
    if width > 0 { PaddedAreDigits(n / 10, width - 1); }
  }
}
