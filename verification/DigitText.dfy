/** Decimal digit strings: printing a natural number and reading it back. */
module DigitText {

  predicate Contains(s: string, c: char) {
    exists i :: 0 <= i < |s| && s[i] == c
  }

  function DigitValue(c: char): int {
    c as int - '0' as int
  }

  function DigitChar(d: nat): (c: char)
    requires d < 10
    ensures '0' <= c <= '9' && DigitValue(c) == d
  {
    '0' + d as char
  }

  predicate AllDigits(s: string) {
    forall i | 0 <= i < |s| :: '0' <= s[i] <= '9'
  }

  /** The number a digit string stands for; the empty string stands for 0. */
  function Number(s: string): nat
    requires AllDigits(s)
  {
    if s == "" then 0 else Number(s[..|s| - 1]) * 10 + DigitValue(s[|s| - 1])
  }

  /** The number without leading zeros, "0" for zero. */
  function Digits(n: nat): (s: string)
    ensures s != "" && AllDigits(s)
  {
    if n < 10 then [DigitChar(n)] else Digits(n / 10) + [DigitChar(n % 10)]
  }

  lemma {:induction false} NumberOfDigits(n: nat)
    ensures Number(Digits(n)) == n
  {
    if n >= 10 {
      NumberOfDigits(n / 10);
      var s := Digits(n);
      assert s[..|s| - 1] == Digits(n / 10);
    } else {
      assert Digits(n)[..0] == "";
    }
  }

  function PowerOfTen(k: nat): nat {
    if k == 0 then 1 else 10 * PowerOfTen(k - 1)
  }

  lemma {:induction false} DigitsLength(n: nat, width: nat, limit: nat)
    requires width >= 1 && limit == PowerOfTen(width) && n < limit
    ensures |Digits(n)| <= width
  {
    if n < 10 {
    } else {
      DigitsLength(n / 10, width - 1, PowerOfTen(width - 1));
    }
  }

  lemma NumberAppend(s: string, c: char)
    requires AllDigits(s) && '0' <= c <= '9'
    ensures AllDigits(s + [c]) && Number(s + [c]) == Number(s) * 10 + DigitValue(c)
  {
    assert (s + [c])[..|s|] == s;
  }

  function Zeros(n: nat): (s: string)
    ensures |s| == n && forall i | 0 <= i < n :: s[i] == '0'
  {
    seq(n, i => '0')
  }

  lemma {:induction false} NumberOfZeros(n: nat)
    ensures Number(Zeros(n)) == 0
  {
    if n == 0 {
    } else {
      NumberOfZeros(n - 1);
      assert Zeros(n)[..n - 1] == Zeros(n - 1);
    }
  }

  lemma {:induction false} NumberLeadingZeros(n: nat, s: string)
    requires AllDigits(s)
    ensures AllDigits(Zeros(n) + s) && Number(Zeros(n) + s) == Number(s)
  {
    if s == "" {
      NumberOfZeros(n);
      assert Zeros(n) + s == Zeros(n);
    } else {
      NumberLeadingZeros(n, s[..|s| - 1]);
      assert (Zeros(n) + s)[..n + |s| - 1] == Zeros(n) + s[..|s| - 1];
    }
  }

  /** One more digit extends the digits, unless there were only zeros. */
  lemma DigitsNext(front: string, c: char)
    requires AllDigits(front) && '0' <= c <= '9'
    ensures AllDigits(front + [c])
    ensures Digits(Number(front + [c])) == if Number(front) == 0 then [c] else Digits(Number(front)) + [c]
  {
    NumberAppend(front, c);
    var n, d := Number(front), DigitValue(c);
    assert DigitChar(d) == c;
    assert (n * 10 + d) / 10 == n && (n * 10 + d) % 10 == d;
  }

  /** `s` is these digits behind zeros. */
  predicate IsPadded(s: string, digits: string) {
    |digits| <= |s| && s == Zeros(|s| - |digits|) + digits
  }

  lemma PaddedNext(front: string, digits: string, c: char)
    requires IsPadded(front, digits)
    ensures IsPadded(front + [c], digits + [c])
    ensures digits == "0" ==> IsPadded(front + [c], [c])
  {
    var s := front + [c];
    assert s == Zeros(|s| - |digits + [c]|) + (digits + [c]);
    if digits == "0" {
      assert forall i | 0 <= i < |front| :: front[i] == '0';
      assert s == Zeros(|s| - 1) + [c];
    }
  }

  /** A digit string is its number's digits behind leading zeros. */
  lemma {:induction false} LeadingZeros(s: string)
    requires s != "" && AllDigits(s)
    ensures IsPadded(s, Digits(Number(s)))
  {
    var front, c := s[..|s| - 1], s[|s| - 1];
    assert s == front + [c];
    DigitsNext(front, c);
    if front == "" {
      assert Number(front) == 0;
    } else {
      LeadingZeros(front);
      PaddedNext(front, Digits(Number(front)), c);
    }
  }
}
