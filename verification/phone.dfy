/** `formatPhoneNumber` of the landing page (script.js): on every input the
    phone field keeps only its digits and, once there are ten or more,
    shows the first ten as `(ddd) ddd-dddd` followed by the rest. */
module Phone {
  import opened Text

  /** `value.replace(/\D/g, '')`: the digits of the value, in order. */
  function Digits(s: string): (d: string)
    ensures |d| <= |s|
    ensures forall i :: 0 <= i < |d| ==> IsDigit(d[i])
  {
    if |s| == 0 then ""
    else (if IsDigit(s[0]) then [s[0]] else []) + Digits(s[1..])
  }

  /** The digit string holds every digit of the value as often as it occurs
      there, and no other character; `DigitsConcat` adds that the digits
      keep their order. */
  lemma {:induction false} DigitsCount(s: string)
    ensures forall c :: multiset(Digits(s))[c] == if IsDigit(c) then multiset(s)[c] else 0
    decreases |s|
  {
    if |s| > 0 {
      DigitsCount(s[1..]);
      assert s == [s[0]] + s[1..];
    }
  }

  /** Ten digits start at position `i` of `s`. */
  predicate TenDigitsAt(s: string, i: int) {
    0 <= i && i + 10 <= |s| && forall k :: i <= k < i + 10 ==> IsDigit(s[k])
  }

  /** Where the regular expression `(\d{3})(\d{3})(\d{4})` first matches
      at or after `start`, or -1 when it matches nowhere there. */
  function FirstMatchFrom(s: string, start: nat): (i: int)
    ensures i == -1 || (start <= i && TenDigitsAt(s, i))
    ensures i == -1 ==> forall j :: start <= j ==> !TenDigitsAt(s, j)
    ensures i != -1 ==> forall j :: start <= j < i ==> !TenDigitsAt(s, j)
    decreases |s| - start
  {
    if start + 10 > |s| then -1
    else if TenDigitsAt(s, start) then start
    else FirstMatchFrom(s, start + 1)
  }

  /** The replacement `($1) $2-$3` for ten matched digits. */
  function Pattern(ten: string): string
    requires |ten| == 10
  {
    "(" + ten[..3] + ") " + ten[3..6] + "-" + ten[6..]
  }

  /** `s.replace(/(\d{3})(\d{3})(\d{4})/, '($1) $2-$3')`: without the `g`
      flag only the first match is replaced. */
  function ReplaceFirstMatch(s: string): string {
    var i := FirstMatchFrom(s, 0);
    if i < 0 then s else s[..i] + Pattern(s[i..i + 10]) + s[i + 10..]
  }

  /** The field's value after an input event: unchanged while it has fewer
      than ten digits, otherwise its digits with the first ten formatted. */
  function FormatPhone(value: string): (r: string)
    ensures |Digits(value)| < 10 ==> r == value
    ensures |Digits(value)| >= 10 ==> r == Pattern(Digits(value)[..10]) + Digits(value)[10..]
  {
    var phone := Digits(value);
    if |phone| >= 10 then
      assert TenDigitsAt(phone, 0);
      MatchAtStart(phone);
      ReplaceFirstMatch(phone)
    else value
  }

  /** When ten digits open the text the pattern matches at the start, and
      only those ten are rewritten. */
  lemma MatchAtStart(s: string)
    requires TenDigitsAt(s, 0)
    ensures FirstMatchFrom(s, 0) == 0
    ensures ReplaceFirstMatch(s) == Pattern(s[..10]) + s[10..]
  {
    ReplaceAt(s, 0);
    assert s[0..10] == s[..10];
  }

  /** Where the first match is, the replacement rewrites those ten
      characters and keeps the rest. */
  lemma ReplaceAt(s: string, i: nat)
    requires FirstMatchFrom(s, 0) == i
    ensures i + 10 <= |s|
    ensures ReplaceFirstMatch(s) == s[..i] + Pattern(s[i..i + 10]) + s[i + 10..]
  {
  }

  /** The digits of a concatenation are the digits of its parts. */
  lemma {:induction false} DigitsConcat(a: string, b: string)
    ensures Digits(a + b) == Digits(a) + Digits(b)
    decreases |a|
  {
    if |a| > 0 {
      var head := if IsDigit(a[0]) then [a[0]] else [];
      assert (a + b)[0] == a[0];
      assert (a + b)[1..] == a[1..] + b;
      DigitsConcat(a[1..], b);
      assert Digits(a + b) == head + Digits(a[1..] + b);
      assert Digits(a) == head + Digits(a[1..]);
    } else {
      assert a + b == b;
    }
  }

  /** Text made of digits only is its own digit string. */
  lemma {:induction false} DigitsOfDigits(s: string)
    requires forall i :: 0 <= i < |s| ==> IsDigit(s[i])
    ensures Digits(s) == s
    decreases |s|
  {
    if |s| > 0 {
      DigitsOfDigits(s[1..]);
    }
  }

  /** Text without digits has an empty digit string. */
  lemma {:induction false} DigitsOfNoDigits(s: string)
    requires NoDigits(s)
    ensures Digits(s) == ""
    decreases |s|
  {
    if |s| > 0 {
      DigitsOfNoDigits(s[1..]);
    }
  }

  /** The formatted ten digits keep exactly those digits. */
  lemma DigitsOfPattern(ten: string)
    requires |ten| == 10 && forall i :: 0 <= i < 10 ==> IsDigit(ten[i])
    ensures Digits(Pattern(ten)) == ten
  {
    var x, y, z := ten[..3], ten[3..6], ten[6..];
    PunctuationHasNoDigits();
    DigitsBetween("(", x, ") ", y, "-", z);
    assert x + y + z == ten;
  }

  /** The punctuation the pattern adds holds no digit. */
  lemma PunctuationHasNoDigits()
    ensures NoDigits("(") && NoDigits(") ") && NoDigits("-")
  {
  }

  predicate NoDigits(s: string) {
    forall i :: 0 <= i < |s| ==> !IsDigit(s[i])
  }

  predicate AllDigits(s: string) {
    forall i :: 0 <= i < |s| ==> IsDigit(s[i])
  }

  /** Digit runs separated by digit-free text: the digits are the runs. */
  lemma DigitsBetween(a: string, x: string, b: string, y: string, c: string, z: string)
    requires NoDigits(a) && NoDigits(b) && NoDigits(c)
    requires AllDigits(x) && AllDigits(y) && AllDigits(z)
    ensures Digits(a + x + b + y + c + z) == x + y + z
  {
    DigitsOfNoDigits(a);
    DigitsOfNoDigits(b);
    DigitsOfNoDigits(c);
    DigitsOfDigits(x);
    DigitsOfDigits(y);
    DigitsOfDigits(z);
    DigitsConcat(a, x);
    assert Digits(a + x) == x;
    DigitsConcat(a + x, b);
    assert Digits(a + x + b) == x;
    DigitsConcat(a + x + b, y);
    assert Digits(a + x + b + y) == x + y;
    DigitsConcat(a + x + b + y, c);
    assert Digits(a + x + b + y + c) == x + y;
    DigitsConcat(a + x + b + y + c, z);
  }

  /** Formatting only adds punctuation: the digits are kept, in order, and
      four characters are added once there are ten of them. */
  lemma FormatKeepsDigits(value: string)
    ensures Digits(FormatPhone(value)) == Digits(value)
    ensures |Digits(value)| >= 10 ==> |FormatPhone(value)| == |Digits(value)| + 4
  {
    var d := Digits(value);
    if |d| >= 10 {
      DigitsOfPattern(d[..10]);
      DigitsConcat(Pattern(d[..10]), d[10..]);
      DigitsOfDigits(d[10..]);
      assert d[..10] + d[10..] == d;
    }
  }

  /** Formatting a formatted value changes nothing. */
  lemma FormatIdempotent(value: string)
    ensures FormatPhone(FormatPhone(value)) == FormatPhone(value)
  {
    FormatKeepsDigits(value);
  }
}
