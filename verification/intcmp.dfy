/** $(intcmp): integers of any length are compared by sign, length and digits. */
module IntegerCompare {
  import opened Arithmetic
  import opened Prelude

  // ----- characters -----

  predicate IsDigit(c: char) {
    '0' <= c <= '9'
  }

  predicate AllSpace(s: string) {
    forall c :: c in s ==> IsSpace(c)
  }

  predicate AllDigits(s: string) {
    forall i: nat :: i < |s| ==> IsDigit(s[i])
  }

  // ----- what a numeral denotes -----

  function Pow10(n: nat): (p: nat)
    ensures p > 0
  {
    if n == 0 then 1 else 10 * Pow10(n - 1)
  }

  function NatValue(digits: string): nat
    requires AllDigits(digits)
  {
    if digits == "" then 0
    else 10 * NatValue(digits[..|digits| - 1]) + (digits[|digits| - 1] - '0') as nat
  }

  /** A sign, or nothing. */
  predicate IsSign(sign: string) {
    sign == "" || sign == "+" || sign == "-"
  }

  /** The text is blanks, a sign, digits and blanks. */
  ghost predicate Reads(text: string, left: string, sign: string, digits: string, right: string) {
    && text == left + sign + digits + right
    && AllSpace(left) && IsSign(sign) && AllDigits(digits) && digits != "" && AllSpace(right)
  }

  function Value(sign: string, digits: string): int
    requires AllDigits(digits)
  {
    if sign == "-" then -(NatValue(digits) as int) else NatValue(digits)
  }

  ghost predicate IsNumeral(text: string) {
    exists left, sign, digits, right :: Reads(text, left, sign, digits, right)
  }

  /** The integer a text denotes. */
  ghost predicate Denotes(text: string, v: int) {
    exists left, sign, digits, right :: Reads(text, left, sign, digits, right) && v == Value(sign, digits)
  }

  // ----- digits and numbers -----

  lemma {:induction false} ValueOfBoth(a: string, b: string)
    requires AllDigits(a) && AllDigits(b)
    ensures AllDigits(a + b) && NatValue(a + b) == NatValue(a) * Pow10(|b|) + NatValue(b)
  {
    if b == "" {
      assert a + b == a;
    } else {
      var n := |b| - 1;
      ValueOfBoth(a, b[..n]);
      assert (a + b)[..|a + b| - 1] == a + b[..n];
      assert NatValue(a) * Pow10(|b|) == 10 * (NatValue(a) * Pow10(n)) by { Times10(NatValue(a), Pow10(n)); }
    }
  }

  lemma Times10(a: nat, p: nat)
    ensures a * (10 * p) == 10 * (a * p)
  {
  }

  lemma {:induction false} ValueBelow(a: string)
    requires AllDigits(a)
    ensures NatValue(a) < Pow10(|a|)
  {
    if a != "" { ValueBelow(a[..|a| - 1]); }
  }

  /** The first digit counts most. */
  lemma FirstDigit(a: string)
    requires AllDigits(a) && a != ""
    ensures AllDigits(a[1..]) && NatValue(a) == (a[0] - '0') as nat * Pow10(|a| - 1) + NatValue(a[1..])
  {
    ValueOfBoth([a[0]], a[1..]);
    assert [a[0]] + a[1..] == a;
    assert NatValue([a[0]]) == (a[0] - '0') as nat;
  }

  lemma LeadingZeros(zeros: string, rest: string)
    requires AllDigits(rest) && forall i: nat :: i < |zeros| ==> zeros[i] == '0'
    ensures AllDigits(zeros + rest) && NatValue(zeros + rest) == NatValue(rest)
  {
    ZerosAreZero(zeros);
    ValueOfBoth(zeros, rest);
  }

  lemma {:induction false} ZerosAreZero(zeros: string)
    requires forall i: nat :: i < |zeros| ==> zeros[i] == '0'
    ensures AllDigits(zeros) && NatValue(zeros) == 0
  {
    if zeros != "" { ZerosAreZero(zeros[..|zeros| - 1]); }
  }

  /** Digits that do not begin with a zero. */
  predicate IsSignificant(a: string) {
    AllDigits(a) && (a != "" ==> a[0] != '0')
  }

  lemma LongerIsLarger(a: string, b: string)
    requires IsSignificant(a) && IsSignificant(b) && |a| < |b|
    ensures NatValue(a) < NatValue(b)
  {
    ValueBelow(a);
    FirstDigit(b);
    PowersGrow(|a|, |b| - 1);
    AtLeastOnce((b[0] - '0') as nat, Pow10(|b| - 1));
  }

  lemma AtLeastOnce(d: nat, p: nat)
    requires d > 0
    ensures d * p >= p
  {
  }

  lemma {:induction false} PowersGrow(m: nat, n: nat)
    requires m <= n
    ensures Pow10(m) <= Pow10(n)
  {
    if m < n { PowersGrow(m, n - 1); }
  }

  lemma LargerFirst(a: string, b: string)
    requires AllDigits(a) && AllDigits(b) && |a| == |b| > 0 && a[0] < b[0]
    ensures NatValue(a) < NatValue(b)
  {
    FirstDigit(a);
    FirstDigit(b);
    ValueBelow(a[1..]);
    LargerTimes((a[0] - '0') as nat, (b[0] - '0') as nat, Pow10(|a| - 1), NatValue(a[1..]), NatValue(b[1..]));
  }

  lemma SamePrefix(a: string, b: string, i: nat)
    requires AllDigits(a) && AllDigits(b) && |a| == |b| && i < |a| && a[..i] == b[..i]
    ensures NatValue(a) - NatValue(b) == NatValue(a[i..]) - NatValue(b[i..])
  {
    assert a[..i] + a[i..] == a && b[..i] + b[i..] == b;
    ValueOfBoth(a[..i], a[i..]);
    ValueOfBoth(b[..i], b[i..]);
  }

  /** At the first difference, the order of the digits is the order of the numbers. */
  lemma FirstDifference(a: string, b: string, i: nat)
    requires AllDigits(a) && AllDigits(b) && |a| == |b| && i < |a| && a[..i] == b[..i] && a[i] < b[i]
    ensures NatValue(a) < NatValue(b)
  {
    SamePrefix(a, b, i);
    LargerFirst(a[i..], b[i..]);
  }

  lemma LargerTimes(x: nat, y: nat, p: nat, r: nat, q: nat)
    requires x < y && r < p
    ensures x * p + r < y * p + q
  {
    MulMono(x, y, p);
  }

  // ----- parse_textint -----

  /** What parse_textint finds: the sign of the number, and where its significant digits
      stand in the text. */
  datatype Textint = Textint(sign: int, start: nat, end: nat) {

    /** The significant digits, and a zero before them when there are none. */
    ghost predicate Describes(text: string, v: int) {
      && start <= end <= |text| && IsSignificant(text[start..end])
      && v == (if sign < 0 then -(NatValue(text[start..end]) as int) else NatValue(text[start..end]))
      && (sign == 0 <==> start == end) && -1 <= sign <= 1
      && (sign == 0 ==> start > 0 && text[start - 1] == '0')
    }
  }

  method SkipSpaces(text: string, from: nat) returns (p: nat)
    requires from <= |text|
    ensures from <= p <= |text| && AllSpace(text[from..p]) && (p < |text| ==> !IsSpace(text[p]))
  {
    p := from;
    while p < |text| && IsSpace(text[p])
      invariant from <= p <= |text| && AllSpace(text[from..p])
    {
      assert text[from..p + 1] == text[from..p] + [text[p]];
      p := p + 1;
    }
  }

  method SkipZeros(text: string, from: nat) returns (p: nat)
    requires from <= |text|
    ensures from <= p <= |text| && (forall i :: from <= i < p ==> text[i] == '0') && (p < |text| ==> text[p] != '0')
  {
    p := from;
    while p < |text| && text[p] == '0'
      invariant from <= p <= |text| && forall i :: from <= i < p ==> text[i] == '0'
    {
      p := p + 1;
    }
  }

  method SkipDigits(text: string, from: nat) returns (p: nat)
    requires from <= |text|
    ensures from <= p <= |text| && (forall i :: from <= i < p ==> IsDigit(text[i]))
      && (p < |text| ==> !IsDigit(text[p]))
  {
    p := from;
    while p < |text| && IsDigit(text[p])
      invariant from <= p <= |text| && forall i :: from <= i < p ==> IsDigit(text[i])
    {
      p := p + 1;
    }
  }

  /** Where the parts of a text end: blanks, sign, digits. */
  ghost predicate Divided(text: string, a: nat, b: nat, c: nat) {
    && a <= b <= c <= |text| && b <= a + 1
    && AllSpace(text[..a]) && (a < |text| ==> !IsSpace(text[a]))
    && (b == a + 1 <==> a < |text| && (text[a] == '-' || text[a] == '+'))
    && (forall i :: b <= i < c ==> IsDigit(text[i])) && (c < |text| ==> !IsDigit(text[c]))
  }

  /** A stretch of one class ends where it is followed by something else. */
  lemma SameStretch(text: string, from: nat, end: nat, stretch: string, rest: string, kind: char -> bool)
    requires from <= end <= |text| && text[from..] == stretch + rest
    requires (forall i :: from <= i < end ==> kind(text[i])) && (end < |text| ==> !kind(text[end]))
    requires (forall i: nat :: i < |stretch| ==> kind(stretch[i])) && (rest != "" ==> !kind(rest[0]))
    ensures end == from + |stretch| && text[from..end] == stretch && text[end..] == rest
  {
    assert forall i: nat :: i < |stretch + rest| ==> text[from + i] == (stretch + rest)[i];
    assert text[from..end] == text[from..][..|stretch|] && text[end..] == text[from..][|stretch|..];
  }

  lemma LeftIs(text: string, a: nat, left: string, rest: string)
    requires a <= |text| && AllSpace(text[..a]) && (a < |text| ==> !IsSpace(text[a]))
    requires text == left + rest && AllSpace(left) && rest != "" && !IsSpace(rest[0])
    ensures left == text[..a] && rest == text[a..]
  {
    assert text[0..] == text && text[..a] == text[0..a];
    assert forall i :: 0 <= i < a ==> text[i] in text[..a];
    assert forall i: nat :: i < |left| ==> left[i] in left;
    SameStretch(text, 0, a, left, rest, IsSpace);
  }

  lemma DigitsAre(text: string, b: nat, c: nat, digits: string, right: string)
    requires b <= c <= |text| && (forall i :: b <= i < c ==> IsDigit(text[i])) && (c < |text| ==> !IsDigit(text[c]))
    requires text[b..] == digits + right && AllDigits(digits) && AllSpace(right)
    ensures digits == text[b..c] && right == text[c..]
  {
    assert right != "" ==> right[0] in right;
    SameStretch(text, b, c, digits, right, IsDigit);
  }

  lemma FirstOfRest(sign: string, digits: string, right: string)
    requires IsSign(sign) && AllDigits(digits) && digits != ""
    ensures var rest := sign + digits + right;
      rest != "" && !IsSpace(rest[0]) && (sign != "" <==> rest[0] == '-' || rest[0] == '+')
    ensures (sign + digits + right)[..|sign|] == sign && (sign + digits + right)[|sign|..] == digits + right
  {
  }

  /** Any division of the text into blanks, sign, digits and blanks is the same. */
  lemma OneDivision(text: string, a: nat, b: nat, c: nat, left: string, sign: string, digits: string, right: string)
    requires Divided(text, a, b, c) && Reads(text, left, sign, digits, right)
    ensures left == text[..a] && sign == text[a..b] && digits == text[b..c] && right == text[c..]
  {
    var rest := sign + digits + right;
    FirstOfRest(sign, digits, right);
    assert text == left + rest;
    LeftIs(text, a, left, rest);
    assert text[a] == text[a..][0];
    assert |sign| == b - a;
    assert text[b..] == text[a..][b - a..];
    assert text[a..b] == text[a..][..b - a];
    DigitsAre(text, b, c, digits, right);
  }

  /** What the pieces found in the text say about the integer it denotes. */
  lemma DescribesDenoted(text: string, a: nat, b: nat, start: nat, c: nat, v: int)
    requires Divided(text, a, b, c) && b <= start <= c && b < c
    requires (forall i :: b <= i < start ==> text[i] == '0') && (start < |text| ==> text[start] != '0')
    requires Denotes(text, v)
    ensures var nonzero := if start < c then 1 else 0;
      Textint(if a < |text| && text[a] == '-' then -nonzero else nonzero, start, c).Describes(text, v)
  {
    var left, sign, digits, right :| Reads(text, left, sign, digits, right) && v == Value(sign, digits);
    OneDivision(text, a, b, c, left, sign, digits, right);
    ZerosDropped(text, b, start, c);
    if b == a + 1 { assert text[a..b] == [text[a]]; }
  }

  lemma ZerosDropped(text: string, b: nat, start: nat, c: nat)
    requires b <= start <= c <= |text| && b < c && (forall i :: b <= i < c ==> IsDigit(text[i]))
    requires (forall i :: b <= i < start ==> text[i] == '0') && (start < c ==> text[start] != '0')
    ensures IsSignificant(text[start..c]) && AllDigits(text[b..c]) && NatValue(text[b..c]) == NatValue(text[start..c])
    ensures NatValue(text[start..c]) > 0 <==> start < c
  {
    var zeros, rest := text[b..start], text[start..c];
    assert forall i: nat :: i < |zeros| ==> zeros[i] == text[b + i];
    assert forall i: nat :: i < |rest| ==> rest[i] == text[start + i];
    assert text[b..c] == zeros + rest;
    LeadingZeros(zeros, rest);
    SignificantIsPositive(rest);
  }

  lemma SignificantIsPositive(a: string)
    requires IsSignificant(a)
    ensures NatValue(a) > 0 <==> a != ""
  {
    if a != "" {
      FirstDigit(a);
      AtLeastOnce((a[0] - '0') as nat, Pow10(|a| - 1));
    }
  }

  lemma CutInFour(text: string, a: nat, b: nat, c: nat)
    requires a <= b <= c <= |text|
    ensures text == text[..a] + text[a..b] + text[b..c] + text[c..]
  {
    assert text[..b] == text[..a] + text[a..b];
    assert text[..c] == text[..b] + text[b..c];
  }

  lemma ReadsDivided(text: string, a: nat, b: nat, c: nat)
    requires Divided(text, a, b, c) && b < c && AllSpace(text[c..])
    ensures Reads(text, text[..a], text[a..b], text[b..c], text[c..])
  {
    CutInFour(text, a, b, c);
    assert text[b..c] != "" && AllDigits(text[b..c]);
    if b == a + 1 { assert text[a..b] == [text[a]]; } else { assert text[a..b] == ""; }
  }

  /** parse_textint. It is fatal exactly when the text is not a numeral. */
  method ParseTextint(number: string) returns (r: Option<Textint>)
    ensures r.Some? <==> IsNumeral(number)
    ensures r.Some? ==> forall v :: Denotes(number, v) ==> r.value.Describes(number, v)
  {
    var p := SkipSpaces(number, 0);
    ghost var a := p;
    assert number[0..p] == number[..p];
    if p == |number| {
      NotEmpty(number);
      return None;
    }
    var negative := number[p] == '-';
    if negative || number[p] == '+' { p := p + 1; }
    var afterSign := p;
    p := SkipZeros(number, p);
    var start := p;
    p := SkipDigits(number, p);
    assert Divided(number, a, afterSign, p);
    var nonzero := if start != p then 1 else 0;
    var rest := SkipSpaces(number, p);
    if p == afterSign || rest < |number| {
      NotNumeral(number, a, afterSign, p, rest);
      return None;
    }
    assert number[p..rest] == number[p..];
    ReadsDivided(number, a, afterSign, p);
    r := Some(Textint(if negative then -nonzero else nonzero, start, p));
    forall v | Denotes(number, v) ensures r.value.Describes(number, v) {
      DescribesDenoted(number, a, afterSign, start, p, v);
    }
  }

  lemma NotEmpty(text: string)
    requires AllSpace(text)
    ensures !IsNumeral(text)
  {
    if left, sign, digits, right :| Reads(text, left, sign, digits, right) {
      DigitInside(text, left, sign, digits, right);
      assert false;
    }
  }

  lemma DigitInside(text: string, left: string, sign: string, digits: string, right: string)
    requires Reads(text, left, sign, digits, right)
    ensures !AllSpace(text)
  {
    var i := |left| + |sign|;
    assert text[i] == digits[0];
    assert text[i] in text && !IsSpace(text[i]);
  }

  lemma NotNumeral(text: string, a: nat, b: nat, c: nat, rest: nat)
    requires Divided(text, a, b, c) && c <= rest <= |text|
    requires b == c || (rest < |text| && !IsSpace(text[rest]))
    ensures !IsNumeral(text)
  {
    if left, sign, digits, right :| Reads(text, left, sign, digits, right) {
      OneDivision(text, a, b, c, left, sign, digits, right);
      assert false;
    }
  }

  // ----- func_intcmp -----

  /** memcmp of stretches of the same length. */
  method CompareDigits(a: string, b: string) returns (cmp: int)
    requires AllDigits(a) && AllDigits(b) && |a| == |b|
    ensures cmp < 0 <==> NatValue(a) < NatValue(b)
    ensures cmp > 0 <==> NatValue(a) > NatValue(b)
  {
    var i := 0;
    while i < |a| && a[i] == b[i]
      invariant i <= |a| && a[..i] == b[..i]
    {
      i := i + 1;
    }
    if i == |a| {
      assert a[..i] == a && b[..i] == b;
      return 0;
    }
    cmp := a[i] as int - b[i] as int;
    if cmp < 0 { FirstDifference(a, b, i); } else { FirstDifference(b, a, i); }
  }

  /** The sign, then the length, then the digits decide. */
  method Compare(left: string, l: Textint, right: string, r: Textint, ghost v: int, ghost w: int) returns (cmp: int)
    requires l.Describes(left, v) && r.Describes(right, w)
    ensures cmp < 0 <==> v < w
    ensures cmp > 0 <==> v > w
  {
    var ldigits, rdigits := left[l.start..l.end], right[r.start..r.end];
    SignificantIsPositive(ldigits);
    SignificantIsPositive(rdigits);
    cmp := l.sign - r.sign;
    if cmp == 0 {
      cmp := if |ldigits| > |rdigits| then 1 else if |ldigits| < |rdigits| then -1 else 0;
      if cmp == 0 {
        cmp := CompareDigits(ldigits, rdigits);
      } else if cmp < 0 {
        LongerIsLarger(ldigits, rdigits);
      } else {
        LongerIsLarger(rdigits, ldigits);
      }
      if l.sign < 0 { cmp := -cmp; }
    }
  }

  /** What the function does: it is fatal, adds nothing, prints a number, or expands a part. */
  datatype Outcome = Fatal | Nothing | Print(text: string) | Expand(part: nat)

  /** The branch the documentation selects of n parts given: for less, equal, and greater,
      where the part for equal serves for greater too unless there is one. */
  function Branch(v: int, w: int, n: nat): Outcome {
    if v < w then if n > 0 then Expand(0) else Nothing
    else if v == w then if n > 1 then Expand(1) else Nothing
    else if n > 2 then Expand(2) else if n > 1 then Expand(1) else Nothing
  }

  /** Only one canonical numeral denotes a number. */
  lemma CanonicalOnce(a: string, b: string, v: int)
    requires IsCanonical(a) && IsCanonical(b) && Denotes(a, v) && Denotes(b, v)
    ensures a == b
  {
    var s, x := CanonicalParts(a, v);
    var t, y := CanonicalParts(b, v);
    if x == "0" || y == "0" {
      ZeroIsZero();
    } else {
      SignificantOnce(x, y);
    }
  }

  lemma ZeroIsZero()
    ensures AllDigits("0") && NatValue("0") == 0
  {
  }

  /** A canonical numeral is a sign and significant digits, or the digit zero. */
  lemma CanonicalParts(text: string, v: int) returns (sign: string, digits: string)
    requires IsCanonical(text) && Denotes(text, v)
    ensures text == sign + digits && (sign == "" || sign == "-") && AllDigits(digits) && v == Value(sign, digits)
    ensures (digits == "0" && sign == "") || (IsSignificant(digits) && NatValue(digits) > 0)
  {
    if text == "0" {
      ZeroIsZero();
      sign, digits := "", "0";
    } else if text[0] == '-' {
      sign, digits := "-", text[1..];
      SignificantIsPositive(digits);
    } else {
      sign, digits := "", text;
      SignificantIsPositive(digits);
    }
    assert text == sign + digits;
    assert text == "" + sign + digits + "";
    assert Reads(text, "", sign, digits, "");
    DenotesOnce(text, v, Value(sign, digits));
  }

  /** A numeral without blanks, plus sign or leading zeros, and no negative zero. */
  predicate IsCanonical(text: string) {
    text == "0" || (text != "" && IsSignificant(text))
    || (|text| > 1 && text[0] == '-' && IsSignificant(text[1..]))
  }

  /** func_intcmp on expanded arguments. */
  method IntCmp(left: string, right: string, n: nat, ghost v: int, ghost w: int) returns (o: Outcome)
    requires IsNumeral(left) ==> Denotes(left, v)
    requires IsNumeral(right) ==> Denotes(right, w)
    ensures o == Fatal <==> !IsNumeral(left) || !IsNumeral(right)
    ensures o != Fatal && (n > 0 || v != w) ==> o == Branch(v, w, n)
    ensures o != Fatal && n == 0 && v == w ==> o.Print? && IsCanonical(o.text) && Denotes(o.text, v)
  {
    var l := ParseTextint(left);
    if l == None { return Fatal; }
    var r := ParseTextint(right);
    if r == None { return Fatal; }
    var cmp := Compare(left, l.value, right, r.value, v, w);
    if n == 0 && cmp == 0 {
      var text := PrintNumber(left, l.value, v);
      return Print(text);
    }
    var part: nat := 0;
    if part < n && cmp >= 0 {
      part := part + 1;
      if cmp > 0 && part < n && part + 1 < n { part := part + 1; }
    }
    o := if part < n then Expand(part) else Nothing;
  }

  /** A minus sign if negative, and the significant digits with the zero before them if there
      are none. */
  method PrintNumber(text: string, t: Textint, ghost v: int) returns (o: string)
    requires t.Describes(text, v)
    ensures IsCanonical(o) && Denotes(o, v)
  {
    o := "";
    if t.sign < 0 { o := o + "-"; }
    var zero := if t.sign == 0 then 1 else 0;
    var digits := text[t.start - zero..t.end];
    o := o + digits;
    ZeroIsZero();
    if zero == 1 { assert digits == "0"; } else { assert digits == text[t.start..t.end]; }
    assert "" + digits == digits && "" + "-" == "-";
    PrintedIsCanonical(if t.sign < 0 then "-" else "", digits);
  }

  lemma PrintedIsCanonical(sign: string, digits: string)
    requires (sign == "" && digits == "0") || ((sign == "" || sign == "-") && digits != "" && IsSignificant(digits))
    ensures AllDigits(digits) && IsCanonical(sign + digits) && Denotes(sign + digits, Value(sign, digits))
  {
    var text := sign + digits;
    if sign == "-" { assert text[1..] == digits; } else { assert text == digits; }
    assert text == "" + sign + digits + "";
    assert Reads(text, "", sign, digits, "");
  }

  // ----- one text, one integer -----

  lemma ReadsIsDivided(text: string, left: string, sign: string, digits: string, right: string)
    requires Reads(text, left, sign, digits, right)
    ensures Divided(text, |left|, |left| + |sign|, |left| + |sign| + |digits|)
  {
    var b := |left| + |sign|;
    FirstOfRest(sign, digits, right);
    assert text == left + (sign + digits + right);
    assert text[..|left|] == left;
    assert text[|left|] == (sign + digits + right)[0];
    assert forall i :: b <= i < b + |digits| ==> text[i] == digits[i - b];
    if right != "" {
      assert text[b + |digits|] == right[0];
      assert right[0] in right;
    }
  }

  /** A text denotes at most one integer. */
  lemma DenotesOnce(text: string, v: int, w: int)
    requires Denotes(text, v) && Denotes(text, w)
    ensures v == w
  {
    var left, sign, digits, right :| Reads(text, left, sign, digits, right) && v == Value(sign, digits);
    var left', sign', digits', right' :| Reads(text, left', sign', digits', right') && w == Value(sign', digits');
    ReadsIsDivided(text, left, sign, digits, right);
    OneDivision(text, |left|, |left| + |sign|, |left| + |sign| + |digits|, left, sign, digits, right);
    OneDivision(text, |left|, |left| + |sign|, |left| + |sign| + |digits|, left', sign', digits', right');
  }

  /** Significant digits are determined by the number. */
  lemma SignificantOnce(a: string, b: string)
    requires IsSignificant(a) && IsSignificant(b) && NatValue(a) == NatValue(b)
    ensures a == b
  {
    if |a| < |b| {
      LongerIsLarger(a, b);
    } else if |b| < |a| {
      LongerIsLarger(b, a);
    } else if a != b {
      var i := FirstDifferent(a, b, 0);
      if a[i] < b[i] { FirstDifference(a, b, i); } else { FirstDifference(b, a, i); }
    }
  }

  lemma FirstDifferent(a: string, b: string, from: nat) returns (i: nat)
    requires |a| == |b| && a != b && from <= |a| && a[..from] == b[..from]
    ensures i < |a| && a[..i] == b[..i] && a[i] != b[i]
    decreases |a| - from
  {
    if from == |a| {
      assert false;
    } else if a[from] != b[from] {
      i := from;
    } else {
      assert a[..from + 1] == a[..from] + [a[from]] && b[..from + 1] == b[..from] + [b[from]];
      i := FirstDifferent(a, b, from + 1);
    }
  }

  // ----- some numbers -----

  /** A sign and digits with nothing around them. */
  lemma DigitsDenote(sign: string, digits: string, v: nat)
    requires IsSign(sign) && AllDigits(digits) && digits != "" && NatValue(digits) == v
    ensures Denotes(sign + digits, if sign == "-" then -(v as int) else v) && IsNumeral(sign + digits)
  {
    var text := sign + digits;
    assert text == "" + sign + digits + "";
    assert Reads(text, "", sign, digits, "");
  }

  lemma TwoDigits(a: char, b: char)
    requires IsDigit(a) && IsDigit(b)
    ensures AllDigits([a, b]) && NatValue([a, b]) == 10 * (a - '0') as nat + (b - '0') as nat
    ensures AllDigits([a]) && NatValue([a]) == (a - '0') as nat
  {
    assert [a][..0] == "" && NatValue("") == 0;
    assert NatValue([a]) == 10 * NatValue([a][..0]) + (a - '0') as nat;
    assert [a, b][..1] == [a];
    assert NatValue([a, b]) == 10 * NatValue([a, b][..1]) + (b - '0') as nat;
  }

  /** Ten is more than nine, and minus ten less: the parts for greater, for equal, and for less.
      Without a part for greater the one for equal serves. */
  method CompareTenAndNine() returns (greater: Outcome, equal: Outcome, less: Outcome, served: Outcome)
    ensures greater == Expand(2) && equal == Expand(1) && less == Expand(0) && served == Expand(1)
  {
    TwoDigits('1', '0');
    TwoDigits('9', '9');
    DigitsDenote("+", "10", 10);
    DigitsDenote("", "9", 9);
    DigitsDenote("-", "10", 10);
    assert "" + "9" == "9";
    greater := IntCmp("+" + "10", "9", 3, 10, 9);
    equal := IntCmp("9", "9", 3, 9, 9);
    less := IntCmp("-" + "10", "9", 3, -10, 9);
    served := IntCmp("+" + "10", "9", 2, 10, 9);
  }
}
