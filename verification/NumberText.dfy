/** Texts that read as numbers. */
module NumberText {

  predicate IsDigit(c: char) {
    '0' <= c <= '9'
  }

  /** The four separator characters that only Python counts as whitespace. */
  predicate IsSeparator(c: char) {
    '\U{001C}' <= c <= '\U{001F}'
  }

  /** ASCII whitespace that Python's number constructors strip. */
  predicate IsStripped(c: char) {
    c == ' ' || '\t' <= c <= '\r' || IsSeparator(c)
  }

  function StripLeft(s: string): string {
    if s != "" && IsStripped(s[0]) then StripLeft(s[1..]) else s
  }

  function StripRight(s: string): string {
    if s != "" && IsStripped(s[|s| - 1]) then StripRight(s[..|s| - 1]) else s
  }

  function Unsigned(s: string): string {
    if s != "" && (s[0] == '+' || s[0] == '-') then s[1..] else s
  }

  /** Digits, with single underscores allowed between them. */
  predicate DigitPart(s: string) {
    && s != "" && IsDigit(s[0]) && IsDigit(s[|s| - 1])
    && forall i | 0 <= i < |s| :: IsDigit(s[i]) || (s[i] == '_' && 0 < i && IsDigit(s[i - 1]))
  }

  function DigitsValue(s: string): int {
    if s == "" then 0
    else
      var front, last := s[..|s| - 1], s[|s| - 1];
      if IsDigit(last) then 10 * DigitsValue(front) + (last - '0') as int else DigitsValue(front)
  }

  function UntilPoint(s: string): (r: string)
    ensures r <= s
  {
    if s == "" || s[0] == '.' then "" else [s[0]] + UntilPoint(s[1..])
  }

  predicate HasPoint(s: string) {
    '.' in s
  }

  /** Whether the validator takes a text for an integer: after a point it allows zeros only. */
  predicate IsIntegerText(text: string) {
    var s := StripRight(StripLeft(text));
    var whole := UntilPoint(s);
    && (forall c | c in text :: !IsSeparator(c))
    && DigitPart(Unsigned(whole))
    && forall i | |whole| < i < |s| :: s[i] == '0'
  }

  /** The integer such a text stands for. */
  function IntegerValue(text: string): int {
    var whole := UntilPoint(StripRight(StripLeft(text)));
    if whole != "" && whole[0] == '-' then -DigitsValue(Unsigned(whole)) else DigitsValue(Unsigned(whole))
  }

  // ------------------------------------------------------- the texts, spelled out

  predicate AllDigits(s: string) {
    s != "" && forall i | 0 <= i < |s| :: IsDigit(s[i])
  }

  /** Runs of digits, joined by single underscores. */
  predicate DigitGroups(s: string)
    decreases |s|
  {
    AllDigits(s) || exists i | 0 <= i < |s| && s[i] == '_' :: AllDigits(s[..i]) && DigitGroups(s[i + 1..])
  }

  lemma {:induction false} DigitPartIff(s: string)
    ensures DigitPart(s) <==> DigitGroups(s)
    decreases |s|
  {
    hide DigitPart, AllDigits;
    if AllDigits(s) {
      AllDigitsPart(s);
    } else if DigitPart(s) {
      var i := FirstUnderscore(s);
      DigitPartIff(s[i + 1..]);
    } else if DigitGroups(s) {
      var i :| 0 <= i < |s| && s[i] == '_' && AllDigits(s[..i]) && DigitGroups(s[i + 1..]);
      DigitPartIff(s[i + 1..]);
      assert s == s[..i] + "_" + s[i + 1..];
      JoinedGroups(s[..i], s[i + 1..]);
    }
  }

  lemma AllDigitsPart(s: string)
    requires AllDigits(s)
    ensures DigitPart(s)
  {
  }

  lemma JoinedGroups(a: string, b: string)
    requires AllDigits(a) && DigitPart(b)
    ensures DigitPart(a + "_" + b)
  {
    var s := a + "_" + b;
    forall i | 0 <= i < |s|
      ensures IsDigit(s[i]) || (s[i] == '_' && 0 < i && IsDigit(s[i - 1]))
    {
      if i > |a| {
        assert s[i] == b[i - |a| - 1];
        assert i > |a| + 1 ==> s[i - 1] == b[i - |a| - 2];
      }
    }
  }

  lemma FirstUnderscore(s: string) returns (i: nat)
    requires DigitPart(s) && !AllDigits(s)
    ensures i < |s| && s[i] == '_' && AllDigits(s[..i]) && DigitPart(s[i + 1..])
  {
    i := 0;
    while s[i] != '_'
      invariant i < |s| && forall k | 0 <= k < i :: s[k] != '_'
      decreases |s| - i
    {
      i := i + 1;
    }
    assert i + 1 < |s| && s[i + 1..][0] == s[i + 1];
  }

  /** The digits without the underscores between them. */
  function Plain(s: string): string {
    if s == "" then "" else Plain(s[..|s| - 1]) + if s[|s| - 1] == '_' then "" else [s[|s| - 1]]
  }

  function Digit(d: nat): char
    requires d < 10
  {
    "0123456789"[d]
  }

  /** The decimal digits of a number. */
  function Decimal(n: nat): (s: string)
    ensures s != ""
  {
    if n < 10 then [Digit(n)] else Decimal(n / 10) + [Digit(n % 10)]
  }

  predicate AllZeros(s: string) {
    forall i | 0 <= i < |s| :: s[i] == '0'
  }

  /** Digits in groups that write the number, perhaps after zeros. */
  ghost predicate Writes(digits: string, n: int) {
    0 <= n && DigitGroups(digits) && exists zeros :: AllZeros(zeros) && Plain(digits) == zeros + Decimal(n)
  }

  lemma {:induction false} PlainValue(s: string)
    ensures DigitsValue(Plain(s)) == DigitsValue(s)
  {
    if s != "" {
      var front, last := s[..|s| - 1], s[|s| - 1];
      PlainValue(front);
      if last != '_' {
        assert Plain(s)[..|Plain(s)| - 1] == Plain(front);
      } else {
        assert Plain(s) == Plain(front);
      }
    }
  }

  lemma {:induction false} PlainIsDigits(s: string)
    requires forall i | 0 <= i < |s| :: IsDigit(s[i]) || s[i] == '_'
    ensures forall i | 0 <= i < |Plain(s)| :: IsDigit(Plain(s)[i])
    ensures s != "" && IsDigit(s[|s| - 1]) ==> Plain(s) != ""
  {
    if s != "" {
      PlainIsDigits(s[..|s| - 1]);
    }
  }

  /** Zeros in front of the digits of a number do not change its value. */
  lemma {:induction false} DecimalHasValue(zeros: string, n: nat)
    requires AllZeros(zeros)
    ensures DigitsValue(zeros + Decimal(n)) == n
  {
    if n < 10 {
      ZerosAreNothing(zeros);
      NextDigit(zeros, n);
    } else {
      DecimalHasValue(zeros, n / 10);
      NextDigit(zeros + Decimal(n / 10), n % 10);
      assert zeros + Decimal(n) == zeros + Decimal(n / 10) + [Digit(n % 10)];
    }
  }

  lemma NextDigit(s: string, d: nat)
    requires d < 10
    ensures DigitsValue(s + [Digit(d)]) == 10 * DigitsValue(s) + d
  {
    assert (s + [Digit(d)])[..|s|] == s;
  }

  lemma {:induction false} ZerosAreNothing(zeros: string)
    requires AllZeros(zeros)
    ensures DigitsValue(zeros) == 0
  {
    if zeros != "" {
      ZerosAreNothing(zeros[..|zeros| - 1]);
    }
  }

  /** Every run of digits is that of a number, perhaps after zeros. */
  lemma {:induction false} DigitsAreDecimal(s: string) returns (zeros: string, n: nat)
    requires AllDigits(s)
    ensures AllZeros(zeros) && s == zeros + Decimal(n)
  {
    hide Decimal;
    var front, d := s[..|s| - 1], (s[|s| - 1] - '0') as nat;
    assert s == front + [Digit(d)];
    assert Decimal(d) == [Digit(d)] by { OneDigit(d); }
    if front == "" {
      zeros, n := "", d;
    } else {
      zeros, n := DigitsAreDecimal(front);
      NextDecimal(zeros, n, d);
      if n == 0 {
        zeros, n := zeros + "0", d;
      } else {
        n := 10 * n + d;
      }
    }
  }

  lemma OneDigit(d: nat)
    requires d < 10
    ensures Decimal(d) == [Digit(d)]
  {
  }

  lemma NextDecimal(zeros: string, n: nat, d: nat)
    requires d < 10
    ensures zeros + Decimal(n) + [Digit(d)] ==
            if n == 0 then zeros + "0" + Decimal(d) else zeros + Decimal(10 * n + d)
  {
    if n > 0 {
      assert Decimal(10 * n + d) == Decimal(n) + [Digit(d)];
    }
  }

  lemma WritesIff(digits: string, n: int)
    ensures Writes(digits, n) <==> DigitPart(digits) && DigitsValue(digits) == n
  {
    hide Decimal, DigitsValue, DigitGroups;
    DigitPartIff(digits);
    PlainValue(digits);
    if Writes(digits, n) {
      var zeros :| AllZeros(zeros) && Plain(digits) == zeros + Decimal(n);
      DecimalHasValue(zeros, n);
    }
    if DigitPart(digits) && DigitsValue(digits) == n {
      DigitsValueIsNat(digits);
      PlainIsDigits(digits);
      var zeros, k := DigitsAreDecimal(Plain(digits));
      DecimalHasValue(zeros, k);
    }
  }

  // ------------------------------------------------------------------ whitespace

  lemma {:induction false} StripRightParts(s: string) returns (after: string)
    ensures s == StripRight(s) + after && forall c | c in after :: IsStripped(c)
  {
    after := "";
    if s != "" && IsStripped(s[|s| - 1]) {
      after := StripRightParts(s[..|s| - 1]);
      assert s == s[..|s| - 1] + [s[|s| - 1]];
      after := after + [s[|s| - 1]];
    }
  }

  lemma {:induction false} StripLeftParts(s: string) returns (before: string)
    ensures s == before + StripLeft(s) && forall c | c in before :: IsStripped(c)
  {
    before := "";
    if s != "" && IsStripped(s[0]) {
      before := StripLeftParts(s[1..]);
      assert s == [s[0]] + s[1..];
      before := [s[0]] + before;
    }
  }

  /** A text is what is left of it when it is stripped, with whitespace around. */
  lemma StripParts(text: string) returns (before: string, after: string)
    ensures text == before + StripRight(StripLeft(text)) + after
    ensures forall c | c in before + after :: IsStripped(c)
  {
    before := StripLeftParts(text);
    after := StripRightParts(StripLeft(text));
  }

  lemma {:induction false} StripLeftOff(before: string, s: string)
    requires (forall c | c in before :: IsStripped(c)) && (s == "" || !IsStripped(s[0]))
    ensures StripLeft(before + s) == s
  {
    if before != "" {
      assert (before + s)[1..] == before[1..] + s;
      StripLeftOff(before[1..], s);
    } else {
      assert before + s == s;
    }
  }

  lemma {:induction false} StripRightOff(s: string, after: string)
    requires (forall c | c in after :: IsStripped(c)) && (s == "" || !IsStripped(s[|s| - 1]))
    ensures StripRight(s + after) == s
  {
    if after != "" {
      var n := |after| - 1;
      assert (s + after)[..|s + after| - 1] == s + after[..n];
      StripRightOff(s, after[..n]);
    } else {
      assert s + after == s;
    }
  }

  /** Whitespace around a text is stripped. */
  lemma StripOff(before: string, core: string, after: string)
    requires forall c | c in before + after :: IsStripped(c)
    requires core != "" && !IsStripped(core[0]) && !IsStripped(core[|core| - 1])
    ensures StripRight(StripLeft(before + core + after)) == core
  {
    assert forall c | c in before || c in after :: c in before + after;
    assert before + core + after == before + (core + after);
    StripLeftOff(before, core + after);
    StripRightOff(core, after);
  }

  // --------------------------------------------------------------- integer texts

  /** Whitespace, a sign, digits, perhaps a point with zeros, whitespace. */
  ghost predicate IntegerShape(text: string, n: int, before: string, sign: string, digits: string, tail: string,
                               after: string)
  {
    && text == before + (sign + digits + tail) + after
    && (forall c | c in before + after :: c in {' ', '\t', '\n', '\U{000B}', '\U{000C}', '\r'})
    && sign in {"", "+", "-"}
    && Writes(digits, if sign == "-" then 0 - n else n)
    && (tail == "" || exists zeros :: AllZeros(zeros) && tail == "." + zeros)
  }

  lemma {:induction false} UntilPointParts(s: string)
    ensures '.' !in UntilPoint(s)
    ensures s == UntilPoint(s) || s == UntilPoint(s) + "." + s[|UntilPoint(s)| + 1..]
  {
    if s != "" && s[0] != '.' {
      UntilPointParts(s[1..]);
      assert s == [s[0]] + s[1..];
    }
  }

  lemma {:induction false} UntilPointOf(whole: string, tail: string)
    requires '.' !in whole && (tail == "" || tail[0] == '.')
    ensures UntilPoint(whole + tail) == whole
  {
    if whole != "" {
      assert (whole + tail)[1..] == whole[1..] + tail;
      UntilPointOf(whole[1..], tail);
    } else {
      assert whole + tail == tail;
    }
  }

  lemma UnsignedParts(s: string) returns (sign: string)
    ensures sign in {"", "+", "-"} && s == sign + Unsigned(s) && (sign == "-" <==> s != "" && s[0] == '-')
  {
    sign := if s != "" && (s[0] == '+' || s[0] == '-') then [s[0]] else "";
  }

  lemma UnsignedOf(sign: string, body: string)
    requires sign in {"", "+", "-"} && body != "" && body[0] != '+' && body[0] != '-'
    ensures Unsigned(sign + body) == body && (sign == "-" <==> (sign + body)[0] == '-')
  {
    assert sign == "" ==> sign + body == body;
    assert sign != "" ==> (sign + body)[1..] == body;
  }

  lemma ShapeOf(text: string) returns (before: string, sign: string, digits: string, tail: string, after: string)
    requires IsIntegerText(text)
    ensures IntegerShape(text, IntegerValue(text), before, sign, digits, tail, after)
  {
    hide DigitPart, DigitsValue, Unsigned, StripLeft, StripRight, UntilPoint, Writes;
    before, after := StripParts(text);
    var s := StripRight(StripLeft(text));
    var whole := UntilPoint(s);
    UntilPointParts(s);
    sign := UnsignedParts(whole);
    digits, tail := Unsigned(whole), s[|whole|..];
    WritesIff(digits, DigitsValue(digits));
    assert sign + digits + tail == s;
    assert forall c | c in before + after :: c in text;
    if tail != "" {
      var zeros := s[|whole| + 1..];
      assert AllZeros(zeros) && tail == "." + zeros;
    }
  }

  lemma {:induction false} DigitsValueIsNat(s: string)
    ensures DigitsValue(s) >= 0
  {
    if s != "" {
      DigitsValueIsNat(s[..|s| - 1]);
    }
  }

  lemma ShapeIsRead(text: string, n: int, before: string, sign: string, digits: string, tail: string, after: string)
    requires IntegerShape(text, n, before, sign, digits, tail, after)
    ensures IsIntegerText(text) && IntegerValue(text) == n
  {
    hide DigitsValue, Unsigned, StripLeft, StripRight, UntilPoint, Writes, DigitPart;
    WritesIff(digits, if sign == "-" then 0 - n else n);
    DigitPartEnds(digits);
    var whole := sign + digits;
    var s := whole + tail;
    assert forall c | c in s :: c in sign || c in digits || c in tail;
    assert forall c | c in text :: c in before + after || c in s;
    StripOff(before, s, after);
    UnsignedOf(sign, digits);
    UntilPointOf(whole, tail);
  }

  lemma DigitPartEnds(s: string)
    requires DigitPart(s)
    ensures s != "" && IsDigit(s[0]) && IsDigit(s[|s| - 1]) && forall c | c in s :: IsDigit(c) || c == '_'
  {
  }

  /** The texts accepted as integers and what they stand for, exactly. */
  lemma IntegerTextIff(text: string, n: int)
    ensures IsIntegerText(text) && IntegerValue(text) == n <==>
            exists before, sign, digits, tail, after :: IntegerShape(text, n, before, sign, digits, tail, after)
  {
    hide IsIntegerText, IntegerValue, IntegerShape;
    if IsIntegerText(text) && IntegerValue(text) == n {
      var before, sign, digits, tail, after := ShapeOf(text);
    }
    if before, sign, digits, tail, after :| IntegerShape(text, n, before, sign, digits, tail, after) {
      ShapeIsRead(text, n, before, sign, digits, tail, after);
    }
  }
}
