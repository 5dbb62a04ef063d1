/** Printing and parsing numbers, on the terminal, in graphics mode and in strings. */
module Numbers {
  import W = Words
  import T = Terminal
  import F = Framebuffer

  const INT_MAX := 0x7FFF_FFFF

  datatype Option<T> = None | Some(value: T)

  // ---- decimal ----

  function Digit(d: nat): char
    requires d < 10
  {
    (48 + d) as char
  }

  // The digits kprint_d_helper prints.
  function Digits(value: nat): seq<char> {
    if value == 0 then [] else Digits(value / 10) + [Digit(value % 10)]
  }

  function Decimal(value: nat): seq<char> {
    if value == 0 then ['0'] else Digits(value)
  }

  // The number a string of digits stands for.
  function Value(text: seq<char>): nat {
    if text == [] then 0
    else
      var c := text[|text| - 1];
      10 * Value(text[..|text| - 1]) + if IsDigit(c) then DigitValue(c) else 0
  }

  predicate IsDigit(c: char) {
    '0' <= c <= '9'
  }

  function DigitValue(c: char): nat
    requires IsDigit(c)
  {
    c as int - 48
  }

  lemma {:induction false} DigitsValue(value: nat)
    ensures Value(Digits(value)) == value
    ensures forall i: nat :: i < |Digits(value)| ==> IsDigit(Digits(value)[i])
    ensures value > 0 ==> Digits(value) != [] && Digits(value)[0] != '0'
  {
    if value > 0 {
      DigitsValue(value / 10);
      assert Digits(value)[..|Digits(value)| - 1] == Digits(value / 10);
    }
  }

  /** kprint_d prints a numeral without leading zeros that stands for its argument. */
  lemma DecimalIsNumeral(value: nat)
    ensures Value(Decimal(value)) == value
    ensures forall i: nat :: i < |Decimal(value)| ==> IsDigit(Decimal(value)[i])
    ensures |Decimal(value)| > 1 ==> Decimal(value)[0] != '0'
  {
    DigitsValue(value);
    if value == 0 {
      assert ['0'][..0] == [];
      assert Value(['0']) == 10 * Value([]) + 0;
    }
  }

  lemma {:induction false} DigitsBound(value: nat, k: nat)
    requires value < W.Pow(10, k)
    ensures |Digits(value)| <= k
  {
    if value > 0 {
      DigitsBound(value / 10, k - 1);
    }
  }

  // ---- atoi ----

  // The loop of atoi from text on; None where res*10+c leaves the range of an int.
  function AtoiOn(res: int, text: seq<char>): Option<int>
    decreases text
  {
    if text == [] || !IsDigit(text[0]) then Some(res)
    else if res * 10 + text[0] as int > INT_MAX then None
    else AtoiOn(res * 10 + DigitValue(text[0]), text[1..])
  }

  function Atoi(text: seq<char>): Option<int> {
    AtoiOn(0, text)
  }

  lemma {:induction false} AtoiAppend(res: int, text: seq<char>, c: char)
    requires IsDigit(c) && forall i: nat :: i < |text| ==> IsDigit(text[i])
    ensures AtoiOn(res, text + [c]) ==
      match AtoiOn(res, text)
      case None => None
      case Some(v) => if v * 10 + c as int > INT_MAX then None else Some(v * 10 + DigitValue(c))
    decreases text
  {
    if text == [] {
      assert ([] + [c])[1..] == [];
    } else {
      assert (text + [c])[0] == text[0] && (text + [c])[1..] == text[1..] + [c];
      if res * 10 + text[0] as int <= INT_MAX {
        AtoiAppend(res * 10 + DigitValue(text[0]), text[1..], c);
      }
    }
  }

  /** atoi reads back what kprint_d prints exactly up to 2147483599: beyond it the sum
      overflows before '0' is subtracted. */
  lemma {:induction false} AtoiReadsBack(value: nat)
    ensures Atoi(Digits(value)) == if value + 48 <= INT_MAX then Some(value) else None
    ensures Atoi(Decimal(value)) == if value <= 2147483599 then Some(value) else None
  {
    if value > 0 {
      AtoiReadsBack(value / 10);
      DigitsValue(value / 10);
      AtoiAppend(0, Digits(value / 10), Digit(value % 10));
    } else {
      assert ['0'][1..] == [];
    }
  }

  // The sum that overflows is never less than the one before.
  lemma {:induction false} AtoiValue(text: seq<char>)
    requires forall i: nat :: i < |text| ==> IsDigit(text[i])
    ensures Atoi(text) == if Value(text) + 48 <= INT_MAX then Some(Value(text)) else None
    decreases |text|
  {
    if text != [] {
      var front, c := text[..|text| - 1], text[|text| - 1];
      assert front + [c] == text;
      AtoiValue(front);
      AtoiAppend(0, front, c);
    }
  }

  lemma {:induction false} AtoiOnStops(res: int, text: seq<char>, n: nat)
    requires n <= |text| && (n < |text| ==> !IsDigit(text[n])) && forall i: nat :: i < n ==> IsDigit(text[i])
    ensures AtoiOn(res, text) == AtoiOn(res, text[..n])
    decreases n
  {
    if n > 0 {
      assert text[..n][1..] == text[1..][..n - 1];
      if res * 10 + text[0] as int <= INT_MAX {
        AtoiOnStops(res * 10 + DigitValue(text[0]), text[1..], n - 1);
      }
    }
  }

  /** atoi on any text returns the number its leading digits stand for, 0 without any, exactly
      when that is at most 2147483599. */
  lemma AtoiExactly(text: seq<char>, n: nat)
    requires n <= |text| && forall i: nat :: i < n ==> '0' <= text[i] <= '9'
    requires n < |text| ==> !('0' <= text[n] <= '9')
    ensures Atoi(text) == if Value(text[..n]) <= 2147483599 then Some(Value(text[..n])) else None
  {
    AtoiOnStops(0, text, n);
    AtoiValue(text[..n]);
  }

  // ---- the digits one by one ----

  lemma DigitChars(d: nat)
    requires d < 10
    ensures Digit(d) == "0123456789"[d]
  {
  }

  // The value without its last i digits.
  function Dropped(value: nat, base: nat, i: nat): nat
    requires base > 0
    decreases i
  {
    if i == 0 then value else Dropped(value / base, base, i - 1)
  }

  /** The decimal numeral, place by place from the right. */
  lemma {:induction false} DecimalPlace(value: nat, i: nat)
    requires i < |Decimal(value)|
    ensures Decimal(value)[|Decimal(value)| - 1 - i] == "0123456789"[Dropped(value, 10, i) % 10]
    decreases i
  {
    hide Decimal, Digit;
    DecimalStep(value);
    DigitChars(value % 10);
    if i > 0 {
      DecimalPlace(value / 10, i - 1);
    }
  }

  method ParseInt(text: seq<char>) returns (res: Option<int>)
    ensures res == Atoi(text)
  {
    var sum := 0;
    for i := 0 to |text|
      invariant AtoiOn(sum, text[i..]) == Atoi(text)
    {
      assert text[i..][1..] == text[i + 1..];
      if '0' <= text[i] <= '9' {
        if sum * 10 + text[i] as int > INT_MAX { return None; }
        sum := sum * 10 + text[i] as int - 48;
      } else {
        return Some(sum);
      }
    }
    return Some(sum);
  }

  // ---- hexadecimal ----

  function HexDigit(d: nat): char
    requires d < 16
  {
    if d < 10 then (48 + d) as char else (65 + (d - 10)) as char
  }

  // At least n digits, most significant first.
  function HexText(value: nat, n: nat): seq<char>
    decreases value + n
  {
    (if value < 16 && n <= 1 then [] else HexText(value / 16, Fewer(n))) + [HexDigit(value % 16)]
  }

  function HexLength(value: nat): nat {
    if value < 16 then 1 else 1 + HexLength(value / 16)
  }

  function HexValue(text: seq<char>): nat {
    if text == [] then 0 else 16 * HexValue(text[..|text| - 1]) + HexDigitValue(text[|text| - 1])
  }

  function HexDigitValue(c: char): nat {
    if IsDigit(c) then DigitValue(c)
    else if 'A' <= c <= 'F' then c as int - 55
    else if 'a' <= c <= 'f' then c as int - 87
    else 0
  }

  lemma HexDigitMeans(d: nat)
    requires d < 16
    ensures HexDigitValue(HexDigit(d)) == d
    ensures IsDigit(HexDigit(d)) || IsLetter(HexDigit(d))
  {
  }

  function Fewer(n: nat): nat {
    if n > 1 then n - 1 else 1
  }

  lemma {:induction false} HexTextMeans(value: nat, n: nat)
    ensures HexValue(HexText(value, n)) == value
    ensures |HexText(value, n)| == if n > HexLength(value) then n else HexLength(value)
    decreases value + n
  {
    hide HexDigit, HexDigitValue;
    var t := HexText(value, n);
    HexDigitMeans(value % 16);
    if value < 16 && n <= 1 {
      assert t[..0] == [];
      assert HexValue(t) == 16 * HexValue([]) + value;
    } else {
      HexTextMeans(value / 16, Fewer(n));
      assert t[..|t| - 1] == HexText(value / 16, Fewer(n));
    }
  }

  lemma {:induction false} HexLengthBound(value: nat, k: nat)
    requires k >= 1 && value < W.Pow(16, k)
    ensures HexLength(value) <= k
  {
    if value >= 16 {
      HexLengthBound(value / 16, k - 1);
    }
  }

  lemma HexDigitChars(d: nat)
    requires d < 16
    ensures HexDigit(d) == "0123456789ABCDEF"[d]
  {
  }

  /** The hexadecimal numeral of itoa_x, place by place. */
  lemma {:induction false} HexPlace(value: nat, n: nat, i: nat)
    requires i < |HexText(value, n)|
    ensures HexText(value, n)[|HexText(value, n)| - 1 - i] == "0123456789ABCDEF"[Dropped(value, 16, i) % 16]
    decreases i
  {
    hide HexDigit;
    HexDigitChars(value % 16);
    if i > 0 {
      HexPlace(value / 16, Fewer(n), i - 1);
    }
  }

  lemma HexFits(value: nat)
    requires value < W.TWO_64
    ensures HexLength(value) <= 16
  {
    assert W.Pow(16, 4) == 0x1_0000 && W.Pow(16, 8) == 0x1_0000_0000;
    assert W.Pow(16, 12) == 0x1_0000_0000_0000 && W.Pow(16, 16) == W.TWO_64;
    HexLengthBound(value, 16);
  }

  function Backwards(s: seq<char>): seq<char> {
    if s == [] then [] else Backwards(s[1..]) + [s[0]]
  }

  lemma {:induction false} BackwardsAt(s: seq<char>, i: nat)
    ensures |Backwards(s)| == |s|
    ensures i < |s| ==> Backwards(s)[i] == s[|s| - 1 - i]
  {
    if s != [] {
      BackwardsAt(s[1..], i);
    }
  }

  lemma {:induction false} BackwardsSnoc(s: seq<char>, c: char)
    ensures Backwards(s + [c]) == [c] + Backwards(s)
  {
    if s != [] {
      BackwardsSnoc(s[1..], c);
      assert (s + [c])[1..] == s[1..] + [c];
    }
  }

  // The first loop of itoa_x: the digits from the least significant on.
  method DigitsBackwards(value: nat, numDigits: nat) returns (back: array<char>, i: nat)
    requires value < W.TWO_64 && 1 <= numDigits <= 20
    ensures back.Length == 20 && i < 20 && fresh(back) && Backwards(back[..i + 1]) == HexText(value, numDigits)
  {
    hide HexLength, HexValue, HexText, HexDigit, Fewer;
    HexTextMeans(value, numDigits);
    HexFits(value);
    back := new char[20];
    var rest := value;
    i := 0;
    ghost var n: nat := numDigits;
    ghost var text := HexText(value, numDigits);
    while true
      invariant i < |text| <= 20 && back.Length == 20 && n >= 1
      invariant n == if numDigits > i then numDigits - i else 1
      invariant text == HexText(rest, n) + Backwards(back[..i])
      decreases 20 - i
    {
      HexStep(rest, n);
      var cval := rest % 16;
      var c := if cval <= 9 then (cval + 48) as char else (cval - 10 + 65) as char;
      ghost var before := back[..i];
      back[i] := c;
      assert back[..i + 1] == before + [c];
      BackwardsSnoc(before, c);
      rest := rest / 16;
      if rest == 0 && i >= numDigits - 1 {
        break;
      }
      n := Fewer(n);
      assert text == HexText(rest, n) + ([c] + Backwards(before));
      HexTextMeans(rest, n);
      BackwardsAt(before + [c], 0);
      i := i + 1;
    }
  }

  lemma HexStep(value: nat, n: nat)
    requires n >= 1
    ensures var c := if value % 16 <= 9 then (value % 16 + 48) as char else (value % 16 - 10 + 65) as char;
      HexText(value, n) == (if value < 16 && n <= 1 then [] else HexText(value / 16, Fewer(n))) + [c]
    ensures Fewer(n) == if n > 1 then n - 1 else 1
    ensures |HexText(value, n)| >= 1
  {
  }

  /** itoa_x writes the numeral of value, padded to numDigits digits, and a terminator. */
  method ItoaX(value: nat, arr: array<char>, numDigits: nat)
    requires value < W.TWO_64 && 1 <= numDigits <= 20
    requires arr.Length > numDigits && arr.Length > HexLength(value)
    modifies arr
    ensures var t := HexText(value, numDigits);
      |t| < arr.Length && arr[..|t|] == t && arr[|t|] == '\0' && arr[|t| + 1..] == old(arr[|t| + 1..])
  {
    hide HexValue, HexText, Backwards;
    ghost var text := HexText(value, numDigits);
    HexTextMeans(value, numDigits);
    var back, i := DigitsBackwards(value, numDigits);
    ghost var b := back[..i + 1];
    BackwardsAt(b, 0);
    for j := 0 to i + 1
      invariant back[..i + 1] == b
      invariant forall k: nat :: k < j ==> arr[k] == text[k]
      invariant arr[i + 2..] == old(arr[i + 2..])
    {
      BackwardsAt(b, j);
      assert back[i - j] == b[i - j];
      arr[j] := back[i - j];
    }
    arr[i + 1] := '\0';
    assert arr[..i + 1] == text;
  }

  // ---- atoi_x ----

  // What atoi_x takes a digit for: a letter counts from 0, not from 10.
  function AtoiXDigit(c: char): Option<nat> {
    if IsDigit(c) then Some(DigitValue(c))
    else if 'a' <= c <= 'f' then Some(c as int - 97)
    else if 'A' <= c <= 'F' then Some(c as int - 65)
    else None
  }

  function AtoiXOn(res: int, text: seq<char>): Option<int>
    decreases text
  {
    if text == [] then Some(res)
    else match AtoiXDigit(text[0])
      case None => Some(res)
      case Some(d) => if res * 16 + d > INT_MAX then None else AtoiXOn(res * 16 + d, text[1..])
  }

  function AtoiX(text: seq<char>): Option<int> {
    AtoiXOn(0, text)
  }

  predicate IsLetter(c: char) {
    'A' <= c <= 'F' || 'a' <= c <= 'f'
  }

  // The sum of 16^k over the positions k, from the right, that hold a letter.
  function LetterSum(text: seq<char>): nat {
    if text == [] then 0 else 16 * LetterSum(text[..|text| - 1]) + if IsLetter(text[|text| - 1]) then 1 else 0
  }

  predicate HexNumeral(text: seq<char>) {
    forall i: nat :: i < |text| ==> IsDigit(text[i]) || IsLetter(text[i])
  }

  lemma {:induction false} AtoiXAppend(res: int, text: seq<char>, c: char)
    requires HexNumeral(text) && (IsDigit(c) || IsLetter(c))
    ensures AtoiXOn(res, text + [c]) ==
      match AtoiXOn(res, text)
      case None => None
      case Some(v) => if v * 16 + AtoiXDigit(c).value > INT_MAX then None else Some(v * 16 + AtoiXDigit(c).value)
    decreases text
  {
    if text == [] {
      assert (text + [c])[1..] == [];
    } else {
      assert (text + [c])[0] == text[0] && (text + [c])[1..] == text[1..] + [c];
      var d := AtoiXDigit(text[0]).value;
      if res * 16 + d <= INT_MAX {
        AtoiXAppend(res * 16 + d, text[1..], c);
      }
    }
  }

  lemma {:induction false} HexTextNumeral(value: nat, n: nat)
    ensures HexNumeral(HexText(value, n))
    decreases value + n
  {
    hide HexDigit, IsDigit, IsLetter;
    if !(value < 16 && n <= 1) {
      HexTextNumeral(value / 16, Fewer(n));
    }
    HexDigitMeans(value % 16);
  }

  // What atoi_x makes of a numeral: ten less for every letter, in its place.
  function ReadAs(text: seq<char>): int {
    HexValue(text) - 10 * LetterSum(text)
  }

  // atoi_x returns that number exactly when it fits an int; no sum on the way exceeds it.
  lemma {:induction false} AtoiXValue(text: seq<char>)
    requires HexNumeral(text)
    ensures 0 <= ReadAs(text)
    ensures AtoiX(text) == if ReadAs(text) <= INT_MAX then Some(ReadAs(text)) else None
  {
    hide IsDigit, IsLetter, HexDigitValue, AtoiXDigit;
    if text != [] {
      var a, c := text[..|text| - 1], text[|text| - 1];
      assert text == a + [c];
      assert HexNumeral(a) by { assert forall i: nat :: i < |a| ==> a[i] == text[i]; }
      AtoiXValue(a);
      AtoiXAppend(0, a, c);
      LetterLoss(c);
      assert ReadAs(text) == 16 * ReadAs(a) + AtoiXDigit(c).value;
    }
  }

  lemma LetterLoss(c: char)
    requires IsDigit(c) || IsLetter(c)
    ensures AtoiXDigit(c) == Some(HexDigitValue(c) - if IsLetter(c) then 10 else 0)
    ensures HexDigitValue(c) >= if IsLetter(c) then 10 else 0
  {
  }

  lemma {:induction false} NoLetters(text: seq<char>)
    ensures LetterSum(text) == 0 <==> forall i: nat :: i < |text| ==> !IsLetter(text[i])
  {
    if text != [] {
      var a := text[..|text| - 1];
      NoLetters(a);
      assert forall i: nat :: i < |a| ==> a[i] == text[i];
    }
  }

  /** atoi_x does not read back what itoa_x writes: it returns the value less ten times the
      sum of 16^k over the letter positions, or overflows if that leaves an int; so the round
      trip is exact exactly when the value fits an int and its numeral has no letter. */
  lemma HexRoundTrip(value: nat, n: nat)
    ensures var t := HexText(value, n);
      var seen := value - 10 * LetterSum(t);
      && AtoiX(t) == (if seen <= INT_MAX then Some(seen) else None)
      && (AtoiX(t) == Some(value) <==> value <= INT_MAX && forall i: nat :: i < |t| ==> !IsLetter(t[i]))
  {
    HexTextMeans(value, n);
    HexTextNumeral(value, n);
    AtoiXValue(HexText(value, n));
    NoLetters(HexText(value, n));
  }

  lemma {:induction false} AtoiXOnStops(res: int, text: seq<char>, n: nat)
    requires n <= |text| && HexNumeral(text[..n]) && (n < |text| ==> AtoiXDigit(text[n]).None?)
    ensures AtoiXOn(res, text) == AtoiXOn(res, text[..n])
    decreases n
  {
    if n > 0 {
      assert text[..n][0] == text[0];
      assert text[..n][1..] == text[1..][..n - 1];
      var d := AtoiXDigit(text[0]).value;
      if res * 16 + d <= INT_MAX {
        AtoiXOnStops(res * 16 + d, text[1..], n - 1);
      }
    }
  }

  /** atoi_x on any text: the leading digits in base 16, every letter counting ten too little,
      exactly when that fits an int. */
  lemma AtoiXExactly(text: seq<char>, n: nat)
    requires n <= |text| && forall i: nat :: i < n ==> AtoiXDigit(text[i]).Some?
    requires n < |text| ==> AtoiXDigit(text[n]).None?
    ensures var seen := HexValue(text[..n]) - 10 * LetterSum(text[..n]);
      AtoiX(text) == if seen <= INT_MAX then Some(seen) else None
  {
    AtoiXOnStops(0, text, n);
    AtoiXValue(text[..n]);
  }

  /** Digits stand for themselves; letters of either case count from 0 in atoi_x and from 10 in
      the value of a numeral; nothing else counts. */
  lemma DigitsOfChars(c: char)
    ensures '0' <= c <= '9' ==> AtoiXDigit(c) == Some(c as int - '0' as int)
    ensures '0' <= c <= '9' ==> HexDigitValue(c) == c as int - '0' as int
    ensures 'a' <= c <= 'f' ==> AtoiXDigit(c) == Some(c as int - 'a' as int)
    ensures 'a' <= c <= 'f' ==> HexDigitValue(c) == 10 + (c as int - 'a' as int)
    ensures 'A' <= c <= 'F' ==> AtoiXDigit(c) == Some(c as int - 'A' as int)
    ensures 'A' <= c <= 'F' ==> HexDigitValue(c) == 10 + (c as int - 'A' as int)
    ensures AtoiXDigit(c).None? <==> !('0' <= c <= '9') && !('a' <= c <= 'f') && !('A' <= c <= 'F')
  {
  }

  method ParseHex(text: seq<char>) returns (res: Option<int>)
    ensures res == AtoiX(text)
  {
    var sum := 0;
    for i := 0 to |text|
      invariant AtoiXOn(sum, text[i..]) == AtoiX(text)
    {
      assert text[i..][1..] == text[i + 1..];
      var d;
      if '0' <= text[i] <= '9' {
        d := text[i] as int - 48;
      } else if 'a' <= text[i] <= 'f' {
        d := text[i] as int - 97;
      } else if 'A' <= text[i] <= 'F' {
        d := text[i] as int - 65;
      } else {
        return Some(sum);
      }
      if sum * 16 + d > INT_MAX { return None; }
      sum := sum * 16 + d;
    }
    return Some(sum);
  }

  // ---- printing on the terminal ----

  method KprintDHelper(t: T.Screen, value: nat)
    requires t.Valid()
    modifies t, t.term
    ensures t.Valid() && t.log == T.PutAll(old(t.log), Digits(value))
  {
    if value != 0 {
      ghost var l := t.log;
      KprintDHelper(t, value / 10);
      t.TermWrite([(value % 10 + 48) as char]);
      T.PutAllAppend(l, Digits(value / 10), [Digit(value % 10)]);
    }
  }

  method KprintD(t: T.Screen, value: nat)
    requires t.Valid() && value < W.TWO_64
    modifies t, t.term
    ensures t.Valid() && t.log == T.PutAll(old(t.log), Decimal(value))
  {
    if value != 0 {
      KprintDHelper(t, value);
    } else {
      t.TermWrite(['0']);
    }
  }

  // ---- hexadecimal on the terminal ----

  function LowerDigit(d: nat): char
    requires d < 16
  {
    if d < 10 then (48 + d) as char else (97 + (d - 10)) as char
  }

  // The digits kprint_x_helper prints.
  function XDigits(value: nat): seq<char> {
    if value == 0 then [] else XDigits(value / 16) + [LowerDigit(value % 16)]
  }

  function Hexadecimal(value: nat): seq<char> {
    if value == 0 then ['0'] else XDigits(value)
  }

  lemma LowerDigitMeans(d: nat)
    requires d < 16
    ensures HexDigitValue(LowerDigit(d)) == d && (IsDigit(LowerDigit(d)) || IsLetter(LowerDigit(d)))
    ensures LowerDigit(d) == '0' <==> d == 0
  {
  }

  lemma {:induction false} XDigitsMean(value: nat)
    ensures HexValue(XDigits(value)) == value && HexNumeral(XDigits(value))
    ensures value > 0 ==> |XDigits(value)| == HexLength(value) && XDigits(value)[0] != '0'
  {
    hide LowerDigit, HexDigitValue, IsDigit, IsLetter;
    if value > 0 {
      XDigitsMean(value / 16);
      LowerDigitMeans(value % 16);
      assert XDigits(value)[..|XDigits(value)| - 1] == XDigits(value / 16);
    }
  }

  lemma LowerDigitChars(d: nat)
    requires d < 16
    ensures LowerDigit(d) == "0123456789abcdef"[d]
  {
  }

  /** The numeral of kprint_x, place by place, in small letters. */
  lemma {:induction false} HexadecimalPlace(value: nat, i: nat)
    requires i < |Hexadecimal(value)|
    ensures Hexadecimal(value)[|Hexadecimal(value)| - 1 - i] == "0123456789abcdef"[Dropped(value, 16, i) % 16]
    decreases i
  {
    hide Hexadecimal, LowerDigit;
    HexadecimalStep(value);
    LowerDigitChars(value % 16);
    if i > 0 {
      HexadecimalPlace(value / 16, i - 1);
    }
  }

  lemma HexadecimalStep(value: nat)
    ensures value >= 16 ==> Hexadecimal(value) == Hexadecimal(value / 16) + [LowerDigit(value % 16)]
    ensures value < 16 ==> Hexadecimal(value) == [LowerDigit(value)]
  {
    if 0 < value < 16 { assert XDigits(value / 16) == []; }
  }

  /** kprint_x prints the shortest hexadecimal numeral for its argument; atoi_x reads it back
      exactly when it fits an int and holds no letter. */
  lemma HexadecimalIsNumeral(value: nat)
    ensures HexValue(Hexadecimal(value)) == value && HexNumeral(Hexadecimal(value))
    ensures |Hexadecimal(value)| == HexLength(value)
    ensures var t := Hexadecimal(value);
      AtoiX(t) == Some(value) <==> value <= INT_MAX && forall i: nat :: i < |t| ==> !IsLetter(t[i])
  {
    hide XDigits, HexDigitValue, AtoiXOn, LetterSum;
    XDigitsMean(value);
    if value == 0 {
      assert ['0'][..0] == [];
      assert HexValue(['0']) == 16 * HexValue([]) + HexDigitValue('0');
      LowerDigitMeans(0);
    }
    AtoiXValue(Hexadecimal(value));
    NoLetters(Hexadecimal(value));
  }

  method KprintXHelper(t: T.Screen, value: nat)
    requires t.Valid()
    modifies t, t.term
    ensures t.Valid() && t.log == T.PutAll(old(t.log), XDigits(value))
  {
    var table := ['0', '1', '2', '3', '4', '5', '6', '7', '8', '9', 'a', 'b', 'c', 'd', 'e', 'f'];
    if value != 0 {
      ghost var l := t.log;
      KprintXHelper(t, value / 16);
      assert table[value % 16] == LowerDigit(value % 16);
      t.TermWrite([table[value % 16]]);
      T.PutAllAppend(l, XDigits(value / 16), [LowerDigit(value % 16)]);
    }
  }

  method KprintX(t: T.Screen, value: nat)
    requires t.Valid() && value < W.TWO_64
    modifies t, t.term
    ensures t.Valid() && t.log == T.PutAll(old(t.log), Hexadecimal(value))
  {
    if value != 0 {
      KprintXHelper(t, value);
    } else {
      t.TermWrite(['0']);
    }
  }

  // ---- drawing text ----

  /** The font: for every character eight rows of eight bits, bit 0 leftmost. */
  type Font = f: seq<seq<F.Byte>> | |f| == 128 && forall c: nat :: c < 128 ==> |f[c]| == 8
    witness seq(128, i => seq(8, j => 0))

  // The colour of column w and row h of a character.
  function Dot(font: Font, c: nat, w: nat, h: nat, colour: nat): nat
    requires c < 128
  {
    if h < 8 && W.BitAt(font[c][h], w) then colour else 0
  }

  // The byte of a picture after a character has been drawn at (x, y).
  function GlyphByte(g: F.Geometry, font: Font, c: nat, x: nat, y: nat, colour: nat, k: nat, b: F.Byte): F.Byte
    requires F.Sane(g) && c < 128
  {
    if F.InBlock(g, k, x, y, x + 8, y + 8)
    then F.Part(Dot(font, c, F.Col(g, k) - x, F.Row(g, k) - y, colour), F.Channel(g, k)) else b
  }

  function Glyph(g: F.Geometry, font: Font, fb: seq<F.Byte>, c: nat, x: nat, y: nat, colour: nat): seq<F.Byte>
    requires F.Sane(g) && c < 128
  {
    seq(|fb|, k requires 0 <= k < |fb| => GlyphByte(g, font, c, x, y, colour, k, fb[k]))
  }

  // A row of characters, eight columns apart.
  function DrawnText(g: F.Geometry, font: Font, fb: seq<F.Byte>, text: seq<char>, x: nat, y: nat, colour: nat)
    : seq<F.Byte>
    requires F.Sane(g) && forall i: nat :: i < |text| ==> text[i] as int < 128
  {
    if text == [] then fb
    else
      var n := |text| - 1;
      Glyph(g, font, DrawnText(g, font, fb, text[..n], x, y, colour), text[n] as int, x + 8 * n, y, colour)
  }

  // Row h of a glyph is a byte whose bit w, worth 2^w, is column w.
  lemma LitBit(font: Font, c: nat, w: nat, h: nat, colour: nat)
    requires c < 128 && w < 8 && h < 8
    ensures Dot(font, c, w, h, colour) == if font[c][h] / [1, 2, 4, 8, 16, 32, 64, 128][w] % 2 == 1 then colour else 0
  {
    hide W.BitAt;
    W.EightBits(font[c][h]);
  }

  // The bytes of the pixel that the row of characters has at column dx and row dy.
  function TextPixel(font: Font, text: seq<char>, dx: nat, dy: nat, red: F.Byte, green: F.Byte, blue: F.Byte)
    : seq<F.Byte>
    requires dx < 8 * |text| && dy < 8 && Plain(text)
  {
    var bits := font[text[dx / 8] as int][dy];
    if bits / [1, 2, 4, 8, 16, 32, 64, 128][dx % 8] % 2 == 1 then [blue, green, red] else [0, 0, 0]
  }

  /** Text in graphics mode, pixel by pixel: character i covers columns x + 8 i to x + 8 i + 7, a
      pixel whose bit in the font is set has the colour 0xRRGGBB and the others are black, and
      nothing else is drawn. */
  lemma {:induction false} TextPixels(g: F.Geometry, font: Font, fb: seq<F.Byte>, text: seq<char>, x: nat, y: nat,
                                      red: F.Byte, green: F.Byte, blue: F.Byte, u: nat, v: nat)
    requires F.Sane(g) && |fb| == F.Bytes(g) && Plain(text) && u < g.width && v < g.height
    ensures var k := F.Offset(g, u, v);
      var r := DrawnText(g, font, fb, text, x, y, 0x1_0000 * red + 0x100 * green + blue);
      k + 2 < |fb| == |r| &&
      F.PixelBytes(r, k) == if x <= u < x + 8 * |text| && y <= v < y + 8
        then TextPixel(font, text, u - x, v - y, red, green, blue) else F.PixelBytes(fb, k)
    decreases |text|
  {
    hide F.Row, F.Col, F.Channel, F.Offset, F.Part, F.Pack, F.Bytes, Glyph, Dot, TextPixel;
    if text == [] {
      F.OffsetOf(g, u, v, 2);
    } else {
      var n := |text| - 1;
      var colour := 0x1_0000 * red + 0x100 * green + blue;
      var front := DrawnText(g, font, fb, text[..n], x, y, colour);
      TextPixels(g, font, fb, text[..n], x, y, red, green, blue, u, v);
      if x <= u < x + 8 * |text| && y <= v < y + 8 { LastGlyph(font, text, u - x, v - y, red, green, blue); }
      GlyphPixel(g, font, front, text[n] as int, x + 8 * n, y, red, green, blue, u, v);
    }
  }

  lemma LastGlyph(font: Font, text: seq<char>, dx: nat, dy: nat, red: F.Byte, green: F.Byte, blue: F.Byte)
    requires text != [] && dx < 8 * |text| && dy < 8 && Plain(text)
    ensures var n := |text| - 1;
      TextPixel(font, text, dx, dy, red, green, blue) ==
        if dx < 8 * n then TextPixel(font, text[..n], dx, dy, red, green, blue)
        else TextPixel(font, [text[n] as int as char], dx - 8 * n, dy, red, green, blue)
  {
  }

  lemma GlyphPixel(g: F.Geometry, font: Font, fb: seq<F.Byte>, c: nat, x: nat, y: nat,
                   red: F.Byte, green: F.Byte, blue: F.Byte, u: nat, v: nat)
    requires F.Sane(g) && |fb| == F.Bytes(g) && c < 128 && u < g.width && v < g.height
    ensures var k := F.Offset(g, u, v);
      var r := Glyph(g, font, fb, c, x, y, 0x1_0000 * red + 0x100 * green + blue);
      k + 2 < |fb| == |r| &&
      F.PixelBytes(r, k) == if x <= u < x + 8 && y <= v < y + 8
        then TextPixel(font, [c as char], u - x, v - y, red, green, blue) else F.PixelBytes(fb, k)
  {
    hide F.Row, F.Col, F.Channel, F.Offset, F.Part, F.Pack, F.Bytes, Dot;
    var colour := F.Pack(blue, green, red);
    assert colour == 0x1_0000 * red + 0x100 * green + blue by { F.PackIs(blue, green, red); }
    F.OffsetOf(g, u, v, 0);
    F.OffsetOf(g, u, v, 1);
    F.OffsetOf(g, u, v, 2);
    if x <= u < x + 8 && y <= v < y + 8 {
      LitBit(font, c, u - x, v - y, colour);
      F.PartOfPack(blue, green, red);
      F.BlackParts();
    }
  }

  method GkprintC(s: F.Screen, font: Font, c: nat, x: nat, y: nat, colour: nat)
    requires s.Valid() && c < 128 && x + 8 <= s.g.width && y + 8 <= s.g.height
    modifies s.pixel
    ensures s.pixel[..] == Glyph(s.g, font, old(s.pixel[..]), c, x, y, colour)
  {
    hide F.Row, F.Col, F.Channel, F.Part, F.Pack, F.Painted, W.BitAt;
    ghost var before := s.pixel[..];
    for w := 0 to 8
      invariant forall k: nat :: k < s.pixel.Length ==>
        s.pixel[k] == if F.InBlock(s.g, k, x, y, x + w, y + 8)
                      then GlyphByte(s.g, font, c, x, y, colour, k, before[k]) else before[k]
    {
      for h := 0 to 8
        invariant forall k: nat :: k < s.pixel.Length ==>
          s.pixel[k] == if F.InBlock(s.g, k, x, y, x + w, y + 8) || F.InBlock(s.g, k, x + w, y, x + w + 1, y + h)
                        then GlyphByte(s.g, font, c, x, y, colour, k, before[k]) else before[k]
      {
        ghost var now := s.pixel[..];
        var on := if W.BitAt(font[c][h], w) then colour else 0;
        F.SameParts(on);
        s.DrawPixel(x + w, y + h, F.Part(on, 2), F.Part(on, 1), F.Part(on, 0));
        assert forall k: nat :: k < s.pixel.Length ==> s.pixel[k] == s.pixel[..][k];
      }
    }
    assert s.pixel[..] == Glyph(s.g, font, before, c, x, y, colour);
  }

  function Show(ds: seq<nat>): seq<char>
    requires AllDigits(ds)
  {
    seq(|ds|, i requires 0 <= i < |ds| => Digit(ds[i]))
  }

  predicate AllDigits(ds: seq<nat>) {
    forall i: nat :: i < |ds| ==> ds[i] < 10
  }

  /** The first loop of gkprint_d: twenty places are enough for every 64-bit value, so the
      loop always leaves by its break. */
  method SplitDigits(value: nat) returns (arr: array<nat>, counter: nat)
    requires value < W.TWO_64
    ensures arr.Length == 20 && counter < 20 && fresh(arr)
    ensures AllDigits(arr[counter..]) && Show(arr[counter..]) == Decimal(value)
  {
    hide Decimal, Digit;
    DecimalBound(value);
    arr := new nat[20];
    var rest := value;
    counter := 19;
    while true
      invariant counter < 20 && arr.Length == 20
      invariant AllDigits(arr[counter + 1..])
      invariant Decimal(value) == Decimal(rest) + Show(arr[counter + 1..])
      decreases counter
    {
      DecimalStep(rest);
      ghost var tail := arr[counter + 1..];
      arr[counter] := rest % 10;
      assert arr[counter..] == [rest % 10] + tail;
      assert Show([rest % 10] + tail) == [Digit(rest % 10)] + Show(tail);
      ghost var was := rest;
      rest := rest / 10;
      if rest == 0 {
        break;
      }
      DecimalNonEmpty(rest);
      assert Decimal(rest) + [Digit(was % 10)] + Show(tail) == Decimal(rest) + ([Digit(was % 10)] + Show(tail));
      counter := counter - 1;
    }
  }

  lemma DecimalNonEmpty(value: nat)
    ensures |Decimal(value)| >= 1
  {
  }

  /** gkprint_d draws exactly the characters kprint_d prints. */
  method GkprintD(s: F.Screen, font: Font, value: nat, x: nat, y: nat, colour: nat)
    requires s.Valid() && value < W.TWO_64
    requires x + 8 * |Decimal(value)| <= s.g.width && y + 8 <= s.g.height
    modifies s.pixel
    ensures Plain(Decimal(value))
    ensures s.pixel[..] == DrawnText(s.g, font, old(s.pixel[..]), Decimal(value), x, y, colour)
  {
    hide Decimal, Glyph;
    DecimalPlain(value);
    ghost var text := Decimal(value);
    var arr, counter := SplitDigits(value);
    ghost var digits := arr[counter..];
    for i := counter to 20
      invariant arr[counter..] == digits
      invariant s.pixel[..] == DrawnText(s.g, font, old(s.pixel[..]), text[..i - counter], x, y, colour)
    {
      assert arr[i] == digits[i - counter] < 10;
      if 0 <= arr[i] <= 9 {
        assert text[..i + 1 - counter][..i - counter] == text[..i - counter];
        assert text[i - counter] == Digit(arr[i]);
        GkprintC(s, font, 48 + arr[i], x + (i - counter) * 8, y, colour);
      }
    }
    assert text[..|text|] == text;
  }

  // sys_gwrite
  method GWrite(s: F.Screen, font: Font, text: seq<char>, x: nat, y: nat, colour: nat)
    requires s.Valid() && Plain(text) && x + 8 * |text| <= s.g.width && y + 8 <= s.g.height
    modifies s.pixel
    ensures s.pixel[..] == DrawnText(s.g, font, old(s.pixel[..]), text, x, y, colour)
  {
    hide Glyph;
    for i := 0 to |text|
      invariant s.pixel[..] == DrawnText(s.g, font, old(s.pixel[..]), text[..i], x, y, colour)
    {
      assert text[..i + 1][..i] == text[..i];
      GkprintC(s, font, text[i] as int, x + 8 * i, y, colour);
    }
    assert text[..|text|] == text;
  }

  predicate Plain(text: seq<char>) {
    forall i: nat :: i < |text| ==> text[i] as int < 128
  }

  lemma DecimalPlain(value: nat)
    ensures Plain(Decimal(value))
  {
    DecimalIsNumeral(value);
  }

  lemma DecimalBound(value: nat)
    requires value < W.TWO_64
    ensures 1 <= |Decimal(value)| <= 20
  {
    assert W.Pow(10, 5) == 100000 && W.Pow(10, 10) == 10000000000;
    assert W.Pow(10, 15) == 1000000000000000 && W.Pow(10, 20) == 100000000000000000000;
    DigitsBound(value, 20);
    DigitsValue(value);
  }

  lemma DecimalStep(value: nat)
    ensures value >= 10 ==> Decimal(value) == Decimal(value / 10) + [Digit(value % 10)]
    ensures value < 10 ==> Decimal(value) == [Digit(value)]
  {
    if 0 < value < 10 { assert Digits(value / 10) == []; }
  }
}
