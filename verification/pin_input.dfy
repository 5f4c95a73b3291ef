/** src/pin_input.cpp getPin: read the recovery PIN one keystroke at a
    time with echo off, then convert it to an unsigned 64-bit value. The
    terminal is the sequence of characters `read` delivers (POSIX branch). */
module PinInput {
  import opened Wrappers

  /** At most this many digits are collected. */
  const MaxPinLength: nat := 20
  /** The decimal text of 2^64 - 1. */
  const MaxU64Text: seq<char> := "18446744073709551615"
  const MaxU64: nat := 0xFFFF_FFFF_FFFF_FFFF
  const Backspace: char := 8 as char
  const Delete: char := 127 as char
  const Newline: char := '\n'

  predicate IsDigit(c: char) { '0' <= c <= '9' }

  predicate AllDigits(s: seq<char>) { forall i :: 0 <= i < |s| ==> IsDigit(s[i]) }

  function DigitValue(c: char): nat
    requires IsDigit(c)
  {
    (c as int - '0' as int) as nat
  }

  /** The value std::from_chars gives a digit string, most significant
      digit first, without a width limit. */
  function Value(s: seq<char>): nat
    requires AllDigits(s)
  {
    if |s| == 0 then 0 else 10 * Value(s[..|s| - 1]) + DigitValue(s[|s| - 1])
  }

  function Pow10(n: nat): (p: nat)
    ensures p >= 1
  {
    if n == 0 then 1 else 10 * Pow10(n - 1)
  }

  // ---------------------------------------------------------------------
  // Keystrokes
  // ---------------------------------------------------------------------

  /** One keystroke other than the newline: a digit is appended, a
      backspace or DEL removes the last digit, anything else is ignored. */
  function Step(input: seq<char>, ch: char): (r: seq<char>)
    requires AllDigits(input)
    ensures AllDigits(r)
    ensures IsDigit(ch) ==> r == input + [ch]
    ensures (ch == Backspace || ch == Delete) && |input| > 0 ==> r == input[..|input| - 1]
    ensures !IsDigit(ch) && !((ch == Backspace || ch == Delete) && |input| > 0) ==> r == input
  {
    if IsDigit(ch) then input + [ch]
    else if (ch == Backspace || ch == Delete) && |input| > 0 then input[..|input| - 1]
    else input
  }

  /** The read loop: it stops at 20 digits or at a newline; when the
      keystrokes run out first the source goes on waiting (None). */
  function Collect(keys: seq<char>, input: seq<char>): (r: Option<seq<char>>)
    requires AllDigits(input) && |input| <= MaxPinLength
    ensures r.Some? ==> AllDigits(r.value) && |r.value| <= MaxPinLength
    decreases |keys|
  {
    if |input| >= MaxPinLength then Some(input)
    else if |keys| == 0 then None
    else if keys[0] == Newline then Some(input)
    else Collect(keys[1..], Step(input, keys[0]))
  }

  /** Lexicographic `<` of std::string on the characters compared. */
  function LexLess(a: seq<char>, b: seq<char>): bool
  {
    if |a| == 0 then |b| > 0
    else if |b| == 0 then false
    else if a[0] != b[0] then a[0] < b[0]
    else LexLess(a[1..], b[1..])
  }

  /** The conversion after the read loop: 0 for an empty input and for a
      20-digit input above "18446744073709551615", else the value (the
      from_chars range error cannot arise after that guard, and is kept
      as in the source). */
  function ParsePin(input: seq<char>): (r: nat)
    requires AllDigits(input) && |input| <= MaxPinLength
    ensures r <= MaxU64
    ensures r == 0 || r == Value(input)
  {
    if |input| == 0 || (|input| == MaxPinLength && LexLess(MaxU64Text, input)) then 0
    else if Value(input) > MaxU64 then 0
    else Value(input)
  }

  datatype PinRead = Waiting | Pin(value: nat)

  /** getPin on the keystrokes the terminal delivers. */
  function GetPin(keys: seq<char>): (r: PinRead)
    ensures r.Pin? ==> r.value <= MaxU64
  {
    match Collect(keys, [])
    case None => Waiting
    case Some(input) => Pin(ParsePin(input))
  }

  // ---------------------------------------------------------------------
  // Properties
  // ---------------------------------------------------------------------

  lemma {:induction false} ValueBound(s: seq<char>)
    requires AllDigits(s)
    ensures Value(s) < Pow10(|s|)
  {
    if |s| > 0 {
      ValueBound(s[..|s| - 1]);
    }
  }

  /** The value read from the front: the first digit weighs 10^(n-1). */
  lemma {:induction false} ValueFront(s: seq<char>)
    requires AllDigits(s) && |s| > 0
    ensures Value(s) == DigitValue(s[0]) * Pow10(|s| - 1) + Value(s[1..])
  {
    if |s| == 1 {
      assert s[1..] == [] && s[..0] == [];
    } else {
      var init := s[..|s| - 1];
      var tail := s[1..];
      var d0 := DigitValue(s[0]);
      var dl := DigitValue(s[|s| - 1]);
      ValueFront(init);
      assert init[1..] == tail[..|tail| - 1] && init[0] == s[0] && tail[|tail| - 1] == s[|s| - 1];
      var p := Pow10(|s| - 2);
      assert Value(init) == d0 * p + Value(init[1..]);
      assert Value(tail) == 10 * Value(init[1..]) + dl;
      calc {
        Value(s);
        10 * Value(init) + dl;
        10 * (d0 * p) + 10 * Value(init[1..]) + dl;
        { MulComm10(d0, p); }
        d0 * Pow10(|s| - 1) + Value(tail);
      }
    }
  }

  lemma MulComm10(d: nat, p: nat)
    ensures 10 * (d * p) == d * (10 * p)
  {
  }

  /** With equal weights p, a smaller leading digit wins whatever the
      lower digits are. */
  lemma LeadingDigitDecides(x: nat, y: nat, p: nat, ra: nat, rb: nat)
    requires x < y && ra < p && rb < p
    ensures x * p + ra < y * p + rb
  {
    assert (x + 1) * p <= y * p by {
      MulLe(x + 1, y, p);
    }
  }

  lemma MulLe(a: nat, b: nat, p: nat)
    requires a <= b
    ensures a * p <= b * p
  {
  }

  /** For digit strings of one length, std::string's `<` is the order of
      their values. */
  lemma {:induction false} LexIsNumeric(a: seq<char>, b: seq<char>)
    requires AllDigits(a) && AllDigits(b) && |a| == |b|
    ensures LexLess(a, b) <==> Value(a) < Value(b)
  {
    if |a| > 0 {
      ValueFront(a);
      ValueFront(b);
      ValueBound(a[1..]);
      ValueBound(b[1..]);
      LexIsNumeric(a[1..], b[1..]);
      var p := Pow10(|a| - 1);
      var x, y := DigitValue(a[0]), DigitValue(b[0]);
      if x < y {
        LeadingDigitDecides(x, y, p, Value(a[1..]), Value(b[1..]));
      } else if x > y {
        LeadingDigitDecides(y, x, p, Value(b[1..]), Value(a[1..]));
      } else {
        assert a[0] == b[0];
      }
    }
  }

  /** One more digit at the end of a prefix. */
  lemma ValueExtend(s: seq<char>, k: nat)
    requires AllDigits(s) && 0 < k <= |s|
    ensures AllDigits(s[..k]) && AllDigits(s[..k - 1])
    ensures Value(s[..k]) == 10 * Value(s[..k - 1]) + DigitValue(s[k - 1])
  {
    assert s[..k][..k - 1] == s[..k - 1];
  }

  /** The characters of the text of 2^64 - 1. */
  lemma MaxTextChars()
    ensures |MaxU64Text| == 20 && AllDigits(MaxU64Text)
    ensures MaxU64Text[0] == '1' && MaxU64Text[1] == '8' && MaxU64Text[2] == '4' && MaxU64Text[3] == '4' && MaxU64Text[4] == '6'
    ensures MaxU64Text[5] == '7' && MaxU64Text[6] == '4' && MaxU64Text[7] == '4' && MaxU64Text[8] == '0' && MaxU64Text[9] == '7'
    ensures MaxU64Text[10] == '3' && MaxU64Text[11] == '7' && MaxU64Text[12] == '0' && MaxU64Text[13] == '9' && MaxU64Text[14] == '5'
    ensures MaxU64Text[15] == '5' && MaxU64Text[16] == '1' && MaxU64Text[17] == '6' && MaxU64Text[18] == '1' && MaxU64Text[19] == '5'
  {
    var s := MaxU64Text;
    assert s[0] == '1' && s[1] == '8' && s[2] == '4' && s[3] == '4' && s[4] == '6';
    assert s[5] == '7' && s[6] == '4' && s[7] == '4' && s[8] == '0' && s[9] == '7';
    assert s[10] == '3' && s[11] == '7' && s[12] == '0' && s[13] == '9' && s[14] == '5';
    assert s[15] == '5' && s[16] == '1' && s[17] == '6' && s[18] == '1' && s[19] == '5';
  }

  lemma MaxTextPrefix5()
    ensures AllDigits(MaxU64Text) && Value(MaxU64Text[..5]) == 18446
  {
    var s := MaxU64Text;
    MaxTextChars();
    assert s[..0] == [];
    ValueExtend(s, 1); assert Value(s[..1]) == 1;
    ValueExtend(s, 2); assert Value(s[..2]) == 18;
    ValueExtend(s, 3); assert Value(s[..3]) == 184;
    ValueExtend(s, 4); assert Value(s[..4]) == 1844;
    ValueExtend(s, 5); assert Value(s[..5]) == 18446;
  }

  lemma MaxTextPrefix10()
    ensures AllDigits(MaxU64Text) && Value(MaxU64Text[..10]) == 1844674407
  {
    var s := MaxU64Text;
    MaxTextPrefix5();
    MaxTextChars();
    ValueExtend(s, 6); assert Value(s[..6]) == 184467;
    ValueExtend(s, 7); assert Value(s[..7]) == 1844674;
    ValueExtend(s, 8); assert Value(s[..8]) == 18446744;
    ValueExtend(s, 9); assert Value(s[..9]) == 184467440;
    ValueExtend(s, 10); assert Value(s[..10]) == 1844674407;
  }

  lemma MaxTextPrefix15()
    ensures AllDigits(MaxU64Text) && Value(MaxU64Text[..15]) == 184467440737095
  {
    var s := MaxU64Text;
    MaxTextPrefix10();
    MaxTextChars();
    ValueExtend(s, 11); assert Value(s[..11]) == 18446744073;
    ValueExtend(s, 12); assert Value(s[..12]) == 184467440737;
    ValueExtend(s, 13); assert Value(s[..13]) == 1844674407370;
    ValueExtend(s, 14); assert Value(s[..14]) == 18446744073709;
    ValueExtend(s, 15); assert Value(s[..15]) == 184467440737095;
  }

  lemma MaxTextPrefix20()
    ensures AllDigits(MaxU64Text) && Value(MaxU64Text[..20]) == 18446744073709551615
  {
    var s := MaxU64Text;
    MaxTextPrefix15();
    MaxTextChars();
    ValueExtend(s, 16); assert Value(s[..16]) == 1844674407370955;
    ValueExtend(s, 17); assert Value(s[..17]) == 18446744073709551;
    ValueExtend(s, 18); assert Value(s[..18]) == 184467440737095516;
    ValueExtend(s, 19); assert Value(s[..19]) == 1844674407370955161;
    ValueExtend(s, 20); assert Value(s[..20]) == 18446744073709551615;
  }

  lemma MaxU64TextValue()
    ensures AllDigits(MaxU64Text) && Value(MaxU64Text) == MaxU64
  {
    MaxTextPrefix20();
    MaxTextChars();
    assert MaxU64Text[..20] == MaxU64Text;
  }

  lemma Pow10Nineteen()
    ensures Pow10(19) == 10_000_000_000_000_000_000
  {
    assert Pow10(4) == 10_000;
    assert Pow10(8) == 100_000_000;
    assert Pow10(12) == 1_000_000_000_000;
    assert Pow10(16) == 10_000_000_000_000_000;
  }

  /** The guard in front of from_chars rejects exactly the inputs whose
      value does not fit in 64 bits: at most 19 digits always fit, and 20
      digits fit when they do not sort above the text of 2^64 - 1. */
  lemma {:induction false} GuardIsOverflow(s: seq<char>)
    requires AllDigits(s) && |s| <= MaxPinLength
    ensures (|s| == MaxPinLength && LexLess(MaxU64Text, s)) <==> Value(s) > MaxU64
  {
    if |s| == MaxPinLength {
      MaxU64TextValue();
      LexIsNumeric(MaxU64Text, s);
    } else {
      ValueBound(s);
      Pow10Monotone(|s|, 19);
      Pow10Nineteen();
    }
  }

  lemma {:induction false} Pow10Monotone(m: nat, n: nat)
    requires m <= n
    ensures Pow10(m) <= Pow10(n)
    decreases n
  {
    if m < n {
      Pow10Monotone(m, n - 1);
    }
  }

  /** The PIN is the typed number when it fits in 64 bits, and 0
      otherwise (and for an empty input). */
  lemma ParsePinValue(input: seq<char>)
    requires AllDigits(input) && |input| <= MaxPinLength
    ensures ParsePin(input) == (if Value(input) <= MaxU64 then Value(input) else 0)
  {
    GuardIsOverflow(input);
  }

  /** Typing the digits of a PIN shorter than 20 and then newline reads
      back exactly those digits; anything typed after the newline is not
      read. */
  lemma {:induction false} TypedDigitsRead(s: seq<char>, input: seq<char>, rest: seq<char>)
    requires AllDigits(s) && AllDigits(input) && |input| + |s| < MaxPinLength
    ensures Collect(s + [Newline] + rest, input) == Some(input + s)
    decreases |s|
  {
    if |s| == 0 {
      assert s + [Newline] + rest == [Newline] + rest;
      assert input + s == input;
    } else {
      assert (s + [Newline] + rest)[1..] == s[1..] + [Newline] + rest;
      assert input + s == input + [s[0]] + s[1..];
      TypedDigitsRead(s[1..], input + [s[0]], rest);
    }
  }

  /** The twentieth digit ends the loop without a newline. */
  lemma {:induction false} FullPinRead(s: seq<char>, input: seq<char>, rest: seq<char>)
    requires AllDigits(s) && AllDigits(input) && |input| + |s| == MaxPinLength
    ensures Collect(s + rest, input) == Some(input + s)
    decreases |s|
  {
    if |s| == 0 {
      assert input + s == input;
    } else {
      assert (s + rest)[1..] == s[1..] + rest;
      assert input + s == input + [s[0]] + s[1..];
      FullPinRead(s[1..], input + [s[0]], rest);
    }
  }

  /** A digit followed by a backspace (or DEL) leaves the collected input
      as it was. */
  lemma BackspaceUndoesDigit(input: seq<char>, d: char, erase: char)
    requires AllDigits(input) && IsDigit(d) && (erase == Backspace || erase == Delete)
    ensures Step(Step(input, d), erase) == input
  {
    assert (input + [d])[..|input|] == input;
  }

  /** A PIN typed as its digits and a newline is read back as its value. */
  lemma GetPinOfTyped(s: seq<char>, rest: seq<char>)
    requires AllDigits(s) && 0 < |s| < MaxPinLength
    ensures GetPin(s + [Newline] + rest) == Pin(Value(s))
  {
    TypedDigitsRead(s, [], rest);
    assert [] + s == s;
    ParsePinValue(s);
    GuardIsOverflow(s);
  }
}
