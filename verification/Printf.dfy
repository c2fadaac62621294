/**
 printf of the C library, with its number formats, against a renderer and against decoders of the digits it prints.
 */
module Printf {
  import opened Limits
  import opened Least

  type Text = seq<nat>

  const PERCENT: nat := 37
  const ZERO: nat := 48

  datatype Arg = Number(value: nat) | Words(text: Text)

  // ---- Decimal ----

  function Decimal(v: nat): Text { (if v < 10 then [] else Decimal(v / 10)) + [ZERO + v % 10] }

  /** The last n decimal digits of v. */
  function Digits(v: nat, n: nat): (r: Text)
    ensures |r| == n
  {
    if n == 0 then [] else Digits(v / 10, n - 1) + [ZERO + v % 10]
  }

  function Pow10(n: nat): nat { if n == 0 then 1 else 10 * Pow10(n - 1) }

  /** Text without its leading zeros, of which at most n are dropped. */
  function Strip(s: Text, n: nat): Text {
    if n > 0 && s != [] && s[0] == ZERO then Strip(s[1..], n - 1) else s
  }

  function DecimalValue(s: Text): int { if s == [] then 0 else 10 * DecimalValue(s[..|s| - 1]) + s[|s| - 1] - ZERO }

  /** The digits of a number give the number back; only 0 starts with a zero. */
  lemma {:induction false} DecimalDecodes(v: nat)
    ensures DecimalValue(Decimal(v)) == v && Decimal(v) != []
    ensures Decimal(v)[0] == ZERO ==> v == 0 && Decimal(v) == [ZERO]
    ensures forall k: nat :: k < |Decimal(v)| ==> ZERO <= Decimal(v)[k] <= ZERO + 9
  {
    if v >= 10 {
      DecimalDecodes(v / 10);
      assert Decimal(v)[..|Decimal(v)| - 1] == Decimal(v / 10);
    } else {
      assert Decimal(v) == [ZERO + v] && Decimal(v)[..0] == [];
    }
  }

  lemma {:induction false} StripBack(s: Text, n: nat, last: nat)
    requires n >= |s|
    ensures Strip(s + [last], n) == if Strip(s, n) == [] && n == |s| then [last]
                                    else if Strip(s, n) == [] then Strip([last], n - |s|)
                                    else Strip(s, n) + [last]
  {
    if s == [] {
      assert s + [last] == [last];
    } else if s[0] == ZERO {
      assert (s + [last])[1..] == s[1..] + [last];
      StripBack(s[1..], n - 1, last);
    }
  }

  /** Dropping the zeros in front of fixed-width digits leaves the decimal form. */
  lemma {:induction false} StripDigits(v: nat, n: nat)
    requires v < Pow10(n)
    ensures Strip(Digits(v, n), n) == if v == 0 then [] else Decimal(v)
    decreases n
  {
    if n > 0 {
      StripDigits(v / 10, n - 1);
      StripMore(Digits(v / 10, n - 1), n - 1);
      StripBack(Digits(v / 10, n - 1), n, ZERO + v % 10);
      if v / 10 == 0 {
        assert Strip([ZERO + v], 1) == if v == 0 then [] else [ZERO + v] by { assert [ZERO + v][1..] == []; }
        assert Decimal(v) == [] + [ZERO + v % 10];
      }
    }
  }

  lemma {:induction false} StripMore(s: Text, n: nat)
    requires |s| <= n
    ensures Strip(s, n + 1) == Strip(s, n)
  {
    if s != [] && s[0] == ZERO { StripMore(s[1..], n - 1); }
  }

  /** The code keeps the last digit whatever it is. */
  lemma StripTen(v: nat)
    requires v < Pow10(10)
    ensures Strip(Digits(v, 10), 9) == Decimal(v)
  {
    StripDigits(v / 10, 9);
    StripBack(Digits(v / 10, 9), 9, ZERO + v % 10);
    assert v / 10 < Pow10(9);
    if v / 10 == 0 { assert Decimal(v) == [] + [ZERO + v % 10]; }
  }

  lemma Pow10At9()
    ensures Pow10(9) == 1000000000 && Pow10(10) == 10000000000
  {
    assert Pow10(4) == 10000;
    assert Pow10(7) == 10000000;
    assert Pow10(9) == 1000000000;
  }

  /** One turn of the digit loop: v is what is left below 10 * d, q the digits printed so far. */
  lemma NextDigit(v: nat, q: nat, rest: nat, d: nat)
    requires d > 0 && v == q * (10 * d) + rest && rest < 10 * d
    ensures rest / d < 10 && v == (10 * q + rest / d) * d + rest % d
  {
    var x := rest / d;
    assert rest == x * d + rest % d;
    if x >= 10 { TenTimes(x, d); }
    assert q * (10 * d) == 10 * q * d;
    assert (10 * q + x) * d == 10 * q * d + x * d;
  }

  /** The digits printed so far as a number, what is left, and the weight of the next digit. */
  datatype Progress = Progress(q: nat, rest: nat, divisor: nat)

  /** One turn of the digit loop. */
  function Turn(p: Progress): Progress {
    if p.divisor == 0 then p
    else Progress(10 * p.q + p.rest / p.divisor, p.rest % p.divisor, p.divisor / 10)
  }

  function Turns(v: nat, j: nat): Progress { if j == 0 then Progress(0, v, 1000000000) else Turn(Turns(v, j - 1)) }

  ghost predicate DigitsLeft(v: nat, p: Progress, j: nat)
    requires j <= 10
  {
    p.rest < Pow10(10 - j) && v == p.q * Pow10(10 - j) + p.rest && (j < 10 ==> p.divisor == Pow10(9 - j))
  }

  lemma TurnKeeps(v: nat, p: Progress, j: nat)
    requires j < 10 && DigitsLeft(v, p, j)
    ensures p.divisor > 0 && p.rest / p.divisor < 10 && DigitsLeft(v, Turn(p), j + 1)
  {
    assert Pow10(10 - j) == 10 * Pow10(9 - j);
    NextDigit(v, p.q, p.rest, p.divisor);
    if j < 9 { assert Pow10(9 - j) == 10 * Pow10(8 - j); }
  }

  lemma {:induction false} TurnsKeep(v: nat, j: nat)
    requires v < TWO32 && j <= 10
    ensures DigitsLeft(v, Turns(v, j), j)
  {
    if j == 0 {
      Pow10At9();
    } else {
      TurnsKeep(v, j - 1);
      TurnKeeps(v, Turns(v, j - 1), j - 1);
    }
  }

  lemma TurnsWork(v: nat, j: nat)
    requires v < TWO32 && j < 10
    ensures var p := Turns(v, j); p.divisor > 0 && p.rest / p.divisor < 10
  {
    TurnsKeep(v, j);
    TurnKeeps(v, Turns(v, j), j);
  }

  lemma TurnsEnd(v: nat)
    requires v < TWO32
    ensures Turns(v, 10).q == v
  {
    TurnsKeep(v, 10);
    assert Pow10(0) == 1;
  }

  lemma TenTimes(x: nat, d: nat)
    requires x >= 10
    ensures x * d >= 10 * d
  {
  }

  /** One turn of the loop: the next digit, what is left, and the next weight. */
  method DigitTurn(value: nat, divisor: nat, ghost v: nat, ghost q: nat, ghost j: nat)
    returns (digit: nat, left: nat, weight: nat)
    requires v < TWO32 && j < 10 && Progress(q, value, divisor) == Turns(v, j)
    ensures digit < 10 && Progress(10 * q + digit, left, weight) == Turns(v, j + 1)
  {
    TurnsWork(v, j);
    Remainder(value, divisor);
    digit := value / divisor;
    left := value - digit * divisor;
    weight := divisor / 10;
  }

  method PutDigit(fstring: array<nat>, j: nat, digit: nat, ghost q: nat)
    requires j < fstring.Length && digit < 10 && fstring[..j] == Digits(q, j)
    modifies fstring
    ensures fstring[..j + 1] == Digits(10 * q + digit, j + 1)
  {
    AppendDigit(q, digit, j);
    ghost var printed := fstring[..j];
    fstring[j] := digit + 0x30;
    assert fstring[..j + 1] == printed + [fstring[j]];
  }

  /** The ten digits, most significant first. */
  method WriteDigits(v: nat, fstring: array<nat>)
    requires v < TWO32 && fstring.Length >= 11
    modifies fstring
    ensures fstring[..10] == Digits(v, 10)
  {
    var value: nat, divisor: nat, j := v, 1000000000, 0;
    ghost var q: nat := 0;
    while j < 10
      invariant j <= 10 && Progress(q, value, divisor) == Turns(v, j) && fstring[..j] == Digits(q, j)
    {
      var digit;
      digit, value, divisor := DigitTurn(value, divisor, v, q, j);
      PutDigit(fstring, j, digit, q);
      q := 10 * q + digit;
      j := j + 1;
    }
    TurnsEnd(v);
  }

  lemma Remainder(value: nat, divisor: nat)
    requires divisor > 0
    ensures value - value / divisor * divisor == value % divisor
  {
  }

  lemma AppendDigit(q: nat, digit: nat, j: nat)
    requires digit < 10
    ensures Digits(10 * q + digit, j + 1) == Digits(q, j) + [ZERO + digit]
  {
    assert (10 * q + digit) / 10 == q && (10 * q + digit) % 10 == digit;
  }

  method FormatDecimal(v: nat) returns (text: Text)
    requires v < TWO32
    ensures text == Decimal(v)
  {
    var fstring := new nat[400](_ => 0);
    WriteDigits(v, fstring);
    Pow10At9();
    StripTen(v);
    var part, j := 0, 0;
    while j < 9
      invariant part == j <= 9
      invariant Strip(fstring[..10], 9) == Strip(fstring[part..10], 9 - j)
    {
      assert fstring[part..10][1..] == fstring[part + 1..10];
      if fstring[j] == ZERO { part := part + 1; } else { break; }
      j := j + 1;
    }
    text := fstring[part..10];
  }

  // ---- Hexadecimal ----

  function HexDigit(x: nat, upper: bool): nat
    requires x < 16
  {
    if x < 10 then ZERO + x else if upper then 55 + x else 87 + x
  }

  /** v >> (4 * k) */
  function Shift(v: nat, k: nat): nat { if k == 0 then v else Shift(v / 16, k - 1) }

  function HexDigits(v: nat, n: nat, upper: bool): (r: Text)
    ensures |r| == n
  {
    if n == 0 then [] else HexDigits(v / 16, n - 1, upper) + [HexDigit(v % 16, upper)]
  }

  function Pow16(n: nat): nat { if n == 0 then 1 else 16 * Pow16(n - 1) }

  lemma {:induction false} HexDigitAt(v: nat, n: nat, upper: bool, j: nat)
    requires j < n
    ensures HexDigits(v, n, upper)[j] == HexDigit(Shift(v, n - 1 - j) % 16, upper)
    decreases n
  {
    if j < n - 1 { HexDigitAt(v / 16, n - 1, upper, j); }
  }

  /** Pairs of zeros dropped from the front, at most n of them. */
  function DropPairs(s: Text, n: nat): Text {
    if n > 0 && |s| >= 2 && s[0] == ZERO && s[1] == ZERO then DropPairs(s[2..], n - 1) else s
  }

  function Hex(v: nat, upper: bool): Text { DropPairs(HexDigits(v, 8, upper), 3) }

  function DigitValue(c: nat): int { if c < 58 then c - ZERO else if c < 71 then c - 55 else c - 87 }

  function HexValue(s: Text): int { if s == [] then 0 else 16 * HexValue(s[..|s| - 1]) + DigitValue(s[|s| - 1]) }

  lemma {:induction false} HexDigitsDecode(v: nat, n: nat, upper: bool)
    requires v < Pow16(n)
    ensures HexValue(HexDigits(v, n, upper)) == v
    decreases n
  {
    if n > 0 {
      HexDigitsDecode(v / 16, n - 1, upper);
      var s := HexDigits(v, n, upper);
      assert s[..n - 1] == HexDigits(v / 16, n - 1, upper);
    }
  }

  lemma {:induction false} LeadingZero(s: Text)
    requires s != [] && s[0] == ZERO
    ensures HexValue(s) == HexValue(s[1..])
    decreases |s|
  {
    var n := |s| - 1;
    if n == 0 {
      assert s[..0] == [] && s[1..] == [];
    } else {
      LeadingZero(s[..n]);
      assert s[..n][1..] == s[1..][..n - 1];
    }
  }

  lemma TwoLeadingZeros(s: Text)
    requires |s| >= 2 && s[0] == ZERO && s[1] == ZERO
    ensures HexValue(s) == HexValue(s[2..])
  {
    LeadingZero(s);
    LeadingZero(s[1..]);
    assert s[1..][1..] == s[2..];
  }

  lemma {:induction false} DropPairsDecodes(s: Text, n: nat)
    ensures HexValue(DropPairs(s, n)) == HexValue(s)
  {
    if n > 0 && |s| >= 2 && s[0] == ZERO && s[1] == ZERO {
      TwoLeadingZeros(s);
      DropPairsDecodes(s[2..], n - 1);
    }
  }

  lemma {:induction false} DropPairsShape(s: Text, n: nat)
    ensures |DropPairs(s, n)| % 2 == |s| % 2 && |DropPairs(s, n)| <= |s|
    ensures |s| > 2 * n ==> |DropPairs(s, n)| > 0
    ensures |s| == 2 * n + 2 && |DropPairs(s, n)| > 2 ==> !(DropPairs(s, n)[0] == ZERO && DropPairs(s, n)[1] == ZERO)
  {
    if n > 0 && |s| >= 2 && s[0] == ZERO && s[1] == ZERO {
      DropPairsShape(s[2..], n - 1);
    }
  }

  /** The digits after 0x give the number back; their count is even, from 2 to 8, with no more zeros than that needs. */
  lemma HexDecodes(v: nat, upper: bool)
    requires v < TWO32
    ensures HexValue(Hex(v, upper)) == v
    ensures |Hex(v, upper)| % 2 == 0 && 2 <= |Hex(v, upper)| <= 8
    ensures |Hex(v, upper)| > 2 ==> !(Hex(v, upper)[0] == ZERO && Hex(v, upper)[1] == ZERO)
  {
    assert Pow16(4) == 65536;
    assert Pow16(8) == TWO32;
    HexDigitsDecode(v, 8, upper);
    DropPairsDecodes(HexDigits(v, 8, upper), 3);
    DropPairsShape(HexDigits(v, 8, upper), 3);
  }

  method FormatHex(v: nat, letter: nat) returns (text: Text)
    requires v < TWO32 && (letter == 'x' as nat || letter == 'X' as nat)
    ensures text == Hex(v, letter == 'X' as nat)
  {
    var fstring := new nat[400](_ => 0);
    ghost var upper := letter == 'X' as nat;
    ghost var d := HexDigits(v, 8, upper);
    var j := 0;
    while j < 8
      invariant j <= 8 && forall k: nat :: k < j ==> fstring[k] == d[k]
    {
      HexDigitAt(v, 8, upper, j);
      fstring[j] := Shift(v, 7 - j) % 16 + 0x30;
      if fstring[j] > 0x39 { fstring[j] := fstring[j] + 7 + letter - 'X' as nat; }
      j := j + 1;
    }
    assert fstring[..8] == d;
    var part := 0;
    j := 0;
    while j < 3
      invariant j <= 3 && part == 2 * j && fstring[..8] == d
      invariant DropPairs(d, 3) == DropPairs(fstring[part..8], 3 - j)
    {
      assert fstring[part..8][2..] == fstring[part + 2..8];
      if fstring[2 * j] == ZERO && fstring[2 * j + 1] == ZERO { part := part + 2; } else { break; }
      j := j + 1;
    }
    text := fstring[part..8];
  }

  // ---- The renderer ----

  predicate IsNumeric(c: nat) { c == 'u' as nat || c == 'x' as nat || c == 'X' as nat || c == 'c' as nat }

  /** The format, from position i on, asks for these arguments in this order and does not end in a lone %. */
  predicate Suits(f: Text, i: nat, args: seq<Arg>)
    requires i <= |f|
    decreases |f| - i
  {
    if i == |f| then true
    else if f[i] != PERCENT then Suits(f, i + 1, args)
    else if i + 1 == |f| then false
    else if IsNumeric(f[i + 1]) then args != [] && args[0].Number? && args[0].value < TWO32
        && Suits(f, i + 2, args[1..])
    else if f[i + 1] == 's' as nat then args != [] && args[0].Words? && 0 !in args[0].text && Suits(f, i + 2, args[1..])
    else Suits(f, i + 2, args)
  }

  /** A character as a string: the terminator prints nothing. */
  function OneChar(c: nat): Text { if c == 0 then [] else [c] }

  /** What one conversion prints. */
  function Convert(c: nat, args: seq<Arg>): Text
    requires IsNumeric(c) ==> args != [] && args[0].Number?
    requires c == 's' as nat ==> args != [] && args[0].Words?
  {
    if c == PERCENT then [PERCENT]
    else if c == 'u' as nat then Decimal(args[0].value)
    else if c == 'x' as nat || c == 'X' as nat then ['0' as nat, 'x' as nat] + Hex(args[0].value, c == 'X' as nat)
    else if c == 'c' as nat then OneChar(args[0].value % 256)
    else if c == 's' as nat then args[0].text
    else [PERCENT, c]
  }

  function ArgsAfter(c: nat, args: seq<Arg>): seq<Arg>
    requires IsNumeric(c) || c == 's' as nat ==> args != []
  {
    if IsNumeric(c) || c == 's' as nat then args[1..] else args
  }

  function Render(f: Text, i: nat, args: seq<Arg>): Text
    requires i <= |f| && Suits(f, i, args)
    decreases |f| - i
  {
    if i == |f| then []
    else if f[i] != PERCENT then [f[i]] + Render(f, i + 1, args)
    else Convert(f[i + 1], args) + Render(f, i + 2, ArgsAfter(f[i + 1], args))
  }

  lemma RenderOne(f: Text, i: nat, args: seq<Arg>)
    requires i < |f| && Suits(f, i, args) && f[i] != PERCENT
    ensures Suits(f, i + 1, args) && Render(f, i, args) == [f[i]] + Render(f, i + 1, args)
  {
  }

  lemma {:induction false} RenderPlain(f: Text, i: nat, k: nat, args: seq<Arg>)
    requires i <= k <= |f| && Suits(f, i, args) && forall j: nat :: i <= j < k ==> f[j] != PERCENT
    ensures Suits(f, k, args) && Render(f, i, args) == f[i..k] + Render(f, k, args)
    decreases k - i
  {
    if i < k {
      RenderOne(f, i, args);
      RenderPlain(f, i + 1, k, args);
      OneInFront(f, i, k, Render(f, k, args));
    }
  }

  lemma OneInFront(f: Text, i: nat, k: nat, tail: Text)
    requires i < k <= |f|
    ensures [f[i]] + (f[i + 1..k] + tail) == f[i..k] + tail
  {
    assert f[i..k] == [f[i]] + f[i + 1..k];
  }

  // ---- printf ----

  /** write(stdout, s + from, 0): the characters up to the terminator. */
  method Write(s: array<nat>, from: nat, ghost end: nat) returns (written: Text)
    requires from <= end < s.Length && s[end] == 0 && forall k: nat :: from <= k < end ==> s[k] != 0
    ensures written == s[from..end]
  {
    var k := from;
    written := [];
    while s[k] != 0
      invariant from <= k <= end && written == s[from..k]
      decreases end - k
    {
      written := written + [s[k]];
      k := k + 1;
    }
  }

  /** The conversion switch; fstring holds one piece of output at a time. */
  method Conversion(c: nat, args: seq<Arg>) returns (text: Text)
    requires c != 0 && (IsNumeric(c) ==> args != [] && args[0].Number? && args[0].value < TWO32)
    requires c == 's' as nat ==> args != [] && args[0].Words?
    ensures text == Convert(c, args)
  {
    if c == PERCENT {
      text := [PERCENT];
    } else if c == 'u' as nat {
      text := FormatDecimal(args[0].value);
    } else if c == 'x' as nat || c == 'X' as nat {
      var digits := FormatHex(args[0].value, c);
      text := ['0' as nat, 'x' as nat] + digits;
    } else if c == 'c' as nat {
      var fstring := new nat[400](_ => 0);
      fstring[0] := args[0].value % 256;
      fstring[1] := 0;
      text := Write(fstring, 0, if fstring[0] == 0 then 0 else 1);
    } else if c == 's' as nat {
      text := args[0].text;
    } else {
      text := [PERCENT, c];
    }
  }

  /** A plain stretch: its end is overwritten with a terminator, the stretch written, and the end put back. */
  method WriteStretch(format: array<nat>, part: nat, i: nat) returns (written: Text)
    requires part <= i < format.Length && format[i] == PERCENT && forall k: nat :: part <= k < i ==> format[k] != 0
    modifies format
    ensures format[..] == old(format[..]) && written == old(format[part..i])
  {
    ghost var all := format[..];
    format[i] := 0;
    written := Write(format, part, i);
    assert format[part..i] == all[part..i];
    format[i] := PERCENT;
    assert format[..] == all;
  }

  /** A plain stretch and the conversion after it. */
  lemma RenderStep(f: Text, part: nat, i: nat, args: seq<Arg>)
    requires part <= i < |f| && Suits(f, part, args) && (forall j: nat :: part <= j < i ==> f[j] != PERCENT)
    requires f[i] == PERCENT
    ensures Suits(f, i, args) && i + 1 < |f|
    ensures var c := f[i + 1];
            && Ready(c, args) && Suits(f, i + 2, ArgsAfter(c, args))
            && Render(f, part, args) == f[part..i] + Convert(c, args) + Render(f, i + 2, ArgsAfter(c, args))
  {
    RenderPlain(f, part, i, args);
    RenderConversion(f, i, args);
    var c := f[i + 1];
    Regroup(f[part..i], Convert(c, args), Render(f, i + 2, ArgsAfter(c, args)));
  }

  lemma RenderConversion(f: Text, i: nat, args: seq<Arg>)
    requires i < |f| && Suits(f, i, args) && f[i] == PERCENT
    ensures i + 1 < |f| && Ready(f[i + 1], args) && Suits(f, i + 2, ArgsAfter(f[i + 1], args))
    ensures Render(f, i, args) == Convert(f[i + 1], args) + Render(f, i + 2, ArgsAfter(f[i + 1], args))
  {
  }

  /** What has been written, and what is left to write for the arguments left. */
  ghost predicate Pending(f: Text, args: seq<Arg>, out: Text, part: nat, rest: seq<Arg>) {
    && part <= |f| && Suits(f, 0, args) && Suits(f, part, rest)
    && Render(f, 0, args) == out + Render(f, part, rest)
  }

  /** The loop stands at position i of a plain stretch that began at part. */
  ghost predicate Scanning(f: Text, args: seq<Arg>, out: Text, part: nat, i: nat, rest: seq<Arg>) {
    Pending(f, args, out, part, rest) && part <= i <= |f| && forall j: nat :: part <= j < i ==> f[j] != PERCENT
  }

  lemma ScanPlain(f: Text, args: seq<Arg>, out: Text, part: nat, i: nat, rest: seq<Arg>)
    requires Scanning(f, args, out, part, i, rest) && i < |f| && f[i] != PERCENT
    ensures Scanning(f, args, out, part, i + 1, rest)
  {
  }

  lemma ScanEnd(f: Text, args: seq<Arg>, out: Text, part: nat, rest: seq<Arg>)
    requires Scanning(f, args, out, part, |f|, rest)
    ensures Render(f, 0, args) == out + f[part..|f|]
  {
    RenderPlain(f, part, |f|, rest);
  }

  /** The conversion the format asks for can be made with the arguments left. */
  ghost predicate Ready(c: nat, rest: seq<Arg>) {
    && (IsNumeric(c) ==> rest != [] && rest[0].Number? && rest[0].value < TWO32)
    && (c == 's' as nat ==> rest != [] && rest[0].Words?)
  }

  lemma Regroup(a: Text, b: Text, c: Text)
    ensures a + (b + c) == a + b + c
  {
  }

  lemma ScanDirective(f: Text, args: seq<Arg>, out: Text, part: nat, i: nat, rest: seq<Arg>)
    requires Scanning(f, args, out, part, i, rest) && i < |f| && f[i] == PERCENT
    ensures i + 1 < |f| && Ready(f[i + 1], rest)
    ensures Scanning(f, args, out + (f[part..i] + Convert(f[i + 1], rest)), i + 2, i + 2, ArgsAfter(f[i + 1], rest))
  {
    RenderStep(f, part, i, rest);
    var c := f[i + 1];
    Regroup(out, f[part..i] + Convert(c, rest), Render(f, i + 2, ArgsAfter(c, rest)));
  }

  /** The body of printf's loop at a %: the stretch before it and its conversion. */
  method Directive(format: array<nat>, part: nat, i: nat, rest: seq<Arg>, ghost n: nat)
    returns (text: Text, left: seq<Arg>)
    requires n < format.Length && 0 !in format[..n] && part <= i < n - 1 && format[i] == PERCENT
    requires Ready(format[i + 1], rest)
    modifies format
    ensures format[..] == old(format[..])
    ensures text == old(format[part..i]) + Convert(old(format[i + 1]), rest)
            && left == ArgsAfter(old(format[i + 1]), rest)
  {
    ghost var f := format[..n];
    assert forall k: nat :: k < n ==> format[k] == f[k] && f[k] in f;
    var c := format[i + 1];
    var plain := WriteStretch(format, part, i);
    var converted := Conversion(c, rest);
    text := plain + converted;
    left := if IsNumeric(c) || c == 's' as nat then rest[1..] else rest;
  }

  /** The write after the loop. */
  method WriteRest(format: array<nat>, part: nat, ghost n: nat) returns (written: Text)
    requires part <= n < format.Length && format[n] == 0 && 0 !in format[..n]
    ensures written == format[..n][part..n]
  {
    assert forall k: nat :: k < n ==> format[k] == format[..n][k] && format[..n][k] in format[..n];
    written := Write(format, part, n);
  }

  lemma Stretch(f: Text, all: Text, n: nat, part: nat, i: nat)
    requires part <= i <= n <= |all| && f == all[..n]
    ensures f[part..i] == all[part..i]
  {
  }

  lemma NoZeroBefore(f: Text, all: Text, n: nat, i: nat)
    requires i <= n < |all| && f == all[..n] && 0 !in f && all[i] == 0
    ensures i == n
  {
    assert forall k: nat :: k < n ==> all[k] == f[k] && f[k] in f;
  }

  /**
   printf writes exactly what the renderer says and leaves the format as it found it, although it ends each plain
   stretch by overwriting the % with a terminator for a moment.
   */
  method Printf(format: array<nat>, args: seq<Arg>, ghost n: nat) returns (out: Text)
    requires n < format.Length && format[n] == 0 && 0 !in format[..n]
    requires Suits(format[..n], 0, args)
    modifies format
    ensures out == Render(old(format[..n]), 0, args) && format[..] == old(format[..])
  {
    ghost var all, f := format[..], format[..n];
    out := [];
    var part, i, rest := 0, 0, args;
    while format[i] != 0
      invariant format[..] == all && Scanning(f, args, out, part, i, rest)
      decreases n - i
    {
      assert i < n && format[i] == f[i];
      if format[i] == PERCENT {
        ScanDirective(f, args, out, part, i, rest);
        assert f[i + 1] == format[i + 1];
        Stretch(f, all, n, part, i);
        assert format[part..i] == format[..][part..i];
        var text;
        text, rest := Directive(format, part, i, rest, n);
        out := out + text;
        i := i + 1;
        part := i + 1;
      } else {
        ScanPlain(f, args, out, part, i, rest);
      }
      i := i + 1;
    }
    NoZeroBefore(f, all, n, i);
    ScanEnd(f, args, out, part, rest);
    var plain := WriteRest(format, part, n);
    out := out + plain;
  }
}
