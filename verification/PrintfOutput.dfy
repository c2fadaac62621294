/**
 What printf prints, conversion by conversion: for every plain text before it, every format after it and all the
 arguments that format asks for.
 */
module PrintfOutput {
  import opened Limits
  import opened Printf

  /** A plain text, a conversion, and the rest of a format. */
  function Format(a: Text, c: nat, b: Text): Text { a + ([PERCENT, c] + b) }

  /** What stands before a format changes neither the arguments it asks for nor what it prints. */
  lemma {:induction false} SuffixRenders(a: Text, b: Text, i: nat, args: seq<Arg>)
    requires i <= |b|
    ensures Suits(a + b, |a| + i, args) <==> Suits(b, i, args)
    ensures Suits(b, i, args) ==> Render(a + b, |a| + i, args) == Render(b, i, args)
    decreases |b| - i
  {
    if i < |b| {
      assert (a + b)[|a| + i] == b[i];
      if b[i] != PERCENT {
        SuffixRenders(a, b, i + 1, args);
      } else if i + 1 < |b| {
        assert (a + b)[|a| + i + 1] == b[i + 1];
        if IsNumeric(b[i + 1]) || b[i + 1] == 's' as nat {
          if args != [] { SuffixRenders(a, b, i + 2, args[1..]); }
        } else {
          SuffixRenders(a, b, i + 2, args);
        }
      }
    }
  }

  lemma {:induction false} PlainSuits(f: Text, i: nat, k: nat, args: seq<Arg>)
    requires i <= k <= |f| && Suits(f, k, args) && forall j: nat :: i <= j < k ==> f[j] != PERCENT
    ensures Suits(f, i, args)
    decreases k - i
  {
    if i < k { PlainSuits(f, i + 1, k, args); }
  }

  /** The argument a conversion asks for. */
  predicate Takes(c: nat, args: seq<Arg>) {
    && (IsNumeric(c) ==> args != [] && args[0].Number? && args[0].value < TWO32)
    && (c == 's' as nat ==> args != [] && args[0].Words? && 0 !in args[0].text)
  }

  lemma OneConversion(a: Text, c: nat, b: Text, args: seq<Arg>)
    requires PERCENT !in a && Takes(c, args) && Suits(b, 0, ArgsAfter(c, args))
    ensures Suits(Format(a, c, b), 0, args)
    ensures Render(Format(a, c, b), 0, args) == a + Convert(c, args) + Render(b, 0, ArgsAfter(c, args))
  {
    var f, rest := Format(a, c, b), ArgsAfter(c, args);
    assert f == (a + [PERCENT, c]) + b;
    SuffixRenders(a + [PERCENT, c], b, 0, rest);
    assert f[|a|] == PERCENT && f[|a| + 1] == c;
    assert Suits(f, |a|, args);
    forall j: nat | j < |a| ensures f[j] != PERCENT { assert f[j] == a[j] && a[j] in a; }
    PlainSuits(f, 0, |a|, args);
    RenderStep(f, 0, |a|, args);
    assert f[0..|a|] == a;
  }

  /** A format without conversions is printed as it is. */
  lemma PlainPrints(a: Text, args: seq<Arg>)
    requires PERCENT !in a
    ensures Suits(a, 0, args) && Render(a, 0, args) == a
  {
    forall j: nat | j < |a| ensures a[j] != PERCENT { assert a[j] in a; }
    PlainSuits(a, 0, |a|, args);
    RenderPlain(a, 0, |a|, args);
    assert a[0..|a|] == a && Render(a, |a|, args) == [] && a + [] == a;
  }

  /** %s prints its argument. */
  lemma StringPrints(a: Text, b: Text, text: Text, rest: seq<Arg>)
    requires PERCENT !in a && 0 !in text && Suits(b, 0, rest)
    ensures var f, args := Format(a, 's' as nat, b), [Words(text)] + rest;
            Suits(f, 0, args) && Render(f, 0, args) == a + text + Render(b, 0, rest)
  {
    assert ([Words(text)] + rest)[1..] == rest;
    OneConversion(a, 's' as nat, b, [Words(text)] + rest);
  }

  /** %c prints the low byte of its argument, unless that is the terminator. */
  lemma CharPrints(a: Text, b: Text, value: nat, rest: seq<Arg>)
    requires PERCENT !in a && value < TWO32 && Suits(b, 0, rest)
    ensures var f, args := Format(a, 'c' as nat, b), [Number(value)] + rest;
            && Suits(f, 0, args)
            && Render(f, 0, args) == a + (if value % 256 == 0 then [] else [value % 256]) + Render(b, 0, rest)
  {
    assert ([Number(value)] + rest)[1..] == rest;
    OneConversion(a, 'c' as nat, b, [Number(value)] + rest);
  }

  /** %% prints one percent sign. */
  lemma PercentPrints(a: Text, b: Text, rest: seq<Arg>)
    requires PERCENT !in a && Suits(b, 0, rest)
    ensures var f := Format(a, '%' as nat, b);
            Suits(f, 0, rest) && Render(f, 0, rest) == a + ['%' as nat] + Render(b, 0, rest)
  {
    OneConversion(a, PERCENT, b, rest);
  }

  predicate Unknown(c: nat) {
    c != '%' as nat && c != 'u' as nat && c != 'x' as nat && c != 'X' as nat && c != 'c' as nat && c != 's' as nat
  }

  /** An unknown letter is printed after its percent sign. */
  lemma UnknownPrints(a: Text, c: nat, b: Text, rest: seq<Arg>)
    requires PERCENT !in a && Unknown(c) && Suits(b, 0, rest)
    ensures var f := Format(a, c, b);
            Suits(f, 0, rest) && Render(f, 0, rest) == a + ['%' as nat, c] + Render(b, 0, rest)
  {
    OneConversion(a, c, b, rest);
  }

  /** %u prints decimal digits that give the argument back, without a zero in front of others. */
  lemma UnsignedPrints(a: Text, b: Text, value: nat, rest: seq<Arg>) returns (digits: Text)
    requires PERCENT !in a && value < TWO32 && Suits(b, 0, rest)
    ensures var f, args := Format(a, 'u' as nat, b), [Number(value)] + rest;
            Suits(f, 0, args) && Render(f, 0, args) == a + digits + Render(b, 0, rest)
    ensures digits != [] && DecimalValue(digits) == value && (digits[0] == '0' as nat ==> digits == ['0' as nat])
    ensures forall k: nat :: k < |digits| ==> '0' as nat <= digits[k] <= '9' as nat
  {
    digits := Decimal(value);
    assert ([Number(value)] + rest)[1..] == rest;
    OneConversion(a, 'u' as nat, b, [Number(value)] + rest);
    DecimalDecodes(value);
  }

  /** A hexadecimal digit, its letters in one case. */
  predicate IsHexDigit(c: nat, upper: bool) {
    || '0' as nat <= c <= '9' as nat
    || (if upper then 'A' as nat <= c <= 'F' as nat else 'a' as nat <= c <= 'f' as nat)
  }

  lemma HexDigitsAreDigits(v: nat, upper: bool)
    ensures forall k: nat :: k < |Hex(v, upper)| ==> IsHexDigit(Hex(v, upper)[k], upper)
  {
    var d := HexDigits(v, 8, upper);
    forall k: nat | k < |d| ensures IsHexDigit(d[k], upper) { HexDigitAt(v, 8, upper, k); }
    DropPairsKeeps(d, 3, upper);
  }

  lemma {:induction false} DropPairsKeeps(s: Text, n: nat, upper: bool)
    requires forall k: nat :: k < |s| ==> IsHexDigit(s[k], upper)
    ensures forall k: nat :: k < |DropPairs(s, n)| ==> IsHexDigit(DropPairs(s, n)[k], upper)
    decreases n
  {
    if n > 0 && |s| >= 2 && s[0] == ZERO && s[1] == ZERO { DropPairsKeeps(s[2..], n - 1, upper); }
  }

  /** %x and %X print 0x and an even number of digits that give the argument back, in the letters of their own case. */
  lemma HexPrints(a: Text, b: Text, value: nat, upper: bool, rest: seq<Arg>) returns (digits: Text)
    requires PERCENT !in a && value < TWO32 && Suits(b, 0, rest)
    ensures var f, args := Format(a, if upper then 'X' as nat else 'x' as nat, b), [Number(value)] + rest;
            && Suits(f, 0, args)
            && Render(f, 0, args) == a + (['0' as nat, 'x' as nat] + digits) + Render(b, 0, rest)
    ensures HexValue(digits) == value && |digits| % 2 == 0 && 2 <= |digits| <= 8
    ensures |digits| > 2 ==> !(digits[0] == '0' as nat && digits[1] == '0' as nat)
    ensures forall k: nat :: k < |digits| ==> IsHexDigit(digits[k], upper)
  {
    digits := Hex(value, upper);
    assert ([Number(value)] + rest)[1..] == rest;
    OneConversion(a, if upper then 'X' as nat else 'x' as nat, b, [Number(value)] + rest);
    HexDecodes(value, upper);
    HexDigitsAreDigits(value, upper);
  }
}
