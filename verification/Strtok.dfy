/** strtok: the delimiters of a string are overwritten with terminators once, then the pieces are handed out in turn. */
module Strtok {
  import opened Least

  type Text = seq<nat>

  /** Positions [start, end) of a string. */
  datatype Segment = Segment(start: nat, end: nat)

  // ---- Specification ----

  /** The text with its delimiters replaced by zeros. */
  function Blank(s: Text, delim: Text): (b: Text)
    ensures |b| == |s|
  {
    seq(|s|, i requires 0 <= i < |s| => if s[i] in delim then 0 else s[i])
  }

  /** The first position from i on that is not zero, or the length. */
  function SkipZeros(b: Text, i: nat): (r: nat)
    requires i <= |b|
    ensures i <= r <= |b| && (r < |b| ==> b[r] != 0) && (forall k: nat :: i <= k < r ==> b[k] == 0)
    decreases |b| - i
  {
    if i == |b| || b[i] != 0 then i else SkipZeros(b, i + 1)
  }

  /** The first zero from i on, or the length. */
  function FindZero(b: Text, i: nat): (r: nat)
    requires i <= |b|
    ensures i <= r <= |b| && (r < |b| ==> b[r] == 0) && (forall k: nat :: i <= k < r ==> b[k] != 0)
    decreases |b| - i
  {
    if i == |b| || b[i] == 0 then i else FindZero(b, i + 1)
  }

  /** The stretches without zeros, from position i on. */
  function Segments(b: Text, i: nat): seq<Segment>
    requires i <= |b|
    decreases |b| - i
  {
    var s := SkipZeros(b, i);
    if s == |b| then [] else [Segment(s, FindZero(b, s))] + Segments(b, FindZero(b, s))
  }

  function Tokens(s: Text, delim: Text): seq<Segment> { Segments(Blank(s, delim), 0) }

  /** A maximal non-empty stretch of s without delimiters. */
  ghost predicate Maximal(s: Text, delim: Text, g: Segment) {
    && g.start < g.end <= |s|
    && (forall k: nat :: g.start <= k < g.end ==> s[k] !in delim)
    && (g.start > 0 ==> s[g.start - 1] in delim)
    && (g.end < |s| ==> s[g.end] in delim)
  }

  /** A maximal stretch of b without zeros. */
  ghost predicate Stretch(b: Text, g: Segment) {
    && g.start < g.end <= |b|
    && (forall k: nat :: g.start <= k < g.end ==> b[k] != 0)
    && (g.start > 0 ==> b[g.start - 1] == 0)
    && (g.end < |b| ==> b[g.end] == 0)
  }

  /** Positions the scan resumes from: the start of the text, its end, or a zero. */
  predicate Cut(b: Text, i: nat) { i <= |b| && (i == 0 || i == |b| || b[i] == 0) }

  lemma {:induction false} SegmentsAreStretches(b: Text, i: nat, x: nat)
    requires Cut(b, i) && x < |Segments(b, i)|
    ensures Stretch(b, Segments(b, i)[x]) && i <= Segments(b, i)[x].start
    decreases |b| - i
  {
    var s := SkipZeros(b, i);
    if x > 0 { SegmentsAreStretches(b, FindZero(b, s), x - 1); }
  }

  lemma {:induction false} SegmentsCover(b: Text, i: nat, k: nat)
    requires Cut(b, i) && i <= k < |b| && b[k] != 0
    ensures exists x: nat :: x < |Segments(b, i)| && Segments(b, i)[x].start <= k < Segments(b, i)[x].end
    decreases |b| - i
  {
    var s := SkipZeros(b, i);
    var e := FindZero(b, s);
    if k < e {
      assert Segments(b, i)[0] == Segment(s, e);
    } else {
      SegmentsCover(b, e, k);
      var x: nat :| x < |Segments(b, e)| && Segments(b, e)[x].start <= k < Segments(b, e)[x].end;
      assert Segments(b, i)[x + 1] == Segments(b, e)[x];
    }
  }

  lemma {:induction false} SegmentsInOrder(b: Text, i: nat, x: nat, y: nat)
    requires Cut(b, i) && x < y < |Segments(b, i)|
    ensures Segments(b, i)[x].end <= Segments(b, i)[y].start
    decreases |b| - i
  {
    var e := FindZero(b, SkipZeros(b, i));
    if x == 0 { SegmentsAreStretches(b, e, y - 1); } else { SegmentsInOrder(b, e, x - 1, y - 1); }
  }

  /** The tokens are exactly the maximal non-empty delimiter-free stretches, in order. */
  lemma TokensAreMaximal(s: Text, delim: Text)
    requires 0 !in s
    ensures forall g :: g in Tokens(s, delim) <==> Maximal(s, delim, g)
    ensures forall x: nat, y: nat :: x < y < |Tokens(s, delim)| ==> Tokens(s, delim)[x].end <= Tokens(s, delim)[y].start
  {
    var b := Blank(s, delim);
    var t := Tokens(s, delim);
    forall x: nat | x < |t| ensures Maximal(s, delim, t[x]) {
      SegmentsAreStretches(b, 0, x);
      BlankStretch(s, delim, t[x]);
    }
    forall g | Maximal(s, delim, g) ensures g in t {
      BlankStretch(s, delim, g);
      SegmentsCover(b, 0, g.start);
      var x: nat :| x < |t| && t[x].start <= g.start < t[x].end;
      SegmentsAreStretches(b, 0, x);
      SameStretch(b, g, t[x]);
    }
    forall x: nat, y: nat | x < y < |t| ensures t[x].end <= t[y].start { SegmentsInOrder(b, 0, x, y); }
  }

  lemma BlankStretch(s: Text, delim: Text, g: Segment)
    requires 0 !in s
    ensures Stretch(Blank(s, delim), g) <==> Maximal(s, delim, g)
  {
    var b := Blank(s, delim);
    forall k: nat | k < |s| ensures b[k] == 0 <==> s[k] in delim { assert s[k] in s; }
  }

  /** Two maximal stretches that meet are one. */
  lemma SameStretch(b: Text, g: Segment, h: Segment)
    requires Stretch(b, g) && Stretch(b, h) && h.start <= g.start < h.end
    ensures g == h
  {
    assert !(h.start < g.start) && !(g.end < h.end) && !(h.end < g.end);
  }

  /** Blanking leaves every character that is no delimiter as it was, and puts a zero for the others. */
  lemma BlankKeepsText(s: Text, delim: Text, i: nat)
    requires i < |s|
    ensures s[i] !in delim ==> Blank(s, delim)[i] == s[i]
    ensures s[i] in delim ==> Blank(s, delim)[i] == 0
  {
  }

  /** From the start of a token on, the blanked text is the token's own text and then a zero or the end. */
  lemma TokenKeepsText(s: Text, delim: Text, g: Segment)
    requires 0 !in s && g in Tokens(s, delim)
    ensures g.start < g.end <= |s| && Blank(s, delim)[g.start..g.end] == s[g.start..g.end]
    ensures 0 !in s[g.start..g.end] && (g.end < |s| ==> Blank(s, delim)[g.end] == 0)
  {
    TokensAreMaximal(s, delim);
    assert Maximal(s, delim, g);
    forall i: nat | i < |s| ensures s[i] !in delim ==> Blank(s, delim)[i] == s[i] { BlankKeepsText(s, delim, i); }
  }

  /** Where each token of s starts, w holds the token's own text up to a terminator. */
  ghost predicate TokensStand(w: Text, s: Text, delim: Text) {
    forall g :: g in Tokens(s, delim) ==>
      && g.start < g.end <= |s| && g.end < |w| && w[g.start..g.end] == s[g.start..g.end]
      && 0 !in s[g.start..g.end] && w[g.end] == 0
  }

  lemma BlankedTokensStand(w: Text, s: Text, delim: Text)
    requires 0 !in s && |s| < |w| && w[..|s|] == Blank(s, delim) && w[|s|] == 0
    ensures TokensStand(w, s, delim)
  {
    forall g | g in Tokens(s, delim)
      ensures g.start < g.end <= |s| && w[g.start..g.end] == s[g.start..g.end] && 0 !in s[g.start..g.end]
      ensures w[g.end] == 0
    {
      TokenKeepsText(s, delim, g);
      assert w[g.start..g.end] == w[..|s|][g.start..g.end];
      if g.end < |s| { assert w[g.end] == w[..|s|][g.end]; }
    }
  }

  // ---- The code ----

  /** A terminated string of n characters with a readable word after the terminator. */
  ghost predicate IsString(a: array<nat>, n: nat)
    reads a
  {
    n + 2 <= a.Length && a[n] == 0 && forall i: nat :: i < n ==> a[i] != 0
  }

  method Strlen(a: array<nat>, from: nat, ghost limit: nat) returns (length: nat)
    requires from <= limit < a.Length && a[limit] == 0
    ensures from + length <= limit && a[from + length] == 0 && forall k: nat :: from <= k < from + length ==> a[k] != 0
  {
    length := 0;
    while a[from + length] != 0
      invariant from + length <= limit
      invariant forall k: nat :: from <= k < from + length ==> a[k] != 0
      decreases limit - length
    {
      length := length + 1;
    }
  }

  /** The two static pointers of strtok, into the string it was last given. */
  class Tokenizer {
    var str: array<nat>
    var token: Option<nat>
    var strEnd: nat

    ghost predicate Valid()
      reads this, str
    {
      && strEnd + 2 <= str.Length && str[strEnd] == 0
      && (token.Some? ==> token.value < strEnd && str[token.value] != 0)
    }

    /** The current token and those after it. */
    ghost function Rest(): seq<Segment>
      requires Valid()
      reads this, str
    {
      if token.None? then [] else Segments(str[..strEnd], token.value)
    }

    constructor ()
      ensures Valid() && token.None?
    {
      str := new nat[2](_ => 0);
      token, strEnd := None, 0;
    }

    /** Overwrites the delimiters; j runs over the delimiters for each character as in the source. */
    method BlankDelimiters(a: array<nat>, delim: Text, ghost n: nat)
      requires IsString(a, n) && 0 !in delim
      modifies a
      ensures a[n] == 0 && a[..n] == Blank(old(a[..n]), delim)
    {
      ghost var s, b := a[..n], Blank(a[..n], delim);
      var i := 0;
      while a[i] != 0
        invariant i <= n && a[n] == 0
        invariant forall k: nat :: k < i ==> a[k] == b[k]
        invariant forall k: nat :: i <= k < n ==> a[k] == s[k] && a[k] != 0
        decreases n - i
      {
        var j := 0;
        while j < |delim|
          invariant j <= |delim| && a[n] == 0
          invariant forall k: nat :: k < i ==> a[k] == b[k]
          invariant forall k: nat :: i < k < n ==> a[k] == s[k] && a[k] != 0
          invariant a[i] == if s[i] in delim[..j] then 0 else s[i]
        {
          if a[i] == delim[j] { a[i] := 0; }
          j := j + 1;
        }
        assert delim[..j] == delim;
        i := i + 1;
      }
      assert i == n;
    }

    /** The last lines of strtok: move over terminators to the next token or to the end. */
    method Settle(from: nat) returns (t: Option<nat>)
      requires strEnd + 2 <= str.Length && str[strEnd] == 0 && from <= strEnd + 1
      modifies this`token
      ensures Valid() && t == token
      ensures from <= strEnd ==> Rest() == Segments(str[..strEnd], from)
      ensures from > strEnd ==> token.None?
    {
      var p := from;
      while str[p] == 0 && p < strEnd
        invariant from <= p <= strEnd + 1
        invariant from <= strEnd ==> p <= strEnd
        invariant forall k: nat :: from <= k < p ==> str[k] == 0
        decreases strEnd + 1 - p
      {
        p := p + 1;
      }
      if p >= strEnd { token := None; } else { token := Some(p); }
      t := token;
      if from <= strEnd { SettleAt(str[..strEnd], from, p); }
    }

    /** strtok(str, delim) with a string. */
    method First(a: array<nat>, delim: Text, ghost n: nat) returns (t: Option<nat>)
      requires IsString(a, n) && 0 !in delim
      modifies this, a
      ensures Valid() && str == a && strEnd == n && t == token
      ensures a[..n] == Blank(old(a[..n]), delim) && Rest() == Tokens(old(a[..n]), delim)
    {
      ghost var s := a[..n];
      str := a;
      strEnd := Strlen(a, 0, n);
      BlankDelimiters(a, delim, n);
      t := Settle(0);
    }

    /** strtok(NULL, delim). */
    method Again() returns (t: Option<nat>)
      requires Valid()
      modifies this`token
      ensures Valid() && t == token
      ensures old(token).None? ==> t.None?
      ensures old(token).Some? ==> old(Rest()) != [] && Rest() == old(Rest())[1..]
    {
      if token.None? { return None; }
      var length := Strlen(str, token.value, strEnd);
      AfterToken(str[..strEnd], token.value, token.value + length);
      t := SettleAfter(token.value + length);
    }

    /** The token after the terminator at a position. */
    method SettleAfter(end: nat) returns (t: Option<nat>)
      requires strEnd + 2 <= str.Length && str[strEnd] == 0 && end <= strEnd
      modifies this`token
      ensures Valid() && t == token
      ensures Rest() == if end < strEnd then Segments(str[..strEnd], end + 1) else []
    {
      t := Settle(end + 1);
    }
  }

  lemma {:induction false} SettleAt(b: Text, from: nat, p: nat)
    requires from <= p <= |b| && (forall k: nat :: from <= k < p ==> b[k] == 0) && (p < |b| ==> b[p] != 0)
    ensures SkipZeros(b, from) == p
    ensures Segments(b, from) == if p == |b| then [] else Segments(b, p)
    decreases p - from
  {
    if from < p { SettleAt(b, from + 1, p); }
  }

  lemma TokenEnd(b: Text, start: nat, end: nat)
    requires start < end <= |b| && (forall k: nat :: start <= k < end ==> b[k] != 0) && (end < |b| ==> b[end] == 0)
    ensures Segments(b, start) == [Segment(start, end)] + Segments(b, end)
  {
    assert SkipZeros(b, start) == start;
    var e := FindZero(b, start);
    assert !(e < end) && !(end < e);
  }

  /** Past a token and the zero after it, if there is one, lie the other tokens. */
  lemma TokenAndGap(b: Text, start: nat, end: nat)
    requires start < end <= |b| && (forall k: nat :: start <= k < end ==> b[k] != 0) && (end < |b| ==> b[end] == 0)
    ensures Segments(b, start) != [] && Segments(b, start)[1..] == Segments(b, if end < |b| then end + 1 else end)
  {
    TokenEnd(b, start, end);
    if end < |b| { SkipOneZero(b, end); }
    var rest := Segments(b, if end < |b| then end + 1 else end);
    assert ([Segment(start, end)] + rest)[1..] == rest;
  }

  lemma AfterToken(b: Text, start: nat, end: nat)
    requires start < end <= |b| && (forall k: nat :: start <= k < end ==> b[k] != 0) && (end < |b| ==> b[end] == 0)
    ensures Segments(b, start) != []
    ensures Segments(b, start)[1..] == if end < |b| then Segments(b, end + 1) else []
  {
    TokenAndGap(b, start, end);
    assert Segments(b, |b|) == [];
  }

  lemma SkipOneZero(b: Text, i: nat)
    requires i < |b| && b[i] == 0
    ensures Segments(b, i) == Segments(b, i + 1)
  {
    assert SkipZeros(b, i) == SkipZeros(b, i + 1);
  }

  /**
   Calling strtok with a string and then NULL until it returns NULL: every token, in order, and where each starts the
   array holds the token's own text up to a terminator.
   */
  method AllTokens(tok: Tokenizer, a: array<nat>, delim: Text, ghost n: nat) returns (starts: seq<nat>)
    requires IsString(a, n) && 0 !in delim
    modifies tok, a
    ensures tok.Valid() && tok.token.None?
    ensures |starts| == |Tokens(old(a[..n]), delim)|
    ensures forall k: nat :: k < |starts| ==> starts[k] == Tokens(old(a[..n]), delim)[k].start
    ensures TokensStand(a[..], old(a[..n]), delim)
  {
    ghost var s, all := a[..n], Tokens(a[..n], delim);
    assert 0 !in s;
    starts := [];
    var t := tok.First(a, delim, n);
    ghost var w := a[..];
    assert w[..n] == a[..n];
    BlankedTokensStand(w, s, delim);
    while t.Some?
      invariant tok.Valid() && t == tok.token && tok.str == a && a[..] == w
      invariant |starts| <= |all| && tok.Rest() == all[|starts|..]
      invariant forall k: nat :: k < |starts| ==> starts[k] == all[k].start
      decreases |all| - |starts|
    {
      SettleAt(tok.str[..tok.strEnd], t.value, t.value);
      assert tok.Rest()[0].start == t.value;
      starts := starts + [t.value];
      t := tok.Again();
    }
  }
}
