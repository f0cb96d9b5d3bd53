/** The accepted spellings of a MAC address and the two forms a search looks for. */
module MacAddress {

  // ---- Characters --------------------------------------------------------------------------------------------------

  function LowerChar(c: char): char {
    if 'A' <= c <= 'Z' then (c as int + 32) as char else c
  }

  function Lower(s: string): (r: string)
    ensures |r| == |s|
    ensures forall i :: 0 <= i < |s| ==> r[i] == LowerChar(s[i])
  {
    seq(|s|, i requires 0 <= i < |s| => LowerChar(s[i]))
  }

  predicate IsLowerHex(c: char) {
    '0' <= c <= '9' || 'a' <= c <= 'f'
  }

  /** A hex digit of either case. */
  predicate IsHex(c: char) {
    IsLowerHex(LowerChar(c))
  }

  // ---- MacRe -------------------------------------------------------------------------------------------------------

  /** Six pairs of hex digits with a colon or a hyphen between them. */
  predicate IsPairs(s: string) {
    |s| == 17 && forall i :: 0 <= i < 17 ==> if i % 3 == 2 then s[i] == ':' || s[i] == '-' else IsHex(s[i])
  }

  /** Three groups of four hex digits with dots between them. */
  predicate IsDotted(s: string) {
    |s| == 14 && forall i :: 0 <= i < 14 ==> if i == 4 || i == 9 then s[i] == '.' else IsHex(s[i])
  }

  predicate IsBare(s: string) {
    |s| == 12 && forall i :: 0 <= i < 12 ==> IsHex(s[i])
  }

  predicate MacRe(s: string) {
    IsPairs(s) || IsDotted(s) || IsBare(s)
  }

  // ---- normalizeMac --------------------------------------------------------------------------------------------------

  /** The hex digits of an already lower-cased string. */
  function HexOf(s: string): string {
    if s == "" then ""
    else HexOf(s[..|s| - 1]) + if IsLowerHex(s[|s| - 1]) then [s[|s| - 1]] else ""
  }

  /** The address a string spells: its hex digits, ignoring case. */
  function Digits(s: string): string {
    HexOf(Lower(s))
  }

  function Colon(h: string): string
    requires |h| == 12
  {
    [h[0], h[1], ':', h[2], h[3], ':', h[4], h[5], ':', h[6], h[7], ':', h[8], h[9], ':', h[10], h[11]]
  }

  function Dot(h: string): string
    requires |h| == 12
  {
    [h[0], h[1], h[2], h[3], '.', h[4], h[5], h[6], h[7], '.', h[8], h[9], h[10], h[11]]
  }

  function Normal(s: string): seq<string> {
    var h := Digits(s);
    if |h| != 12 then [Lower(s)] else [Colon(h), Dot(h)]
  }

  method NormalizeMac(s: string) returns (forms: seq<string>)
    ensures forms == Normal(s)
  {
    var lowered := Lower(s);
    var b := "";
    for i := 0 to |lowered|
      invariant b == HexOf(lowered[..i])
    {
      assert lowered[..i + 1][..i] == lowered[..i];
      if IsLowerHex(lowered[i]) {
        b := b + [lowered[i]];
      }
    }
    assert lowered[..|lowered|] == lowered;
    if |b| != 12 {
      return [lowered];
    }
    return [Colon(b), Dot(b)];
  }

  // ---- Accepted strings have twelve digits ---------------------------------------------------------------------------

  lemma {:induction false} HexOfAppend(a: string, b: string)
    ensures HexOf(a + b) == HexOf(a) + HexOf(b)
  {
    if b == "" {
      assert a + b == a;
    } else {
      assert (a + b)[..|a + b| - 1] == a + b[..|b| - 1];
      HexOfAppend(a, b[..|b| - 1]);
    }
  }

  ghost predicate AllLowerHex(s: string) {
    forall i :: 0 <= i < |s| ==> IsLowerHex(s[i])
  }

  lemma {:induction false} HexOfHex(s: string)
    requires AllLowerHex(s)
    ensures HexOf(s) == s
  {
    if s != "" {
      HexOfHex(s[..|s| - 1]);
    }
  }

  lemma HexOfSeparator(c: char)
    requires !IsLowerHex(c)
    ensures HexOf([c]) == ""
  {
    assert [c][..0] == "";
  }

  /** A run of digits, a separator, and the rest. */
  lemma TakeGroup(t: string, from: nat, n: nat)
    requires from + n < |t| && AllLowerHex(t[from..from + n]) && !IsLowerHex(t[from + n])
    ensures HexOf(t[from..]) == t[from..from + n] + HexOf(t[from + n + 1..])
  {
    var group, c, rest := t[from..from + n], t[from + n], t[from + n + 1..];
    assert t[from..] == group + [c] + rest;
    HexOfAppend(group + [c], rest);
    HexOfAppend(group, [c]);
    HexOfHex(group);
    HexOfSeparator(c);
  }

  lemma TakeLastGroup(t: string, from: nat)
    requires from <= |t| && AllLowerHex(t[from..])
    ensures HexOf(t[from..]) == t[from..]
  {
    HexOfHex(t[from..]);
  }

  /** What MacRe asks of the lower-cased string. */
  lemma LoweredPairs(s: string)
    requires IsPairs(s)
    ensures |Lower(s)| == 17
    ensures forall i :: 0 <= i < 17 ==> if i % 3 == 2 then !IsLowerHex(Lower(s)[i]) else IsLowerHex(Lower(s)[i])
  {
  }

  lemma LastThreePairs(s: string)
    requires IsPairs(s)
    ensures var t := Lower(s); HexOf(t[9..]) == t[9..11] + (t[12..14] + t[15..17])
  {
    var t := Lower(s);
    LoweredPairs(s);
    assert t[15..] == t[15..17];
    TakeGroup(t, 9, 2);
    TakeGroup(t, 12, 2);
    TakeLastGroup(t, 15);
  }

  lemma PairsDigits(s: string)
    requires IsPairs(s)
    ensures var t := Lower(s);
            Digits(s) == t[0..2] + (t[3..5] + (t[6..8] + (t[9..11] + (t[12..14] + t[15..17]))))
  {
    var t := Lower(s);
    LoweredPairs(s);
    assert t[0..] == t;
    TakeGroup(t, 0, 2);
    TakeGroup(t, 3, 2);
    TakeGroup(t, 6, 2);
    LastThreePairs(s);
  }

  lemma DottedDigits(s: string)
    requires IsDotted(s)
    ensures var t := Lower(s); Digits(s) == t[0..4] + (t[5..9] + t[10..14])
  {
    var t := Lower(s);
    assert t[0..] == t && t[10..] == t[10..14];
    TakeGroup(t, 0, 4);
    TakeGroup(t, 5, 4);
    TakeLastGroup(t, 10);
  }

  lemma BareDigits(s: string)
    requires IsBare(s)
    ensures Digits(s) == Lower(s)
  {
    HexOfHex(Lower(s));
  }

  /** Every accepted string has exactly twelve hex digits, so it always yields two forms. */
  lemma AcceptedHasTwelveDigits(s: string)
    requires MacRe(s)
    ensures |Digits(s)| == 12 && AllLowerHex(Digits(s))
    ensures Normal(s) == [Colon(Digits(s)), Dot(Digits(s))]
  {
    if IsPairs(s) {
      PairsDigits(s);
    } else if IsDotted(s) {
      DottedDigits(s);
    } else {
      BareDigits(s);
    }
    HexOfIsHex(Lower(s));
  }

  lemma {:induction false} HexOfIsHex(s: string)
    ensures AllLowerHex(HexOf(s))
  {
    if s != "" {
      HexOfIsHex(s[..|s| - 1]);
    }
  }

  // ---- Normal forms ----------------------------------------------------------------------------------------------------

  /** The digits of a colon form, read back. */
  function Uncolon(c: string): string
    requires |c| == 17
  {
    [c[0], c[1], c[3], c[4], c[6], c[7], c[9], c[10], c[12], c[13], c[15], c[16]]
  }

  function Undot(c: string): string
    requires |c| == 14
  {
    [c[0], c[1], c[2], c[3], c[5], c[6], c[7], c[8], c[10], c[11], c[12], c[13]]
  }

  lemma ReadBack(h: string)
    requires |h| == 12
    ensures Uncolon(Colon(h)) == h && Undot(Dot(h)) == h
  {
  }

  /** Two accepted strings have the same forms exactly when they spell the same address, and strings that spell
      different addresses have no form in common. */
  lemma SameFormsIffSameAddress(a: string, b: string)
    requires MacRe(a) && MacRe(b)
    ensures Normal(a) == Normal(b) <==> Digits(a) == Digits(b)
    ensures Digits(a) != Digits(b) ==> forall f :: !(f in Normal(a) && f in Normal(b))
  {
    AcceptedHasTwelveDigits(a);
    AcceptedHasTwelveDigits(b);
    var g, h := Digits(a), Digits(b);
    ReadBack(g);
    ReadBack(h);
    assert |Colon(g)| == |Colon(h)| == 17 && |Dot(g)| == |Dot(h)| == 14;
  }

  lemma ColonAt(h: string, i: nat)
    requires |h| == 12 && i < 17
    ensures Colon(h)[i] == if i % 3 == 2 then ':' else h[i - (i + 1) / 3]
  {
  }

  lemma DotAt(h: string, i: nat)
    requires |h| == 12 && i < 14
    ensures Dot(h)[i] == if i == 4 || i == 9 then '.' else h[i - (i + 1) / 5]
  {
  }

  lemma ColonShape(h: string)
    requires |h| == 12 && AllLowerHex(h)
    ensures IsPairs(Colon(h)) && Lower(Colon(h)) == Colon(h)
  {
    ghost var form := Colon;
    var c := form(h);
    forall i: nat | i < 17
      ensures LowerChar(c[i]) == c[i]
      ensures if i % 3 == 2 then c[i] == ':' else IsLowerHex(c[i])
    {
      ColonAt(h, i);
    }
  }

  lemma DotShape(h: string)
    requires |h| == 12 && AllLowerHex(h)
    ensures IsDotted(Dot(h)) && Lower(Dot(h)) == Dot(h)
  {
    ghost var form := Dot;
    var c := form(h);
    forall i: nat | i < 14
      ensures LowerChar(c[i]) == c[i]
      ensures if i == 4 || i == 9 then c[i] == '.' else IsLowerHex(c[i])
    {
      DotAt(h, i);
    }
  }

  lemma ColonSpells(h: string)
    requires |h| == 12 && AllLowerHex(h)
    ensures Digits(Colon(h)) == h
  {
    var c := Colon(h);
    ColonShape(h);
    PairsDigits(c);
    assert c[0..2] == h[0..2] && c[3..5] == h[2..4] && c[6..8] == h[4..6];
    assert c[9..11] == h[6..8] && c[12..14] == h[8..10] && c[15..17] == h[10..12];
    assert h == h[0..2] + (h[2..4] + (h[4..6] + (h[6..8] + (h[8..10] + h[10..12]))));
  }

  lemma DotSpells(h: string)
    requires |h| == 12 && AllLowerHex(h)
    ensures Digits(Dot(h)) == h
  {
    var d := Dot(h);
    DotShape(h);
    DottedDigits(d);
    assert d[0..4] == h[0..4] && d[5..9] == h[4..8] && d[10..14] == h[8..12];
    assert h == h[0..4] + (h[4..8] + h[8..12]);
  }

  /** Both forms are accepted again, spell the same address, and normalise to the same pair. */
  lemma FormsAreFixed(s: string)
    requires MacRe(s)
    ensures forall f :: f in Normal(s) ==> MacRe(f) && Digits(f) == Digits(s) && Normal(f) == Normal(s)
  {
    AcceptedHasTwelveDigits(s);
    var h := Digits(s);
    ColonShape(h);
    ColonSpells(h);
    DotShape(h);
    DotSpells(h);
  }

  lemma LoweredColon(t: string, h: string)
    requires |t| == 17 && forall i :: 0 <= i < 17 && i % 3 == 2 ==> t[i] == ':'
    requires h == t[0..2] + (t[3..5] + (t[6..8] + (t[9..11] + (t[12..14] + t[15..17]))))
    ensures |h| == 12 && Colon(h) == t
  {
    assert h[0..2] == t[0..2] && h[2..4] == t[3..5] && h[4..6] == t[6..8];
    assert h[6..8] == t[9..11] && h[8..10] == t[12..14] && h[10..12] == t[15..17];
  }

  lemma LoweredDot(t: string, h: string)
    requires |t| == 14 && t[4] == '.' && t[9] == '.'
    requires h == t[0..4] + (t[5..9] + t[10..14])
    ensures |h| == 12 && Dot(h) == t
  {
    assert h[0..4] == t[0..4] && h[4..8] == t[5..9] && h[8..12] == t[10..14];
  }

  /** Colon form in any letter case. */
  predicate IsColonForm(w: string) {
    IsPairs(w) && forall i :: 0 <= i < 17 && i % 3 == 2 ==> w[i] == ':'
  }

  /** An accepted spelling is, lower-cased, one of the forms looked for exactly when it is in colon form or in
      dotted form, in whatever letter case: hyphens and bare digits are accepted in a query but would not be
      found in a table. */
  lemma SpellingIsAFormIff(w: string)
    requires MacRe(w)
    ensures Lower(w) in Normal(w) <==> IsColonForm(w) || IsDotted(w)
  {
    AcceptedHasTwelveDigits(w);
    if IsColonForm(w) {
      PairsDigits(w);
      LoweredColon(Lower(w), Digits(w));
    } else if IsDotted(w) {
      DottedDigits(w);
      LoweredDot(Lower(w), Digits(w));
    } else if IsPairs(w) {
      ColonSeparators(Digits(w));
      var i :| 0 <= i < 17 && i % 3 == 2 && w[i] != ':';
      assert Lower(w)[i] != ':';
    }
  }

  lemma ColonSeparators(h: string)
    requires |h| == 12
    ensures |Colon(h)| == 17 && |Dot(h)| == 14
    ensures forall i :: 0 <= i < 17 && i % 3 == 2 ==> Colon(h)[i] == ':'
  {
    var c := Colon(h);
    assert c[2] == ':' && c[5] == ':' && c[8] == ':' && c[11] == ':' && c[14] == ':';
  }
}
