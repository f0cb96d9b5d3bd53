/** The three regular expressions that classify a search term, and the proof that the handler's tests are what
    they match. */
module Patterns {
  import opened Options
  import opened MacAddress
  import opened SearchHandler

  // ---- Matching --------------------------------------------------------------------------------------------------

  type CharClass = char -> bool

  /** Characters of one class, `low` of them at least and `high` at most. */
  datatype Piece = Piece(chars: CharClass, low: nat, high: Option<nat>)

  type Pattern = seq<Piece>

  ghost predicate AllIn(s: string, chars: CharClass) {
    forall i :: 0 <= i < |s| ==> chars(s[i])
  }

  ghost predicate Takes(p: Piece, s: string, n: int) {
    p.low <= n <= |s| && (p.high.Some? ==> n <= p.high.value) && AllIn(s[..n], p.chars)
  }

  /** The whole string is what the pieces match one after another. */
  ghost predicate Matches(ps: Pattern, s: string)
    decreases |ps|
  {
    if ps == [] then s == ""
    else exists n :: 0 <= n <= |s| && Takes(ps[0], s, n) && Matches(ps[1..], s[n..])
  }

  function Times(ps: Pattern, n: nat): Pattern {
    if n == 0 then [] else ps + Times(ps, n - 1)
  }

  function Exactly(chars: CharClass, n: nat): Piece {
    Piece(chars, n, Some(n))
  }

  // ---- The expressions -------------------------------------------------------------------------------------------

  function Hex(): CharClass { c => '0' <= c <= '9' || 'a' <= c <= 'f' || 'A' <= c <= 'F' }
  function Digit(): CharClass { c => '0' <= c <= '9' }
  function Separator(): CharClass { c => c == ':' || c == '-' }
  function Dot(): CharClass { c => c == '.' }

  /** A case-insensitive [a-z]: the Kelvin sign folds to k and the long s to s. */
  function Letter(): CharClass { c => 'a' <= c <= 'z' || 'A' <= c <= 'Z' || c == '\U{212A}' || c == '\U{017F}' }
  function HostChar(): CharClass { c => Letter()(c) || '0' <= c <= '9' || c == '-' || c == '.' }

  /** Five times two hex digits and a colon or hyphen, then two more digits. */
  function PairsPattern(): Pattern { Times([Exactly(Hex(), 2), Exactly(Separator(), 1)], 5) + [Exactly(Hex(), 2)] }

  /** Three times four hex digits, with dots between. */
  function DottedPattern(): Pattern { Times([Exactly(Hex(), 4), Exactly(Dot(), 1)], 2) + [Exactly(Hex(), 4)] }

  /** Twelve hex digits. */
  function BarePattern(): Pattern { [Exactly(Hex(), 12)] }

  /** One to three digits, then three times a dot and one to three digits. */
  function IpPattern(): Pattern { [Piece(Digit(), 1, Some(3))] + Times([Exactly(Dot(), 1), Piece(Digit(), 1, Some(3))], 3) }

  /** A letter, then any number of letters, digits, hyphens and dots. */
  function HostPattern(): Pattern { [Exactly(Letter(), 1), Piece(HostChar(), 0, None)] }

  // ---- What they match ---------------------------------------------------------------------------------------------

  lemma MatchesExactly(chars: CharClass, n: nat, rest: Pattern, s: string)
    ensures Matches([Exactly(chars, n)] + rest, s) <==> n <= |s| && AllIn(s[..n], chars) && Matches(rest, s[n..])
  {
    var ps := [Exactly(chars, n)] + rest;
    assert ps[0] == Exactly(chars, n) && ps[1..] == rest;
    if n <= |s| && AllIn(s[..n], chars) && Matches(rest, s[n..]) {
      assert Takes(ps[0], s, n);
    }
  }

  /** The last piece takes all that is left. */
  lemma MatchesLast(p: Piece, s: string)
    ensures Matches([p], s) <==> Takes(p, s, |s|)
  {
    assert [p][1..] == [];
    assert s[|s|..] == "";
    if Matches([p], s) {
      var n :| 0 <= n <= |s| && Takes(p, s, n) && Matches([p][1..], s[n..]);
      assert n == |s|;
    }
  }

  /** How long k groups of `width` characters are, each followed by one more, and a last group. */
  function GroupsLength(k: nat, width: nat): nat {
    if k == 0 then width else width + 1 + GroupsLength(k - 1, width)
  }

  lemma MatchesGroup(chars: CharClass, width: nat, between: CharClass, tail: Pattern, s: string)
    ensures Matches([Exactly(chars, width)] + ([Exactly(between, 1)] + tail), s) <==>
            width < |s| && AllIn(s[..width], chars) && between(s[width]) && Matches(tail, s[width + 1..])
  {
    MatchesExactly(chars, width, [Exactly(between, 1)] + tail, s);
    if width <= |s| {
      MatchesExactly(between, 1, tail, s[width..]);
    }
    if width < |s| {
      assert s[width..][1..] == s[width + 1..] && s[width..][..1] == [s[width]];
    }
  }

  lemma MatchesLoneGroup(chars: CharClass, width: nat, between: CharClass, s: string)
    ensures Matches([Exactly(chars, width)], s) <==> |s| == width && Grouped(chars, width, between, s)
  {
    MatchesLast(Exactly(chars, width), s);
    assert s[..|s|] == s;
    forall i | 0 <= i < width
      ensures !IsBetween(i, width)
    {
      FirstSeparator(i, width);
    }
  }

  function Groups(chars: CharClass, width: nat, between: CharClass, k: nat): Pattern {
    Times([Exactly(chars, width), Exactly(between, 1)], k) + [Exactly(chars, width)]
  }

  lemma GroupsSplit(chars: CharClass, width: nat, between: CharClass, k: nat)
    ensures Groups(chars, width, between, 0) == [Exactly(chars, width)]
    ensures Groups(chars, width, between, k + 1) ==
            [Exactly(chars, width)] + ([Exactly(between, 1)] + Groups(chars, width, between, k))
  {
    var unit, last := [Exactly(chars, width), Exactly(between, 1)], [Exactly(chars, width)];
    assert Times(unit, 0) + last == last;
    assert Times(unit, k + 1) == unit + Times(unit, k);
  }

  /** k groups of `width` characters, each followed by one of another class, and a last group. */
  lemma {:induction false} MatchesGroups(chars: CharClass, width: nat, between: CharClass, k: nat, s: string)
    ensures Matches(Groups(chars, width, between, k), s) <==>
            |s| == GroupsLength(k, width) && Grouped(chars, width, between, s)
    decreases k
  {
    if k == 0 {
      GroupsSplit(chars, width, between, 0);
      MatchesLoneGroup(chars, width, between, s);
    } else {
      GroupsSplit(chars, width, between, k - 1);
      MatchesGroup(chars, width, between, Groups(chars, width, between, k - 1), s);
      if width < |s| {
        MatchesGroups(chars, width, between, k - 1, s[width + 1..]);
        GroupedSplit(chars, width, between, s);
      }
    }
  }

  /** Position i holds a character between two groups. */
  predicate IsBetween(i: nat, width: nat) {
    i % (width + 1) == width
  }

  /** Characters of one class, but every (width + 1)-th of the other. */
  ghost predicate Grouped(chars: CharClass, width: nat, between: CharClass, s: string) {
    forall i :: 0 <= i < |s| ==> if IsBetween(i, width) then between(s[i]) else chars(s[i])
  }

  lemma FirstSeparator(i: nat, width: nat)
    requires i <= width
    ensures IsBetween(i, width) <==> i == width
  {
  }

  lemma GroupedSplit(chars: CharClass, width: nat, between: CharClass, s: string)
    requires width < |s|
    ensures Grouped(chars, width, between, s) <==>
            AllIn(s[..width], chars) && between(s[width]) && Grouped(chars, width, between, s[width + 1..])
  {
    forall i | 0 <= i <= width
      ensures IsBetween(i, width) <==> i == width
    {
      FirstSeparator(i, width);
    }
    var tail := s[width + 1..];
    forall i | 0 <= i < |tail|
      ensures tail[i] == s[i + (width + 1)] && (IsBetween(i, width) <==> IsBetween(i + (width + 1), width))
    {
      ShiftSeparator(i, width);
    }
    assert forall i :: 0 <= i < width ==> s[..width][i] == s[i];
    if AllIn(s[..width], chars) && between(s[width]) && Grouped(chars, width, between, tail) {
      forall i | 0 <= i < |s|
        ensures if IsBetween(i, width) then between(s[i]) else chars(s[i])
      {
        if i < width {
          assert s[..width][i] == s[i];
        } else if i > width {
          ShiftSeparator(i - (width + 1), width);
          assert s[i] == tail[i - (width + 1)];
        }
      }
    }
    if Grouped(chars, width, between, s) {
      assert IsBetween(width, width);
      forall i | 0 <= i < |tail|
        ensures if IsBetween(i, width) then between(tail[i]) else chars(tail[i])
      {
        ShiftSeparator(i, width);
        assert tail[i] == s[i + (width + 1)];
      }
    }
  }

  lemma NoSmallMultiple(m: int, d: int)
    requires -m < m * d < m
    ensures d == 0
  {
  }

  lemma ShiftSeparator(i: nat, width: nat)
    ensures IsBetween(i + (width + 1), width) <==> IsBetween(i, width)
  {
    var m := width + 1;
    var d := (i + m) / m - i / m - 1;
    assert m * d == i % m - (i + m) % m;
    NoSmallMultiple(m, d);
  }

  lemma PairsIff(s: string)
    ensures IsPairs(s) <==> Matches(PairsPattern(), s)
  {
    assert forall c: char :: IsHex(c) <==> Hex()(c);
    MatchesGroups(Hex(), 2, Separator(), 5, s);
    assert PairsPattern() == Groups(Hex(), 2, Separator(), 5);
    assert GroupsLength(3, 2) == 11 && GroupsLength(5, 2) == 17;
    assert forall i: nat :: IsBetween(i, 2) <==> i % 3 == 2;
  }

  lemma DottedIff(s: string)
    ensures IsDotted(s) <==> Matches(DottedPattern(), s)
  {
    assert forall c: char :: IsHex(c) <==> Hex()(c);
    MatchesGroups(Hex(), 4, Dot(), 2, s);
    assert DottedPattern() == Groups(Hex(), 4, Dot(), 2);
    assert GroupsLength(2, 4) == 14;
    assert forall i: nat :: i < 14 ==> (IsBetween(i, 4) <==> i == 4 || i == 9);
  }

  lemma BareIff(s: string)
    ensures IsBare(s) <==> Matches(BarePattern(), s)
  {
    assert forall c: char :: IsHex(c) <==> Hex()(c);
    MatchesLast(Exactly(Hex(), 12), s);
    assert s[..|s|] == s;
  }

  /** The MAC test is the first expression, all three alternatives of it. */
  lemma MacReIff(s: string)
    ensures MacRe(s) <==> MatchesMac(s)
  {
    PairsIff(s);
    DottedIff(s);
    BareIff(s);
  }

  ghost predicate OctetBehind(s: string, from: int, to: int) {
    0 <= from < to <= |s| && IsOctet(s, from + 1, to)
  }

  /** k more numbers, each behind a dot. */
  ghost predicate DottedNumbers(s: string, from: int, k: nat)
    decreases k
  {
    if k == 0 then from == |s|
    else 0 <= from < |s| && s[from] == '.' &&
         exists to :: OctetBehind(s, from, to) && DottedNumbers(s, to, k - 1)
  }

  function MoreNumbers(k: nat): Pattern {
    Times([Exactly(Dot(), 1), Piece(Digit(), 1, Some(3))], k)
  }

  lemma {:induction false} MatchesNumbers(s: string, from: nat, k: nat)
    requires from <= |s|
    ensures Matches(MoreNumbers(k), s[from..]) <==> DottedNumbers(s, from, k)
    decreases k
  {
    if k > 0 {
      MatchesDotNumber(s, from, MoreNumbers(k - 1));
      forall to | 0 <= to <= |s|
        ensures Matches(MoreNumbers(k - 1), s[to..]) <==> DottedNumbers(s, to, k - 1)
      {
        MatchesNumbers(s, to, k - 1);
      }
    }
  }

  lemma MatchesDotNumber(s: string, from: nat, tail: Pattern)
    requires from <= |s|
    ensures Matches([Exactly(Dot(), 1), Piece(Digit(), 1, Some(3))] + tail, s[from..]) <==>
            from < |s| && s[from] == '.' && exists to :: OctetBehind(s, from, to) && Matches(tail, s[to..])
  {
    var number := Piece(Digit(), 1, Some(3));
    assert [Exactly(Dot(), 1), number] + tail == [Exactly(Dot(), 1)] + ([number] + tail);
    MatchesExactly(Dot(), 1, [number] + tail, s[from..]);
    if from < |s| {
      assert s[from..][..1] == [s[from]] && s[from..][1..] == s[from + 1..];
      MatchesNumber(s, from + 1, tail);
      if to :| from + 1 <= to <= |s| && IsOctet(s, from + 1, to) && Matches(tail, s[to..]) {
        assert OctetBehind(s, from, to);
      }
    }
  }

  /** One number of one to three digits, and then the rest. */
  lemma MatchesNumber(s: string, from: nat, tail: Pattern)
    requires from <= |s|
    ensures Matches([Piece(Digit(), 1, Some(3))] + tail, s[from..]) <==>
            exists to :: from <= to <= |s| && IsOctet(s, from, to) && Matches(tail, s[to..])
  {
    var number := Piece(Digit(), 1, Some(3));
    var ps := [number] + tail;
    assert ps[0] == number && ps[1..] == tail;
    forall n | 0 <= n <= |s| - from
      ensures Takes(number, s[from..], n) <==> IsOctet(s, from, from + n)
      ensures s[from..][n..] == s[from + n..]
    {
      var w := s[from..from + n];
      assert s[from..][..n] == w;
      assert forall i :: 0 <= i < n ==> w[i] == s[from + i];
      if AllIn(w, Digit()) {
        assert forall p :: from <= p < from + n ==> s[p] == w[p - from];
      }
    }
    if Matches(ps, s[from..]) {
      var n :| 0 <= n <= |s[from..]| && Takes(ps[0], s[from..], n) && Matches(ps[1..], s[from..][n..]);
      assert IsOctet(s, from, from + n) && Matches(tail, s[from + n..]);
    }
    if to :| from <= to <= |s| && IsOctet(s, from, to) && Matches(tail, s[to..]) {
      assert Takes(number, s[from..], to - from) && s[from..][to - from..] == s[to..];
    }
  }

  /** The IP test is the second expression. */
  lemma IpReIff(s: string)
    ensures IPRe(s) <==> Matches(IpPattern(), s)
  {
    var tail := MoreNumbers(3);
    assert s[0..] == s;
    MatchesNumber(s, 0, tail);
    forall to | 0 <= to <= |s|
      ensures Matches(tail, s[to..]) <==> DottedNumbers(s, to, 3)
    {
      MatchesNumbers(s, to, 3);
    }
    NumbersIff(s);
  }

  lemma NumbersIff(s: string)
    ensures IPRe(s) <==> exists i :: 0 <= i <= |s| && IsOctet(s, 0, i) && DottedNumbers(s, i, 3)
  {
    if IPRe(s) {
      var i, j, k :| 0 <= i < j < k < |s| && DotsAt(s, i, j, k);
      assert DottedNumbers(s, |s|, 0);
      assert OctetBehind(s, k, |s|) && DottedNumbers(s, k, 1);
      assert OctetBehind(s, j, k) && DottedNumbers(s, j, 2);
      assert OctetBehind(s, i, j) && DottedNumbers(s, i, 3);
    }
    if i :| 0 <= i <= |s| && IsOctet(s, 0, i) && DottedNumbers(s, i, 3) {
      var j :| OctetBehind(s, i, j) && DottedNumbers(s, j, 2);
      var k :| OctetBehind(s, j, k) && DottedNumbers(s, k, 1);
      var l :| OctetBehind(s, k, l) && DottedNumbers(s, l, 0);
      assert DotsAt(s, i, j, k);
    }
  }

  /** The host name test is the third expression. */
  lemma HostReIff(s: string)
    ensures HostRe(s) <==> Matches(HostPattern(), s)
  {
    var rest := Piece(HostChar(), 0, None);
    assert HostPattern() == [Exactly(Letter(), 1)] + [rest];
    MatchesExactly(Letter(), 1, [rest], s);
    forall c: char
      ensures IsFoldedLetter(c) <==> Letter()(c)
    {
    }
    if s != "" {
      MatchesLast(rest, s[1..]);
      assert s[1..][..|s[1..]|] == s[1..];
      assert s[..1] == [s[0]];
      assert forall i :: 1 <= i < |s| ==> s[i] == s[1..][i - 1];
    }
  }

  ghost predicate MatchesMac(s: string) {
    Matches(PairsPattern(), s) || Matches(DottedPattern(), s) || Matches(BarePattern(), s)
  }

  /** How a trimmed term is classified, by the expressions: what could be both a MAC and a host name is a MAC, and
      nothing else is two things at once. */
  lemma ClassifyIff(t: string)
    ensures Classify(t) == Some(Mac) <==> MatchesMac(t)
    ensures Classify(t) == Some(Ip) <==> Matches(IpPattern(), t)
    ensures Classify(t) == Some(Hostname) <==> Matches(HostPattern(), t) && !MatchesMac(t)
  {
    MacReIff(t);
    IpReIff(t);
    HostReIff(t);
    if IPRe(t) {
      IpIsNothingElse(t);
    }
  }
}
