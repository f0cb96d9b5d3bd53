/** collectInterfaces: the explicit-stack walk, the recursive traversal it performs, and which occurrences
    of the tree it returns in which order. */
module Walk {
  import opened Telemetry

  /** Nodes in a tree, the termination measure of the walk. */
  function Size(f: Field): nat {
    1 + SizeAll(f.fields)
  }

  function SizeAll(fs: seq<Field>): nat {
    if fs == [] then 0 else SizeAll(fs[..|fs| - 1]) + Size(fs[|fs| - 1])
  }

  lemma {:induction false} SizeAllAppend(a: seq<Field>, b: seq<Field>)
    ensures SizeAll(a + b) == SizeAll(a) + SizeAll(b)
  {
    if b == [] {
      assert a + b == a;
    } else {
      assert (a + b)[..|a + b| - 1] == a + b[..|b| - 1];
      SizeAllAppend(a, b[..|b| - 1]);
    }
  }

  // ---- The recursive traversal ---------------------------------------------------------------------------------

  /** The interface nodes below `f`, itself included: last child first, and below an interface node only
      through children that are interface nodes themselves. */
  function Visit(f: Field): seq<Field> {
    (if IsIface(f) then [f] else []) + VisitAll(f.fields, IsIface(f))
  }

  function VisitAll(fs: seq<Field>, linksOnly: bool): seq<Field> {
    if fs == [] then []
    else
      var last := fs[|fs| - 1];
      (if linksOnly && !IsIface(last) then [] else Visit(last)) + VisitAll(fs[..|fs| - 1], linksOnly)
  }

  function Collected(root: Field): seq<Field> {
    VisitAll(root.fields, false)
  }

  lemma VisitLast(fs: seq<Field>, last: Field, linksOnly: bool)
    ensures VisitAll(fs + [last], linksOnly) ==
            (if linksOnly && !IsIface(last) then [] else Visit(last)) + VisitAll(fs, linksOnly)
  {
    assert (fs + [last])[..|fs + [last]| - 1] == fs;
  }

  lemma {:induction false} VisitAllAppend(a: seq<Field>, b: seq<Field>, linksOnly: bool)
    ensures VisitAll(a + b, linksOnly) == VisitAll(b, linksOnly) + VisitAll(a, linksOnly)
  {
    if b == [] {
      assert a + b == a;
    } else {
      var init, last := b[..|b| - 1], b[|b| - 1];
      var top := if linksOnly && !IsIface(last) then [] else Visit(last);
      calc {
        VisitAll(a + b, linksOnly);
        { assert a + b == (a + init) + [last]; VisitLast(a + init, last, linksOnly); }
        top + VisitAll(a + init, linksOnly);
        { VisitAllAppend(a, init, linksOnly); }
        top + (VisitAll(init, linksOnly) + VisitAll(a, linksOnly));
        { Reassociate(top, VisitAll(init, linksOnly), VisitAll(a, linksOnly)); }
        (top + VisitAll(init, linksOnly)) + VisitAll(a, linksOnly);
        { assert b == init + [last]; VisitLast(init, last, linksOnly); }
        VisitAll(b, linksOnly) + VisitAll(a, linksOnly);
      }
    }
  }

  function Links(fs: seq<Field>): seq<Field> {
    if fs == [] then []
    else Links(fs[..|fs| - 1]) + if IsIface(fs[|fs| - 1]) then [fs[|fs| - 1]] else []
  }

  lemma {:induction false} VisitLinks(fs: seq<Field>)
    ensures VisitAll(Links(fs), false) == VisitAll(fs, true)
    ensures SizeAll(Links(fs)) <= SizeAll(fs)
  {
    if fs != [] {
      var init, last := fs[..|fs| - 1], fs[|fs| - 1];
      VisitLinks(init);
      if IsIface(last) {
        VisitAllAppend(Links(init), [last], false);
        SizeAllAppend(Links(init), [last]);
        assert [last][..0] == [];
        assert VisitAll([last], false) == Visit(last) + VisitAll([last][..0], false);
        assert SizeAll([last]) == SizeAll([last][..0]) + Size(last);
      } else {
        assert Links(fs) == Links(init);
      }
    }
  }

  /** Pushing one more child, if it is a link. */
  lemma PushOne(stack: seq<Field>, fs: seq<Field>, i: nat)
    requires i < |fs|
    ensures stack + Links(fs[..i + 1]) == (stack + Links(fs[..i])) + if IsIface(fs[i]) then [fs[i]] else []
  {
    assert fs[..i + 1][..i] == fs[..i];
  }

  /** The children that are pushed below an interface node. */
  method PushLinks(stack: seq<Field>, fs: seq<Field>) returns (pushed: seq<Field>)
    ensures pushed == stack + Links(fs)
  {
    ghost var want := (i: nat) requires i <= |fs| => stack + Links(fs[..i]);
    pushed := stack;
    for i := 0 to |fs|
      invariant pushed == want(i)
    {
      PushOne(stack, fs, i);
      if IsIface(fs[i]) {
        pushed := pushed + [fs[i]];
      }
    }
    assert fs[..|fs|] == fs;
  }

  lemma SizeTop(rest: seq<Field>, f: Field)
    ensures SizeAll(rest + [f]) == SizeAll(rest) + Size(f)
  {
    assert (rest + [f])[..|rest + [f]| - 1] == rest;
  }

  lemma Reassociate(top: seq<Field>, below: seq<Field>, others: seq<Field>)
    ensures (top + below) + others == top + (below + others)
  {
  }

  /** One turn of the walk: popping the top and pushing what is searched next leaves the same nodes to list,
      on a smaller stack. */
  lemma PopInterface(rest: seq<Field>, f: Field)
    requires IsIface(f)
    ensures VisitAll(rest + [f], false) == [f] + VisitAll(rest + Links(f.fields), false)
  {
    calc {
      VisitAll(rest + [f], false);
      { VisitLast(rest, f, false); }
      Visit(f) + VisitAll(rest, false);
      { VisitLinks(f.fields); }
      ([f] + VisitAll(Links(f.fields), false)) + VisitAll(rest, false);
      { Reassociate([f], VisitAll(Links(f.fields), false), VisitAll(rest, false)); }
      [f] + (VisitAll(Links(f.fields), false) + VisitAll(rest, false));
      { VisitAllAppend(rest, Links(f.fields), false); }
      [f] + VisitAll(rest + Links(f.fields), false);
    }
  }

  lemma VisitContainer(f: Field)
    requires !IsIface(f)
    ensures Visit(f) == VisitAll(f.fields, false)
  {
  }

  lemma PopContainer(rest: seq<Field>, f: Field)
    requires !IsIface(f)
    ensures VisitAll(rest + [f], false) == VisitAll(rest + f.fields, false)
  {
    calc {
      VisitAll(rest + [f], false);
      { VisitLast(rest, f, false); }
      Visit(f) + VisitAll(rest, false);
      { VisitContainer(f); }
      VisitAll(f.fields, false) + VisitAll(rest, false);
      { VisitAllAppend(rest, f.fields, false); }
      VisitAll(rest + f.fields, false);
    }
  }

  lemma PopShrinks(rest: seq<Field>, f: Field)
    ensures SizeAll(rest + f.fields) < SizeAll(rest + [f])
    ensures SizeAll(rest + Links(f.fields)) < SizeAll(rest + [f])
  {
    SizeTop(rest, f);
    SizeAllAppend(rest, f.fields);
    VisitLinks(f.fields);
    SizeAllAppend(rest, Links(f.fields));
  }

  /** What remains to be listed once `stack` has been popped of `f`, with `result` listed already. */
  lemma Turn(result: seq<Field>, stack: seq<Field>, f: Field, all: seq<Field>)
    requires result + VisitAll(stack + [f], false) == all
    ensures IsIface(f) ==> (result + [f]) + VisitAll(stack + Links(f.fields), false) == all
    ensures !IsIface(f) ==> result + VisitAll(stack + f.fields, false) == all
  {
    if IsIface(f) {
      PopInterface(stack, f);
      Reassociate(result, [f], VisitAll(stack + Links(f.fields), false));
    } else {
      PopContainer(stack, f);
    }
  }

  /** The walk terminates and returns exactly the recursive traversal, in its order. */
  method CollectInterfaces(root: Field) returns (result: seq<Field>)
    ensures result == Collected(root)
  {
    result := [];
    var stack := root.fields;
    ghost var all := Collected(root);
    while |stack| > 0
      invariant result + VisitAll(stack, false) == all
      decreases SizeAll(stack)
    {
      var f := stack[|stack| - 1];
      assert stack == stack[..|stack| - 1] + [f];
      stack := stack[..|stack| - 1];
      Turn(result, stack, f, all);
      PopShrinks(stack, f);
      if IsIface(f) {
        result := result + [f];
        stack := PushLinks(stack, f.fields);
      } else {
        stack := stack + f.fields;
      }
    }
  }

  // ---- Which occurrences, and in which order -----------------------------------------------------------------------

  /** An occurrence in a forest: child indices from the top. */
  type Path = seq<nat>

  ghost predicate Within(fs: seq<Field>, p: Path) {
    && p != [] && p[0] < |fs|
    && (|p| > 1 ==> Within(fs[p[0]].fields, p[1..]))
  }

  ghost function NodeAt(fs: seq<Field>, p: Path): Field
    requires Within(fs, p)
  {
    if |p| == 1 then fs[p[0]] else NodeAt(fs[p[0]].fields, p[1..])
  }

  /** Every step of the path enters a child of the root, a child of a node that is not an interface, or an
      interface child of an interface. */
  ghost predicate Reachable(fs: seq<Field>, linksOnly: bool, p: Path) {
    && p != [] && p[0] < |fs|
    && (linksOnly ==> IsIface(fs[p[0]]))
    && (|p| > 1 ==> Reachable(fs[p[0]].fields, IsIface(fs[p[0]]), p[1..]))
  }

  /** A reachable occurrence of an interface node. */
  ghost predicate Listed(fs: seq<Field>, linksOnly: bool, p: Path) {
    Reachable(fs, linksOnly, p) && Within(fs, p) && IsIface(NodeAt(fs, p))
  }

  /** A node before what is below it, and later siblings first. */
  ghost predicate Before(p: Path, q: Path) {
    if p == [] then q != []
    else q != [] && (p[0] > q[0] || (p[0] == q[0] && Before(p[1..], q[1..])))
  }

  ghost function Under(i: nat, ps: seq<Path>): seq<Path> {
    seq(|ps|, j requires 0 <= j < |ps| => [i] + ps[j])
  }

  /** The occurrences behind Visit and VisitAll. */
  ghost function PathsOf(f: Field, n: nat): seq<Path> {
    (if IsIface(f) then [[n]] else []) + Under(n, Paths(f.fields, IsIface(f)))
  }

  ghost function Paths(fs: seq<Field>, linksOnly: bool): seq<Path> {
    if fs == [] then []
    else
      var n := |fs| - 1;
      (if linksOnly && !IsIface(fs[n]) then [] else PathsOf(fs[n], n)) + Paths(fs[..n], linksOnly)
  }

  lemma NodeAtPrefix(fs: seq<Field>, n: nat, linksOnly: bool, p: Path)
    requires n <= |fs| && p != [] && p[0] < n
    ensures Within(fs, p) <==> Within(fs[..n], p)
    ensures Within(fs, p) ==> NodeAt(fs, p) == NodeAt(fs[..n], p)
    ensures Listed(fs, linksOnly, p) <==> Listed(fs[..n], linksOnly, p)
  {
  }

  /** Listed occurrences through child n: that child, or one listed below it. */
  lemma ListedThrough(fs: seq<Field>, linksOnly: bool, p: Path)
    requires p != [] && p[0] < |fs|
    ensures var f := fs[p[0]];
            Listed(fs, linksOnly, p) <==>
            (linksOnly ==> IsIface(f)) && (if |p| == 1 then IsIface(f) else Listed(f.fields, IsIface(f), p[1..]))
  {
  }

  lemma UnderMatches(fs: seq<Field>, n: nat, sub: seq<Path>, nodes: seq<Field>)
    requires n < |fs| && |sub| == |nodes|
    requires forall i :: 0 <= i < |sub| ==> Within(fs[n].fields, sub[i]) && NodeAt(fs[n].fields, sub[i]) == nodes[i]
    ensures forall i :: 0 <= i < |sub| ==> Within(fs, Under(n, sub)[i]) && NodeAt(fs, Under(n, sub)[i]) == nodes[i]
  {
    forall i | 0 <= i < |sub|
      ensures Within(fs, Under(n, sub)[i]) && NodeAt(fs, Under(n, sub)[i]) == nodes[i]
    {
      var p := [n] + sub[i];
      assert p[1..] == sub[i];
    }
  }

  /** The traversal lists a node at its own occurrence. */
  lemma {:induction false} PathsMatchNode(f: Field, n: nat, fs: seq<Field>)
    requires n < |fs| && fs[n] == f
    ensures |PathsOf(f, n)| == |Visit(f)|
    ensures forall i :: 0 <= i < |Visit(f)| ==> Within(fs, PathsOf(f, n)[i]) && NodeAt(fs, PathsOf(f, n)[i]) == Visit(f)[i]
    decreases f
  {
    PathsMatch(f.fields, IsIface(f));
    UnderMatches(fs, n, Paths(f.fields, IsIface(f)), VisitAll(f.fields, IsIface(f)));
  }

  lemma {:induction false} PathsMatch(fs: seq<Field>, linksOnly: bool)
    ensures |Paths(fs, linksOnly)| == |VisitAll(fs, linksOnly)|
    ensures forall i :: 0 <= i < |Paths(fs, linksOnly)| ==>
                          Within(fs, Paths(fs, linksOnly)[i]) && NodeAt(fs, Paths(fs, linksOnly)[i]) == VisitAll(fs, linksOnly)[i]
    decreases fs
  {
    if fs != [] {
      var n := |fs| - 1;
      PathsMatch(fs[..n], linksOnly);
      PathsMatchNode(fs[n], n, fs);
      var first := if linksOnly && !IsIface(fs[n]) then [] else PathsOf(fs[n], n);
      var rest := Paths(fs[..n], linksOnly);
      forall i | 0 <= i < |rest|
        ensures Within(fs, rest[i]) && NodeAt(fs, rest[i]) == VisitAll(fs[..n], linksOnly)[i]
      {
        NodeAtPrefix(fs, n, linksOnly, rest[i]);
      }
    }
  }

  lemma UnderMember(n: nat, sub: seq<Path>, p: Path)
    ensures p in Under(n, sub) <==> p != [] && p[0] == n && p[1..] in sub
  {
    if p != [] && p[0] == n && p[1..] in sub {
      var j :| 0 <= j < |sub| && sub[j] == p[1..];
      assert Under(n, sub)[j] == [n] + p[1..] == p;
    }
    if p in Under(n, sub) {
      var j :| 0 <= j < |sub| && Under(n, sub)[j] == p;
      assert p == [n] + sub[j] && p[1..] == sub[j];
    }
  }

  /** Exactly the listed occurrences below one child. */
  lemma {:induction false} PathsOfIff(f: Field, n: nat, p: Path)
    ensures p in PathsOf(f, n) <==>
            p != [] && p[0] == n && (if |p| == 1 then IsIface(f) else Listed(f.fields, IsIface(f), p[1..]))
    decreases f
  {
    UnderMember(n, Paths(f.fields, IsIface(f)), p);
    if p != [] {
      PathsIff(f.fields, IsIface(f), p[1..]);
      assert p == [n] <==> p[0] == n && |p| == 1;
    }
  }

  /** Exactly the listed occurrences. */
  lemma {:induction false} PathsIff(fs: seq<Field>, linksOnly: bool, p: Path)
    ensures p in Paths(fs, linksOnly) <==> Listed(fs, linksOnly, p)
    decreases fs
  {
    if fs != [] {
      var n := |fs| - 1;
      PathsIff(fs[..n], linksOnly, p);
      PathsOfIff(fs[n], n, p);
      if p != [] && p[0] < n {
        NodeAtPrefix(fs, n, linksOnly, p);
      }
      if p != [] && p[0] < |fs| {
        ListedThrough(fs, linksOnly, p);
      }
    }
  }

  ghost predicate Sorted(ps: seq<Path>) {
    forall i, j :: 0 <= i < j < |ps| ==> Before(ps[i], ps[j])
  }

  lemma UnderSorted(n: nat, sub: seq<Path>, self: bool)
    requires Sorted(sub) && forall i :: 0 <= i < |sub| ==> sub[i] != []
    ensures Sorted((if self then [[n]] else []) + Under(n, sub))
  {
    var ps := (if self then [[n]] else []) + Under(n, sub);
    var k := if self then 1 else 0;
    forall i, j | 0 <= i < j < |ps|
      ensures Before(ps[i], ps[j])
    {
      assert ps[j] == [n] + sub[j - k] && ps[j][1..] == sub[j - k];
      if i >= k {
        assert ps[i] == [n] + sub[i - k] && ps[i][1..] == sub[i - k];
      } else {
        assert ps[i] == [n] && ps[i][1..] == [];
      }
    }
  }

  lemma {:induction false} PathsOfSorted(f: Field, n: nat)
    ensures Sorted(PathsOf(f, n))
    decreases f
  {
    PathsSorted(f.fields, IsIface(f));
    PathsMatch(f.fields, IsIface(f));
    UnderSorted(n, Paths(f.fields, IsIface(f)), IsIface(f));
  }

  lemma {:induction false} PathsSorted(fs: seq<Field>, linksOnly: bool)
    ensures Sorted(Paths(fs, linksOnly))
    decreases fs
  {
    if fs != [] {
      var n := |fs| - 1;
      PathsSorted(fs[..n], linksOnly);
      PathsOfSorted(fs[n], n);
      var first := if linksOnly && !IsIface(fs[n]) then [] else PathsOf(fs[n], n);
      var rest := Paths(fs[..n], linksOnly);
      forall i | 0 <= i < |first|
        ensures first[i] != [] && first[i][0] == n
      {
        PathsOfIff(fs[n], n, first[i]);
      }
      PathsMatch(fs[..n], linksOnly);
      assert forall j :: 0 <= j < |rest| ==> rest[j] != [] && rest[j][0] < n;
    }
  }

  lemma {:induction false} BeforeIsIrreflexive(p: Path)
    ensures !Before(p, p)
  {
    if p != [] {
      BeforeIsIrreflexive(p[1..]);
    }
  }

  /** What the walk returns: the interface nodes at precisely the reachable occurrences, each occurrence
      once, a node before the nodes below it and later siblings first. */
  lemma WalkListsEachReachableOnce(root: Field) returns (ps: seq<Path>)
    ensures |ps| == |Collected(root)|
    ensures forall i :: 0 <= i < |ps| ==> Within(root.fields, ps[i]) && NodeAt(root.fields, ps[i]) == Collected(root)[i]
    ensures forall p :: p in ps <==> Listed(root.fields, false, p)
    ensures Sorted(ps)
    ensures forall i, j :: 0 <= i < j < |ps| ==> ps[i] != ps[j]
  {
    ps := Paths(root.fields, false);
    PathsMatch(root.fields, false);
    forall p
      ensures p in ps <==> Listed(root.fields, false, p)
    {
      PathsIff(root.fields, false, p);
    }
    PathsSorted(root.fields, false);
    forall i, j | 0 <= i < j < |ps|
      ensures ps[i] != ps[j]
    {
      BeforeIsIrreflexive(ps[i]);
    }
  }
}
