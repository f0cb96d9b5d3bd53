/** Folding an optional reading over a list: the last reading wins, or the first does. */
module Readings {
  import opened Options

  function LastSome<F, T>(fs: seq<F>, read: F -> Option<T>): Option<T> {
    if fs == [] then None
    else if read(fs[|fs| - 1]).Some? then read(fs[|fs| - 1])
    else LastSome(fs[..|fs| - 1], read)
  }

  function FirstSome<F, T>(fs: seq<F>, read: F -> Option<T>): Option<T> {
    if fs == [] then None
    else
      var before := FirstSome(fs[..|fs| - 1], read);
      if before.Some? then before else read(fs[|fs| - 1])
  }

  lemma {:induction false} LastSomeIsARead<F, T>(fs: seq<F>, read: F -> Option<T>)
    ensures LastSome(fs, read).None? <==> forall x :: x in fs ==> read(x).None?
    ensures LastSome(fs, read).Some? ==> exists x :: x in fs && read(x) == LastSome(fs, read)
  {
    if fs != [] {
      var init, last := fs[..|fs| - 1], fs[|fs| - 1];
      LastSomeIsARead(init, read);
      assert forall x :: x in fs <==> x in init || x == last;
    }
  }

  lemma {:induction false} FirstSomeIsARead<F, T>(fs: seq<F>, read: F -> Option<T>)
    ensures FirstSome(fs, read).None? <==> forall x :: x in fs ==> read(x).None?
    ensures FirstSome(fs, read).Some? ==> exists x :: x in fs && read(x) == FirstSome(fs, read)
  {
    if fs != [] {
      var init, last := fs[..|fs| - 1], fs[|fs| - 1];
      FirstSomeIsARead(init, read);
      assert forall x :: x in fs <==> x in init || x == last;
    }
  }

  lemma {:induction false} LastSomeAppend<F, T>(a: seq<F>, b: seq<F>, read: F -> Option<T>)
    ensures LastSome(a + b, read) == if LastSome(b, read).Some? then LastSome(b, read) else LastSome(a, read)
  {
    if b == [] {
      assert a + b == a;
    } else {
      assert (a + b)[..|a + b| - 1] == a + b[..|b| - 1];
      LastSomeAppend(a, b[..|b| - 1], read);
    }
  }

  lemma {:induction false} FirstSomeAppend<F, T>(a: seq<F>, b: seq<F>, read: F -> Option<T>)
    ensures FirstSome(a + b, read) == if FirstSome(a, read).Some? then FirstSome(a, read) else FirstSome(b, read)
  {
    if b == [] {
      assert a + b == a;
    } else {
      assert (a + b)[..|a + b| - 1] == a + b[..|b| - 1];
      FirstSomeAppend(a, b[..|b| - 1], read);
    }
  }

  lemma OneRead<F, T>(x: F, read: F -> Option<T>)
    ensures LastSome([x], read) == read(x)
    ensures FirstSome([x], read) == read(x)
  {
    assert [x][..0] == [];
  }

  /** A field that reads nothing can be taken out. */
  lemma SilentFieldSkipped<F, T>(a: seq<F>, x: F, b: seq<F>, read: F -> Option<T>)
    requires read(x).None?
    ensures LastSome(a + [x] + b, read) == LastSome(a + b, read)
    ensures FirstSome(a + [x] + b, read) == FirstSome(a + b, read)
  {
    OneRead(x, read);
    LastSomeAppend(a + [x], b, read);
    LastSomeAppend(a, [x], read);
    LastSomeAppend(a, b, read);
    FirstSomeAppend(a + [x], b, read);
    FirstSomeAppend(a, [x], read);
    FirstSomeAppend(a, b, read);
  }

  /** Any two fields that read something read the same. */
  ghost predicate Agreeing<F(!new), T>(fs: seq<F>, read: F -> Option<T>) {
    forall x, y :: x in fs && y in fs && read(x).Some? && read(y).Some? ==> read(x) == read(y)
  }

  lemma AgreeingReadsIgnoreOrder<F(!new), T>(fs: seq<F>, gs: seq<F>, read: F -> Option<T>)
    requires Agreeing(fs, read)
    requires forall x :: x in fs <==> x in gs
    ensures LastSome(gs, read) == LastSome(fs, read)
    ensures FirstSome(gs, read) == FirstSome(fs, read)
  {
    LastSomeIsARead(fs, read);
    LastSomeIsARead(gs, read);
    FirstSomeIsARead(fs, read);
    FirstSomeIsARead(gs, read);
  }

  lemma SameElements<F(!new)>(fs: seq<F>, gs: seq<F>)
    requires multiset(fs) == multiset(gs)
    ensures forall x :: x in fs <==> x in gs
  {
    forall x
      ensures x in fs <==> x in gs
    {
      assert x in fs <==> x in multiset(fs);
      assert x in gs <==> x in multiset(gs);
    }
  }

  ghost predicate LastIgnoresOrder<F(!new), T>(fs: seq<F>, read: F -> Option<T>) {
    forall gs: seq<F> :: multiset(gs) == multiset(fs) ==> LastSome(gs, read) == LastSome(fs, read)
  }

  /** The last reading is the same in every order exactly when all readings agree. */
  lemma LastIgnoresOrderIff<F(!new), T(!new)>(fs: seq<F>, read: F -> Option<T>)
    ensures LastIgnoresOrder(fs, read) <==> Agreeing(fs, read)
  {
    if Agreeing(fs, read) {
      forall gs: seq<F> | multiset(gs) == multiset(fs)
        ensures LastSome(gs, read) == LastSome(fs, read)
      {
        SameElements(gs, fs);
        AgreeingReadsIgnoreOrder(fs, gs, read);
      }
    }
    if LastIgnoresOrder(fs, read) {
      forall x | x in fs && read(x).Some?
        ensures read(x) == LastSome(fs, read)
      {
        var i: nat :| i < |fs| && fs[i] == x;
        var gs := fs[..i] + fs[i + 1..] + [x];
        assert fs == fs[..i] + [x] + fs[i + 1..];
        assert multiset(gs) == multiset(fs);
        LastSomeAppend(fs[..i] + fs[i + 1..], [x], read);
        OneRead(x, read);
      }
    }
  }

  // ---- Keeping what is there -------------------------------------------------------------------------------------

  function Somes<T>(xs: seq<Option<T>>): seq<T> {
    if xs == [] then []
    else Somes(xs[..|xs| - 1]) + if xs[|xs| - 1].Some? then [xs[|xs| - 1].value] else []
  }

  /** Element p of `kept` is the value at position at[p]; the positions ascend and no other position has one. */
  ghost predicate Keeps<T>(xs: seq<Option<T>>, kept: seq<T>, at: seq<nat>) {
    && |at| == |kept|
    && (forall p :: 0 <= p < |at| ==> at[p] < |xs| && xs[at[p]] == Some(kept[p]))
    && (forall p, q :: 0 <= p < q < |at| ==> at[p] < at[q])
    && (forall i :: 0 <= i < |xs| && i !in at ==> xs[i].None?)
  }

  lemma {:induction false} SomesAppend<T>(a: seq<Option<T>>, b: seq<Option<T>>)
    ensures Somes(a + b) == Somes(a) + Somes(b)
  {
    if b == [] {
      assert a + b == a;
    } else {
      assert (a + b)[..|a + b| - 1] == a + b[..|b| - 1];
      SomesAppend(a, b[..|b| - 1]);
    }
  }

  lemma KeepOne<T>(init: seq<Option<T>>, kept: seq<T>, at: seq<nat>, x: T)
    requires Keeps(init, kept, at)
    ensures Keeps(init + [Some(x)], kept + [x], at + [|init|])
  {
    var xs, at' := init + [Some(x)], at + [|init|];
    forall i | 0 <= i < |xs| && i !in at'
      ensures xs[i].None?
    {
      assert i != at'[|at|];
      assert i !in at;
    }
  }

  lemma {:induction false} SomesMeaning<T>(xs: seq<Option<T>>) returns (at: seq<nat>)
    ensures Keeps(xs, Somes(xs), at)
  {
    if xs == [] {
      at := [];
    } else {
      var init, last := xs[..|xs| - 1], xs[|xs| - 1];
      at := SomesMeaning(init);
      assert xs == init + [last];
      if last.Some? {
        KeepOne(init, Somes(init), at, last.value);
        at := at + [|init|];
      }
    }
  }
}
