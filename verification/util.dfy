/**
 * The list difference of node/util.go, used to find the parents a node has
 * gained or lost in a change record.
 */
module Util {

  /**
   * s1 \ s2 as a list: the elements of s1 that do not occur in s2, in s1's
   * order and with s1's repetitions. Defined by peeling the last element, the
   * way the Go loop grows its result.
   */
  function Diff<T(==,!new)>(s1: seq<T>, s2: seq<T>): (r: seq<T>)
    ensures forall x :: x in r <==> x in s1 && x !in s2
    ensures forall x :: x !in s2 ==> multiset(r)[x] == multiset(s1)[x]
    ensures forall x :: x in s2 ==> multiset(r)[x] == 0
    ensures |r| <= |s1|
  {
    if |s1| == 0 then []
    else
      var init := s1[..|s1| - 1];
      var last := s1[|s1| - 1];
      assert s1 == init + [last];
      if last in s2 then Diff(init, s2) else Diff(init, s2) + [last]
  }

  /**
   * Diff distributes over concatenation of its first argument. With
   * DiffSingleton this pins Diff down completely, so it states that the
   * result keeps s1's order.
   */
  lemma {:induction false} DiffAppend<T(!new)>(a: seq<T>, b: seq<T>, s2: seq<T>)
    ensures Diff(a + b, s2) == Diff(a, s2) + Diff(b, s2)
    decreases |b|
  {
    if |b| == 0 {
      assert a + b == a;
    } else {
      var init := b[..|b| - 1];
      var last := b[|b| - 1];
      var tail := if last in s2 then [] else [last];
      assert (a + b)[..|a + b| - 1] == a + init;
      assert (a + b)[|a + b| - 1] == last;
      calc {
        Diff(a + b, s2);
        { DiffSnoc(a + b, s2); }
        Diff(a + init, s2) + tail;
        { DiffAppend(a, init, s2); }
        (Diff(a, s2) + Diff(init, s2)) + tail;
        { AppendAssoc(Diff(a, s2), Diff(init, s2), tail); }
        Diff(a, s2) + (Diff(init, s2) + tail);
        { DiffSnoc(b, s2); }
        Diff(a, s2) + Diff(b, s2);
      }
    }
  }

  lemma AppendAssoc<T>(x: seq<T>, y: seq<T>, z: seq<T>)
    ensures (x + y) + z == x + (y + z)
  {
  }

  lemma DiffSingleton<T(!new)>(x: T, s2: seq<T>)
    ensures Diff([x], s2) == if x in s2 then [] else [x]
  {
    assert [x][..0] == [];
  }

  /** Go's nested loop (node/util.go:4-23), computing exactly Diff. */
  method DiffSliceStr(s1: seq<string>, s2: seq<string>) returns (vs: seq<string>)
    ensures vs == Diff(s1, s2)
  {
    vs := [];
    var i := 0;
    while i < |s1|
      invariant 0 <= i <= |s1|
      invariant vs == Diff(s1[..i], s2)
    {
      var v1 := s1[i];
      var found := Occurs(v1, s2);
      DiffSnoc(s1[..i + 1], s2);
      assert s1[..i + 1][..i] == s1[..i];
      if !found {
        vs := vs + [v1];
      }
      i := i + 1;
    }
    assert s1[..|s1|] == s1;
  }

  /** The inner loop of node/util.go:10-15: a linear search that stops at the first hit. */
  method Occurs(v1: string, s2: seq<string>) returns (found: bool)
    ensures found <==> v1 in s2
  {
    found := false;
    var j := 0;
    while j < |s2|
      invariant 0 <= j <= |s2|
      invariant forall k :: 0 <= k < j ==> s2[k] != v1
    {
      if v1 == s2[j] {
        found := true;
        break;
      }
      j := j + 1;
    }
  }

  /** One unfolding of Diff, stated without its quantified contract. */
  lemma DiffSnoc<T(!new)>(s1: seq<T>, s2: seq<T>)
    requires |s1| > 0
    ensures Diff(s1, s2) == Diff(s1[..|s1| - 1], s2) + (if s1[|s1| - 1] in s2 then [] else [s1[|s1| - 1]])
  {
  }

  /**
   * Growing the second list by one element removes every occurrence of that
   * element from the difference and leaves the rest of it, in order.
   */
  lemma {:induction false} DiffExtend<T(!new)>(s1: seq<T>, s2: seq<T>, y: T)
    ensures Diff(s1, s2 + [y]) == Diff(Diff(s1, s2), [y])
    decreases |s1|
  {
    if |s1| > 0 {
      var init := s1[..|s1| - 1];
      var last := s1[|s1| - 1];
      DiffSnoc(s1, s2 + [y]);
      DiffSnoc(s1, s2);
      DiffExtend(init, s2, y);
      if last !in s2 {
        DiffAppend(Diff(init, s2), [last], [y]);
        DiffSingleton(last, [y]);
      }
    }
  }

  /** The three cases of node/util_test.go. */
  lemma DiffExamples()
    ensures Diff(["a", "b", "c"], ["a", "b"]) == ["c"]
    ensures Diff(["a", "b", "c"], ["a", "b", "c"]) == []
    ensures Diff(["b", "c"], ["a", "b", "c"]) == []
  {
    DiffSubset(["a", "b", "c"], ["a", "b", "c"]);
    DiffSubset(["b", "c"], ["a", "b", "c"]);
    var s1 := ["a", "b", "c"];
    assert s1 == ["a", "b"] + ["c"];
    DiffAppend(["a", "b"], ["c"], ["a", "b"]);
    DiffSubset(["a", "b"], ["a", "b"]);
    DiffSingleton("c", ["a", "b"]);
  }

  /** The difference is empty exactly when every element of s1 occurs in s2. */
  lemma DiffSubset(s1: seq<string>, s2: seq<string>)
    ensures Diff(s1, s2) == [] <==> forall x :: x in s1 ==> x in s2
  {
    var r := Diff(s1, s2);
    if r != [] {
      assert r[0] in r;
    }
  }

  lemma DiffSelf(s: seq<string>)
    ensures Diff(s, s) == []
  {
    DiffSubset(s, s);
  }
}
