/**
 * The string functions of Go's standard library that path resolution and
 * upload rely on: strings.Split, strings.Join, strings.TrimPrefix,
 * strings.SplitAfter, the regular-expression rewrite "/[/]*" -> "/" of
 * node/find.go:16-17, an ASCII strings.ToLower, and path.Clean, path.Dir
 * and path.Base.
 */
module Paths {

  const Slash: char := '/'

  /** strings.Join with a one-character separator. */
  function Join(parts: seq<string>, sep: char): string
  {
    if |parts| == 0 then ""
    else if |parts| == 1 then parts[0]
    else parts[0] + [sep] + Join(parts[1..], sep)
  }

  /**
   * strings.Split with a one-character separator: never empty, no piece
   * holds the separator, and joining the pieces gives the input back.
   */
  function Split(s: string, sep: char): (r: seq<string>)
    ensures |r| >= 1
    ensures forall i :: 0 <= i < |r| ==> sep !in r[i]
    ensures Join(r, sep) == s
    decreases |s|
  {
    if |s| == 0 then [""]
    else
      var rest := Split(s[1..], sep);
      if s[0] == sep then
        assert ([""] + rest)[1..] == rest;
        [""] + rest
      else
        var r := [[s[0]] + rest[0]] + rest[1..];
        assert r[1..] == rest[1..];
        assert s == [s[0]] + s[1..];
        r
  }

  lemma {:induction false} SplitNoSeparator(a: string, sep: char)
    requires sep !in a
    ensures Split(a, sep) == [a]
    decreases |a|
  {
    if |a| > 0 {
      SplitNoSeparator(a[1..], sep);
      assert a == [a[0]] + a[1..];
    }
  }

  /** Splitting at one separator splits the two sides independently. */
  lemma {:induction false} SplitConcat(a: string, b: string, sep: char)
    ensures Split(a + [sep] + b, sep) == Split(a, sep) + Split(b, sep)
    decreases |a|
  {
    var s := a + [sep] + b;
    if |a| == 0 {
      assert s[1..] == b;
    } else {
      assert s[1..] == a[1..] + [sep] + b;
      SplitConcat(a[1..], b, sep);
    }
  }

  /** Split inverts Join when no piece holds the separator. */
  lemma {:induction false} SplitJoin(parts: seq<string>, sep: char)
    requires |parts| >= 1
    requires forall i :: 0 <= i < |parts| ==> sep !in parts[i]
    ensures Split(Join(parts, sep), sep) == parts
    decreases |parts|
  {
    if |parts| == 1 {
      SplitNoSeparator(parts[0], sep);
    } else {
      SplitJoin(parts[1..], sep);
      SplitConcat(parts[0], Join(parts[1..], sep), sep);
      SplitNoSeparator(parts[0], sep);
      assert [parts[0]] + parts[1..] == parts;
    }
  }

  lemma JoinSnoc(parts: seq<string>, last: string, sep: char)
    requires |parts| >= 1
    ensures Join(parts + [last], sep) == Join(parts, sep) + [sep] + last
    decreases |parts|
  {
    if |parts| == 1 {
      assert (parts + [last])[1..] == [last];
    } else {
      assert (parts + [last])[1..] == parts[1..] + [last];
      JoinSnoc(parts[1..], last, sep);
    }
  }

  /** strings.TrimPrefix(s, "/"): at most one leading separator goes. */
  function TrimSlash(s: string): (r: string)
    ensures |s| > 0 && s[0] == Slash ==> r == s[1..]
    ensures (|s| == 0 || s[0] != Slash) ==> r == s
  {
    if |s| > 0 && s[0] == Slash then s[1..] else s
  }

  predicate NoDoubleSlash(s: string) {
    forall i :: 0 <= i < |s| - 1 ==> !(s[i] == Slash && s[i + 1] == Slash)
  }

  /**
   * The rewrite "/[/]*" -> "/": each run of separators becomes one. The
   * result has no two separators in a row and starts with the same
   * character as the input.
   */
  function Collapse(s: string): (r: string)
    ensures NoDoubleSlash(r)
    ensures |r| <= |s|
    ensures |s| > 0 ==> |r| > 0 && r[0] == s[0]
    decreases |s|
  {
    if |s| == 0 then ""
    else if |s| >= 2 && s[0] == Slash && s[1] == Slash then Collapse(s[1..])
    else [s[0]] + Collapse(s[1..])
  }

  lemma CollapseCons(c: char, t: string)
    ensures Collapse([c] + t) ==
      if c == Slash && |t| > 0 && t[0] == Slash then Collapse(t) else [c] + Collapse(t)
  {
    assert ([c] + t)[1..] == t;
  }

  /** A string without runs of separators is left alone. */
  lemma {:induction false} CollapseIdentity(s: string)
    requires NoDoubleSlash(s)
    ensures Collapse(s) == s
    decreases |s|
  {
    if |s| > 0 {
      CollapseIdentity(s[1..]);
      assert s == [s[0]] + s[1..];
    }
  }

  lemma CollapseIdempotent(s: string)
    ensures Collapse(Collapse(s)) == Collapse(s)
  {
    CollapseIdentity(Collapse(s));
  }

  /** Doubling a separator anywhere does not change the collapsed string. */
  lemma {:induction false} CollapseDoubleSlash(a: string, b: string)
    ensures Collapse(a + [Slash, Slash] + b) == Collapse(a + [Slash] + b)
    decreases |a|
  {
    if |a| == 0 {
      assert ([Slash, Slash] + b) == [Slash] + ([Slash] + b);
      CollapseCons(Slash, [Slash] + b);
    } else {
      var x := a[1..] + [Slash, Slash] + b;
      var y := a[1..] + [Slash] + b;
      assert a + [Slash, Slash] + b == [a[0]] + x;
      assert a + [Slash] + b == [a[0]] + y;
      CollapseCons(a[0], x);
      CollapseCons(a[0], y);
      CollapseDoubleSlash(a[1..], b);
    }
  }

  /** An ASCII strings.ToLower on one character. */
  function LowerChar(c: char): char {
    if 'A' <= c <= 'Z' then (c as int + 32) as char else c
  }

  function Lower(s: string): (r: string)
    ensures |r| == |s|
    ensures forall i :: 0 <= i < |s| ==> r[i] == LowerChar(s[i])
  {
    seq(|s|, i requires 0 <= i < |s| => LowerChar(s[i]))
  }

  function LowerAll(parts: seq<string>): (r: seq<string>)
    ensures |r| == |parts|
    ensures forall i :: 0 <= i < |parts| ==> r[i] == Lower(parts[i])
  {
    seq(|parts|, i requires 0 <= i < |parts| => Lower(parts[i]))
  }

  lemma LowerIdempotent(s: string)
    ensures Lower(Lower(s)) == Lower(s)
  {
  }

  lemma LowerCons(c: char, t: string)
    ensures Lower([c] + t) == [LowerChar(c)] + Lower(t)
  {
  }

  /** Lower-casing keeps separators where they are, so it commutes with the rewrite. */
  lemma {:induction false} LowerCollapse(s: string)
    ensures Lower(Collapse(s)) == Collapse(Lower(s))
    decreases |s|
  {
    if |s| > 0 {
      var c, t := s[0], s[1..];
      assert s == [c] + t;
      LowerCollapse(t);
      LowerCons(c, t);
      CollapseCons(c, t);
      CollapseCons(LowerChar(c), Lower(t));
      if c == Slash && |t| > 0 && t[0] == Slash {
        assert Lower(Collapse(s)) == Collapse(Lower(t));
      } else {
        assert LowerChar(c) == Slash ==> c == Slash;
        LowerCons(c, Collapse(t));
        assert Lower(Collapse(s)) == [LowerChar(c)] + Collapse(Lower(t));
      }
    }
  }

  lemma LowerTrimSlash(s: string)
    ensures Lower(TrimSlash(s)) == TrimSlash(Lower(s))
  {
  }

  /** Lower-casing commutes with splitting on the separator. */
  lemma {:induction false} LowerSplit(s: string)
    ensures Split(Lower(s), Slash) == LowerAll(Split(s, Slash))
    decreases |s|
  {
    if |s| > 0 {
      LowerSplit(s[1..]);
      assert Lower(s)[1..] == Lower(s[1..]);
      var rest := Split(s[1..], Slash);
      if s[0] != Slash {
        assert Lower([s[0]] + rest[0]) == [LowerChar(s[0])] + Lower(rest[0]);
      }
    }
  }

  /** Index of the last occurrence of c, or -1 (strings.LastIndex). */
  function LastIndex(s: string, c: char): (i: int)
    ensures -1 <= i < |s|
    ensures i >= 0 ==> s[i] == c
    ensures forall j :: i < j < |s| ==> s[j] != c
  {
    if |s| == 0 then -1
    else if s[|s| - 1] == c then |s| - 1
    else LastIndex(s[..|s| - 1], c)
  }

  /**
   * The element stack of path.Clean: empty and "." elements vanish, ".."
   * removes the element before it, and a ".." that has nothing to remove is
   * dropped in a rooted path and kept otherwise.
   */
  function Resolve(elems: seq<string>, stack: seq<string>, rooted: bool): seq<string>
    decreases |elems|
  {
    if |elems| == 0 then stack
    else
      var e := elems[0];
      if e == "" || e == "." then Resolve(elems[1..], stack, rooted)
      else if e == ".." then
        if |stack| > 0 && stack[|stack| - 1] != ".." then Resolve(elems[1..], stack[..|stack| - 1], rooted)
        else if rooted then Resolve(elems[1..], stack, rooted)
        else Resolve(elems[1..], stack + [".."], rooted)
      else Resolve(elems[1..], stack + [e], rooted)
  }

  /** path.Clean. */
  function Clean(p: string): string
  {
    if p == "" then "."
    else
      var rooted := p[0] == Slash;
      var body := Join(Resolve(Split(p, Slash), [], rooted), Slash);
      if rooted then [Slash] + body
      else if body == "" then "."
      else body
  }

  /** path.Dir: everything up to the last separator, cleaned. */
  function Dir(p: string): string
  {
    Clean(p[..LastIndex(p, Slash) + 1])
  }

  function TrimTrailingSlashes(s: string): (r: string)
    ensures |r| <= |s| && r == s[..|r|]
    ensures |r| == 0 || r[|r| - 1] != Slash
  {
    if |s| > 0 && s[|s| - 1] == Slash then TrimTrailingSlashes(s[..|s| - 1]) else s
  }

  /** path.Base: the last element, "." for "" and "/" for a run of separators. */
  function Base(p: string): string
  {
    if p == "" then "."
    else
      var t := TrimTrailingSlashes(p);
      var b := t[LastIndex(t, Slash) + 1..];
      if b == "" then [Slash] else b
  }

  /** An element a clean path may hold. */
  predicate PlainElement(e: string) {
    e != "" && e != "." && e != ".." && Slash !in e
  }

  lemma {:induction false} ResolvePlain(elems: seq<string>, stack: seq<string>, rooted: bool)
    requires forall i :: 0 <= i < |elems| ==> PlainElement(elems[i])
    ensures Resolve(elems, stack, rooted) == stack + elems
    decreases |elems|
  {
    if |elems| > 0 {
      ResolvePlain(elems[1..], stack + [elems[0]], rooted);
      assert stack + [elems[0]] + elems[1..] == stack + elems;
    }
  }

  /** The absolute path "/e1/.../en" as the separator before en and en. */
  function PlainHead(elems: seq<string>): string
    requires |elems| >= 1
  {
    if |elems| == 1 then [Slash] else [Slash] + Join(elems[..|elems| - 1], Slash) + [Slash]
  }

  lemma PlainPathSplit(elems: seq<string>)
    requires |elems| >= 1
    ensures [Slash] + Join(elems, Slash) == PlainHead(elems) + elems[|elems| - 1]
  {
    var n := |elems|;
    var last := elems[n - 1];
    if n == 1 {
      assert Join(elems, Slash) == last;
    } else {
      var init := elems[..n - 1];
      SplitLast(elems);
      JoinSnoc(init, last, Slash);
      var j := Join(init, Slash);
      calc {
        [Slash] + Join(elems, Slash);
        [Slash] + (j + [Slash] + last);
        { Regroup(Slash, j, last); }
        ([Slash] + j + [Slash]) + last;
        PlainHead(elems) + last;
      }
    }
  }

  lemma Regroup<T>(x: T, j: seq<T>, last: seq<T>)
    ensures [x] + (j + [x] + last) == ([x] + j + [x]) + last
  {
  }

  lemma SplitLast<T>(s: seq<T>)
    requires |s| > 0
    ensures s == s[..|s| - 1] + [s[|s| - 1]]
  {
  }

  lemma CleanPlainHead(elems: seq<string>)
    requires |elems| >= 1
    requires forall i :: 0 <= i < |elems| ==> PlainElement(elems[i])
    ensures Clean(PlainHead(elems)) ==
      if |elems| == 1 then [Slash] else [Slash] + Join(elems[..|elems| - 1], Slash)
  {
    var n := |elems|;
    var head := PlainHead(elems);
    if n == 1 {
      assert head == "" + [Slash] + "";
      SplitConcat("", "", Slash);
      SplitNoSeparator("", Slash);
      assert Split(head, Slash) == ["", ""];
      assert Resolve(["", ""], [], true) == [];
    } else {
      var init := elems[..n - 1];
      assert head == "" + [Slash] + (Join(init, Slash) + [Slash] + "");
      SplitConcat("", Join(init, Slash) + [Slash] + "", Slash);
      SplitConcat(Join(init, Slash), "", Slash);
      SplitJoin(init, Slash);
      assert Split(head, Slash) == [""] + (init + [""]);
      assert Resolve([""] + (init + [""]), [], true) == Resolve(init + [""], [], true);
      ResolveDropsEmpty(init, [], true);
      assert Resolve(Split(head, Slash), [], true) == init;
      assert head[0] == Slash;
    }
  }

  /**
   * For an absolute path "/e1/.../en" of plain elements, path.Dir is
   * "/e1/.../e(n-1)" (the root for n = 1) and path.Base is en.
   */
  lemma DirBaseOfPlainPath(elems: seq<string>)
    requires |elems| >= 1
    requires forall i :: 0 <= i < |elems| ==> PlainElement(elems[i])
    ensures Dir([Slash] + Join(elems, Slash)) ==
      if |elems| == 1 then [Slash] else [Slash] + Join(elems[..|elems| - 1], Slash)
    ensures Base([Slash] + Join(elems, Slash)) == elems[|elems| - 1]
  {
    var last := elems[|elems| - 1];
    var head := PlainHead(elems);
    PlainPathSplit(elems);
    DirOfSplit(head, last);
    CleanPlainHead(elems);
    BaseOfSplit(head, last);
  }

  /** A path cut after its last separator: Dir is the cleaned head. */
  lemma DirOfSplit(head: string, last: string)
    requires |head| > 0 && head[|head| - 1] == Slash && Slash !in last
    ensures Dir(head + last) == Clean(head)
  {
    LastIndexSplit(head, last);
    assert (head + last)[..|head|] == head;
  }

  /** ... and Base is the part after it, when that part is not empty. */
  lemma BaseOfSplit(head: string, last: string)
    requires |head| > 0 && head[|head| - 1] == Slash && Slash !in last && last != ""
    ensures Base(head + last) == last
  {
    var p := head + last;
    assert p[|p| - 1] == last[|last| - 1];
    TrimTrailingNone(p);
    LastIndexSplit(head, last);
    assert p[|head|..] == last;
  }

  lemma ResolveDropsEmpty(elems: seq<string>, stack: seq<string>, rooted: bool)
    requires forall i :: 0 <= i < |elems| ==> PlainElement(elems[i])
    ensures Resolve(elems + [""], stack, rooted) == stack + elems
    decreases |elems|
  {
    if |elems| == 0 {
      assert Resolve([""], stack, rooted) == Resolve([], stack, rooted);
    } else {
      assert (elems + [""])[1..] == elems[1..] + [""];
      ResolveDropsEmpty(elems[1..], stack + [elems[0]], rooted);
      assert stack + [elems[0]] + elems[1..] == stack + elems;
    }
  }

  lemma LastIndexSplit(head: string, last: string)
    requires |head| > 0 && head[|head| - 1] == Slash
    requires Slash !in last
    ensures LastIndex(head + last, Slash) == |head| - 1
    decreases |last|
  {
    var s := head + last;
    if |last| > 0 {
      assert s[..|s| - 1] == head + last[..|last| - 1];
      LastIndexSplit(head, last[..|last| - 1]);
    } else {
      assert s == head;
    }
  }

  lemma TrimTrailingNone(s: string)
    requires |s| > 0 && s[|s| - 1] != Slash
    ensures TrimTrailingSlashes(s) == s
  {
  }

  /** strings.Index of a non-empty separator, or -1. */
  function IndexOf(s: string, sep: string): (i: int)
    requires |sep| > 0
    ensures i == -1 || 0 <= i <= |s| - |sep|
    ensures i >= 0 ==> s[i..i + |sep|] == sep
    decreases |s|
  {
    if |s| < |sep| then -1
    else if s[..|sep|] == sep then 0
    else
      var j := IndexOf(s[1..], sep);
      if j < 0 then -1
      else
        assert s[1..][j..j + |sep|] == s[j + 1..j + 1 + |sep|];
        j + 1
  }

  function Concat(pieces: seq<string>): string {
    if |pieces| == 0 then "" else pieces[0] + Concat(pieces[1..])
  }

  /**
   * strings.SplitAfter with no limit: the string is cut after each
   * occurrence of sep (after each character when sep is empty), so the
   * pieces concatenate back to the input.
   */
  function SplitAfter(s: string, sep: string): (r: seq<string>)
    ensures Concat(r) == s
    ensures |sep| > 0 ==> |r| >= 1
    decreases |s|
  {
    if |sep| == 0 then
      if |s| == 0 then [] else [[s[0]]] + SplitAfter(s[1..], sep)
    else
      var i := IndexOf(s, sep);
      if i < 0 then [s]
      else
        var r := [s[..i + |sep|]] + SplitAfter(s[i + |sep|..], sep);
        assert r[1..] == SplitAfter(s[i + |sep|..], sep);
        assert s == s[..i + |sep|] + s[i + |sep|..];
        r
  }
  /** One cut of SplitAfter at the first occurrence of the separator. */
  lemma SplitAfterStep(s: string, sep: string)
    requires |sep| > 0 && IndexOf(s, sep) >= 0
    ensures SplitAfter(s, sep) == [s[..IndexOf(s, sep) + |sep|]] + SplitAfter(s[IndexOf(s, sep) + |sep|..], sep)
  {
  }


  /** strings.Join with a string separator. */
  function JoinWith(parts: seq<string>, sep: string): string
  {
    if |parts| == 0 then ""
    else if |parts| == 1 then parts[0]
    else parts[0] + sep + JoinWith(parts[1..], sep)
  }
}
