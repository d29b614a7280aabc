/** Splitting and joining strings at a character. */
module Text {

  ghost predicate Lacks(s: string, c: char) { c !in s }

  /** The pieces between occurrences of `c`; there is always at least one. */
  function Split(s: string, c: char): (parts: seq<string>)
    ensures parts != []
  {
    if s == "" then [""]
    else
      var tail := Split(s[1..], c);
      if s[0] == c then [""] + tail else [[s[0]] + tail[0]] + tail[1..]
  }

  function Join(parts: seq<string>, c: char): string {
    if parts == [] then "" else if |parts| == 1 then parts[0] else parts[0] + [c] + Join(parts[1..], c)
  }

  lemma {:induction false} JoinOfSplit(s: string, c: char)
    ensures Join(Split(s, c), c) == s
    ensures forall i | 0 <= i < |Split(s, c)| :: Lacks(Split(s, c)[i], c)
  {
    if s != "" {
      JoinOfSplit(s[1..], c);
      var tail := Split(s[1..], c);
      if s[0] == c {
        assert ([""] + tail)[1..] == tail;
      } else {
        var parts := Split(s, c);
        assert parts[1..] == tail[1..];
        if |tail| > 1 {
          assert Join(parts, c) == [s[0]] + (tail[0] + [c] + Join(tail[1..], c));
        }
        assert Join(parts, c) == [s[0]] + s[1..];
      }
    }
  }

  lemma {:induction false} SplitOfPart(part: string, c: char)
    requires Lacks(part, c)
    ensures Split(part, c) == [part]
  {
    if part != "" {
      SplitOfPart(part[1..], c);
      assert [part[0]] + part[1..] == part;
    }
  }

  lemma {:induction false} SplitOfConcat(part: string, rest: string, c: char)
    requires Lacks(part, c)
    ensures Split(part + [c] + rest, c) == [part] + Split(rest, c)
  {
    var s := part + [c] + rest;
    if part == "" {
      assert s[0] == c && s[1..] == rest;
    } else {
      assert s[1..] == part[1..] + [c] + rest;
      SplitOfConcat(part[1..], rest, c);
      var tail := Split(s[1..], c);
      assert tail[0] == part[1..] && tail[1..] == Split(rest, c);
      assert [part[0]] + part[1..] == part;
    }
  }

  /** Joining loses nothing as long as no part contains the joining character. */
  lemma {:induction false} SplitOfJoin(parts: seq<string>, c: char)
    requires parts != [] && forall i | 0 <= i < |parts| :: Lacks(parts[i], c)
    ensures Split(Join(parts, c), c) == parts
  {
    if |parts| == 1 {
      SplitOfPart(parts[0], c);
    } else {
      SplitOfJoin(parts[1..], c);
      SplitOfConcat(parts[0], Join(parts[1..], c), c);
    }
  }

  lemma SplitFirst(s: string, c: char)
    requires s != ""
    ensures s[0] == c ==> Split(s, c) == [""] + Split(s[1..], c)
    ensures s[0] != c ==> Split(s, c) == Longer(s[0], Split(s[1..], c))
  {
  }

  /** The first part one character longer. */
  function Longer(first: char, parts: seq<string>): seq<string>
    requires parts != []
  {
    [[first] + parts[0]] + parts[1..]
  }

  lemma LongerOfConcat(first: char, parts: seq<string>, more: seq<string>)
    requires parts != []
    ensures Longer(first, parts + more) == Longer(first, parts) + more
  {
    assert (parts + more)[1..] == parts[1..] + more;
  }

  /** Splitting a concatenation at its seam. */
  lemma {:induction false} SplitOfSeam(a: string, b: string, c: char)
    ensures Split(a + [c] + b, c) == Split(a, c) + Split(b, c)
  {
    var s := a + [c] + b;
    SplitFirst(s, c);
    if a == "" {
      assert s[1..] == b;
    } else {
      SplitFirst(a, c);
      assert s[1..] == a[1..] + [c] + b;
      SplitOfSeam(a[1..], b, c);
      SeamStep(a[0], Split(a[1..], c), Split(b, c));
    }
  }

  lemma SeamStep(first: char, parts: seq<string>, more: seq<string>)
    requires parts != []
    ensures [""] + (parts + more) == ([""] + parts) + more
    ensures Longer(first, parts + more) == Longer(first, parts) + more
  {
    LongerOfConcat(first, parts, more);
  }

  /** Every `from` turned into `to`. */
  function Replace(s: string, from: char, to: char): string {
    seq(|s|, i requires 0 <= i < |s| => if s[i] == from then to else s[i])
  }

  /** Turning separators into other separators does not move the parts. */
  lemma {:induction false} SplitOfReplace(s: string, from: char, to: char)
    requires Lacks(s, to)
    ensures Split(Replace(s, from, to), to) == Split(s, from)
  {
    if s != "" {
      assert Replace(s, from, to)[1..] == Replace(s[1..], from, to);
      SplitOfReplace(s[1..], from, to);
    }
  }

  lemma {:induction false} LacksParts(s: string, c: char, d: char)
    requires Lacks(s, d)
    ensures forall i | 0 <= i < |Split(s, c)| :: Lacks(Split(s, c)[i], d)
  {
    if s != "" { LacksParts(s[1..], c, d); }
  }

  // ---------------------------------------------------------------- prefixes, suffixes, last parts

  predicate EndsWith(s: string, suffix: string) { |suffix| <= |s| && s[|s| - |suffix|..] == suffix }

  /** The position of the last `c`. */
  function LastIndex(s: string, c: char): (i: int)
    ensures -1 <= i < |s|
    ensures i >= 0 ==> s[i] == c && Lacks(s[i + 1..], c)
    ensures i < 0 ==> Lacks(s, c)
  {
    if s == "" then -1
    else if s[|s| - 1] == c then |s| - 1
    else LastIndex(s[..|s| - 1], c)
  }

  /** A string falls apart at its last `c` in one way only. */
  lemma LastSeamUnique(a: string, x: string, b: string, y: string, c: char)
    requires a + [c] + x == b + [c] + y && Lacks(x, c) && Lacks(y, c)
    ensures a == b && x == y
  {
    var s := a + [c] + x;
    assert s[|a|] == c && s[|b|] == c;
    assert a == s[..|a|] && b == s[..|b|];
    assert x == s[|a| + 1..] && y == s[|b| + 1..];
  }

  lemma {:induction false} LastIndexAtSeam(a: string, x: string, c: char)
    requires Lacks(x, c)
    ensures LastIndex(a + [c] + x, c) == |a|
  {
    var s := a + [c] + x;
    var i := LastIndex(s, c);
    assert s[|a|] == c;
    if i >= 0 {
      assert s == s[..i] + [c] + s[i + 1..];
      LastSeamUnique(a, x, s[..i], s[i + 1..], c);
    }
  }
}
