/** Paged listings of tags and repositories: pages are cut from the sorted names, and walking
    them visits every name once. */
module OciListing {
  import opened Prelude

  // ---------------------------------------------------------------- the order of names

  /** Lexicographic order, a proper prefix first. */
  predicate Less(a: string, b: string) {
    b != "" && (a == "" || a[0] < b[0] || (a[0] == b[0] && Less(a[1..], b[1..])))
  }

  lemma {:induction false} LessIrreflexive(a: string)
    ensures !Less(a, a)
  {
    if a != "" { LessIrreflexive(a[1..]); }
  }

  lemma {:induction false} LessTransitive(a: string, b: string, c: string)
    requires Less(a, b) && Less(b, c)
    ensures Less(a, c)
    decreases |a|
  {
    if a != "" && a[0] == b[0] && b[0] == c[0] { LessTransitive(a[1..], b[1..], c[1..]); }
  }

  lemma {:induction false} LessTotal(a: string, b: string)
    ensures Less(a, b) || a == b || Less(b, a)
    decreases |a|
  {
    if a != "" && b != "" && a[0] == b[0] {
      LessTotal(a[1..], b[1..]);
      assert a == [a[0]] + a[1..] && b == [b[0]] + b[1..];
    }
  }

  /** The first place where two names differ. */
  ghost predicate DifferAt(a: string, b: string, i: nat) { i < |a| && i < |b| && a[..i] == b[..i] && a[i] < b[i] }

  /** One name comes before another if it is a proper prefix of it, or has the smaller character
      where they first differ. */
  lemma {:induction false} LessExactly(a: string, b: string)
    ensures Less(a, b) <==> a < b || exists i :: DifferAt(a, b, i)
    decreases |a|
  {
    if a != "" && b != "" {
      var x, y := a[1..], b[1..];
      assert a == [a[0]] + x && b == [b[0]] + y;
      LessExactly(x, y);
      if a[0] == b[0] {
        assert a < b <==> x < y;
        if exists i :: DifferAt(x, y, i) {
          var i: nat :| DifferAt(x, y, i);
          assert a[..i + 1] == [a[0]] + x[..i] && b[..i + 1] == [b[0]] + y[..i];
          assert DifferAt(a, b, i + 1);
        }
        if exists i :: DifferAt(a, b, i) {
          var i: nat :| DifferAt(a, b, i);
          assert i > 0 && x[..i - 1] == a[..i][1..] && y[..i - 1] == b[..i][1..];
          assert DifferAt(x, y, i - 1);
        }
      } else if a[0] < b[0] {
        assert DifferAt(a, b, 0);
      } else {
        forall i: nat ensures !DifferAt(a, b, i) {
          if 0 < i <= |a| && i <= |b| { assert a[..i][0] == a[0] && b[..i][0] == b[0]; }
        }
      }
    }
  }

  ghost predicate Sorted(names: seq<string>) {
    forall i, j | 0 <= i < j < |names| :: Less(names[i], names[j])
  }

  // ---------------------------------------------------------------- one page

  predicate Past(last: Option<string>, name: string) { last.Some? ==> Less(last.value, name) }

  /** The page of at most `n` names after `last`: its names in order, and every name of `all`
      after `last` is on it, unless the page is full and the name comes after all of it. */
  ghost predicate IsPage(all: set<string>, last: Option<string>, n: Option<nat>, page: seq<string>) {
    && Sorted(page)
    && (forall x :: x in page ==> x in all && Past(last, x))
    && (n.Some? ==> |page| <= n.value)
    && (forall x :: x in all && Past(last, x) && x !in page ==>
          n.Some? && |page| == n.value && forall y :: y in page ==> Less(y, x))
  }

  /** `list_tags` and `list_repositories`: collect, sort, skip to the cursor, truncate. */
  method ListPage(all: set<string>, last: Option<string>, n: Option<nat>) returns (page: seq<string>)
    ensures IsPage(all, last, n, page)
  {
    var names := SortNames(all);
    var i := 0;
    page := [];
    while i < |names|
      invariant 0 <= i <= |names|
      invariant Sorted(page)
      invariant forall x :: x in page <==> x in names[..i] && Past(last, x)
    {
      if Past(last, names[i]) {
        SortedSnoc(page, names, i);
        page := page + [names[i]];
      }
      assert names[..i + 1] == names[..i] + [names[i]];
      i := i + 1;
    }
    assert names[..i] == names;
    if n.Some? && n.value < |page| {
      TruncatedAfter(page, n.value);
      page := page[..n.value];
    }
  }

  lemma SortedSnoc(page: seq<string>, names: seq<string>, i: nat)
    requires Sorted(page) && Sorted(names) && i < |names|
    requires forall x :: x in page ==> x in names[..i]
    ensures Sorted(page + [names[i]])
  {
    forall k | 0 <= k < |page| ensures Less(page[k], names[i]) {
      assert page[k] in names[..i];
      var j :| 0 <= j < i && names[j] == page[k];
    }
  }

  lemma TruncatedAfter(page: seq<string>, n: nat)
    requires Sorted(page) && n < |page|
    ensures Sorted(page[..n])
    ensures forall x, y :: x in page && x !in page[..n] && y in page[..n] ==> Less(y, x)
  {
    forall x, y | x in page && x !in page[..n] && y in page[..n] ensures Less(y, x) {
      var i :| 0 <= i < |page| && page[i] == x;
      var j :| 0 <= j < n && page[j] == y;
    }
  }

  /** Names in ascending order, smallest remaining first. */
  method SortNames(all: set<string>) returns (names: seq<string>)
    ensures Sorted(names)
    ensures forall x :: x in names <==> x in all
  {
    names := [];
    var todo := all;
    while todo != {}
      invariant todo <= all
      invariant Sorted(names)
      invariant forall x :: x in names <==> x in all && x !in todo
      invariant forall x, y :: x in names && y in todo ==> Less(x, y)
      decreases |todo|
    {
      var least := Least(todo);
      names := names + [least];
      todo := todo - {least};
    }
  }

  method Least(todo: set<string>) returns (least: string)
    requires todo != {}
    ensures least in todo
    ensures forall y :: y in todo && y != least ==> Less(least, y)
  {
    least :| least in todo;
    var unseen := todo - {least};
    while unseen != {}
      invariant least in todo && unseen <= todo && least !in unseen
      invariant forall y :: y in todo && y !in unseen && y != least ==> Less(least, y)
      decreases |unseen|
    {
      var y :| y in unseen;
      unseen := unseen - {y};
      LessTotal(least, y);
      if Less(y, least) {
        forall z | z in todo && z !in unseen && z != y && z != least ensures Less(y, z) {
          LessTransitive(y, least, z);
        }
        least := y;
      }
    }
  }

  // ---------------------------------------------------------------- walking the pages

  /** A walk over a registry that does not change: each page starts after the last name of the
      one before, and an empty page ends it. */
  ghost predicate IsWalk(all: set<string>, last: Option<string>, n: nat, pages: seq<seq<string>>)
    decreases |pages|
  {
    && pages != [] && IsPage(all, last, Some(n), pages[0])
    && (if pages[0] == [] then |pages| == 1
        else IsWalk(all, Some(pages[0][|pages[0]| - 1]), n, pages[1..]))
  }

  function Concat<T>(parts: seq<seq<T>>): seq<T> {
    if parts == [] then [] else parts[0] + Concat(parts[1..])
  }

  /** Walking with any page size of at least one lists every name after `last` exactly once,
      in order. */
  lemma {:induction false} WalkVisitsAll(all: set<string>, last: Option<string>, n: nat, pages: seq<seq<string>>)
    requires n >= 1 && IsWalk(all, last, n, pages)
    ensures Sorted(Concat(pages))
    ensures forall x :: x in Concat(pages) <==> x in all && Past(last, x)
    decreases |pages|
  {
    var page := pages[0];
    if page != [] {
      var end := page[|page| - 1];
      var later := Concat(pages[1..]);
      WalkVisitsAll(all, Some(end), n, pages[1..]);
      assert Concat(pages) == page + later;
      forall x | x in all ensures x in Concat(pages) <==> Past(last, x) {
        PageOrLater(all, last, n, page, x);
      }
      SortedConcat(page, later);
    }
  }

  /** A name past the cursor is on the page or after its last name, never both. */
  lemma PageOrLater(all: set<string>, last: Option<string>, n: nat, page: seq<string>, x: string)
    requires IsPage(all, last, Some(n), page) && page != [] && x in all
    ensures Past(last, x) <==> x in page || Less(page[|page| - 1], x)
  {
    var end := page[|page| - 1];
    assert end in page;
    if Less(end, x) && last.Some? { LessTransitive(last.value, end, x); }
  }

  lemma SortedConcat(page: seq<string>, later: seq<string>)
    requires Sorted(page) && Sorted(later) && page != []
    requires forall x :: x in later ==> Less(page[|page| - 1], x)
    ensures Sorted(page + later)
  {
    forall i, j | 0 <= i < |page| && 0 <= j < |later| ensures Less(page[i], later[j]) {
      assert later[j] in later;
      if i < |page| - 1 { LessTransitive(page[i], page[|page| - 1], later[j]); }
    }
  }

  lemma NotPastEnd(page: seq<string>, x: string)
    requires Sorted(page) && x in page
    ensures !Less(page[|page| - 1], x)
  {
    var end := page[|page| - 1];
    var i :| 0 <= i < |page| && page[i] == x;
    LessIrreflexive(end);
    if Less(end, x) && i < |page| - 1 { LessTransitive(end, x, end); }
  }

  lemma BeforePage(all: set<string>, last: Option<string>, n: nat, page: seq<string>, names: seq<string>)
    requires IsPage(all, last, Some(n), page) && Sorted(names)
    requires forall x :: x in names ==> !Past(last, x)
    ensures Sorted(names + page)
  {
    forall i, j | 0 <= i < |names| && 0 <= j < |page| ensures Less(names[i], page[j]) {
      assert names[i] in names && page[j] in page;
      LessTotal(names[i], last.value);
      if Less(names[i], last.value) { LessTransitive(names[i], last.value, page[j]); }
    }
  }

  /** The walk itself: it ends, and lists every name exactly once, in order. */
  method WalkPages(all: set<string>, n: nat) returns (names: seq<string>)
    requires n >= 1
    ensures Sorted(names)
    ensures forall x :: x in names <==> x in all
  {
    var last: Option<string> := None;
    var todo := all;
    names := [];
    while true
      invariant Sorted(names)
      invariant forall x :: x in names <==> x in all && !Past(last, x)
      invariant todo == set x | x in all && Past(last, x)
      decreases todo
    {
      var page := ListPage(all, last, Some(n));
      if page == [] {
        return;
      }
      var end := page[|page| - 1];
      forall x | x in all ensures x in names + page <==> !Less(end, x) {
        PageOrLater(all, last, n, page, x);
        if x in page { NotPastEnd(page, x); }
      }
      BeforePage(all, last, n, page, names);
      assert end in page && end in todo;
      var rest := set x | x in todo && Less(end, x);
      NotPastEnd(page, end);
      assert rest <= todo - {end};
      names, last, todo := names + page, Some(end), rest;
    }
  }
}
