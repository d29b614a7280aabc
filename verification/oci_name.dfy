/** The repository-name scanner, and the `<name>` grammar of the OCI Distribution
    Specification v1.1 it recognises. */
module OciName {
  import opened Text

  const MAX_NAME_LENGTH: nat := 255

  predicate IsAlnum(c: char) { '0' <= c <= '9' || 'a' <= c <= 'z' }

  // ---------------------------------------------------------------- the grammar

  /** `[a-z0-9]+` */
  ghost predicate IsRun(s: string) { s != "" && forall i | 0 <= i < |s| :: IsAlnum(s[i]) }

  /** `[._]|__|[-]*`, which lets two runs meet with nothing between them. */
  ghost predicate IsSeparator(s: string) { s == "." || s == "_" || s == "__" || IsDashes(s) }

  predicate IsDashes(s: string) { forall i | 0 <= i < |s| :: s[i] == '-' }

  datatype Piece = Piece(separator: string, run: string)

  function Render(pieces: seq<Piece>): string {
    if pieces == [] then ""
    else Render(pieces[..|pieces| - 1]) + pieces[|pieces| - 1].separator + pieces[|pieces| - 1].run
  }

  ghost predicate WellFormedPieces(pieces: seq<Piece>) {
    forall i | 0 <= i < |pieces| :: IsSeparator(pieces[i].separator) && IsRun(pieces[i].run)
  }

  ghost predicate Derives(first: string, pieces: seq<Piece>, s: string) {
    IsRun(first) && WellFormedPieces(pieces) && s == first + Render(pieces)
  }

  /** `[a-z0-9]+((?:[._]|__|[-]*)[a-z0-9]+)*` */
  ghost predicate IsComponent(s: string) { exists first, pieces :: Derives(first, pieces, s) }

  // ---------------------------------------------------------------- the scanner's condition

  predicate IsValidSeparator(s: string) {
    s == "." || s == "_" || s == "__" || (s != "" && IsDashes(s))
  }

  /** `s[i..j]` is a maximal stretch without alphanumerics. */
  ghost predicate IsGap(s: string, i: nat, j: nat) {
    && i < j <= |s|
    && (forall k | i <= k < j :: !IsAlnum(s[k]))
    && (i > 0 ==> IsAlnum(s[i - 1]))
    && (j < |s| ==> IsAlnum(s[j]))
  }

  /** What the scanner checks: alphanumeric ends, and a separator in every gap. */
  ghost predicate Scans(s: string) {
    && s != "" && IsAlnum(s[0]) && IsAlnum(s[|s| - 1])
    && forall i: nat, j: nat | IsGap(s, i, j) :: IsValidSeparator(s[i..j])
  }

  method ValidateComponent(s: string) returns (ok: bool)
    ensures ok <==> Scans(s)
  {
    if s == "" {
      return false;
    }
    if !IsAlnum(s[0]) || !IsAlnum(s[|s| - 1]) {
      return false;
    }
    var i := 0;
    while i < |s|
      invariant 0 <= i <= |s|
      invariant 0 < i < |s| && !IsAlnum(s[i]) ==> IsAlnum(s[i - 1])
      invariant forall a: nat, b: nat | IsGap(s, a, b) && a < i :: b <= i && IsValidSeparator(s[a..b])
    {
      if IsAlnum(s[i]) {
        i := i + 1;
        continue;
      }
      var start := i;
      while i < |s| && !IsAlnum(s[i])
        invariant start <= i <= |s|
        invariant forall k | start <= k < i :: !IsAlnum(s[k])
      {
        i := i + 1;
      }
      assert IsGap(s, start, i);
      if !IsValidSeparator(s[start..i]) {
        return false;
      }
      forall a: nat, b: nat | IsGap(s, a, b) && a < i ensures b <= i && IsValidSeparator(s[a..b]) {
        if a >= start { GapsCoincide(s, start, i, a, b); }
      }
    }
    ok := true;
  }

  lemma GapsCoincide(s: string, i: nat, j: nat, a: nat, b: nat)
    requires IsGap(s, i, j) && IsGap(s, a, b) && i <= a < j
    ensures a == i && b == j
  {
  }

  // ---------------------------------------------------------------- scanner and grammar agree

  lemma ScansMore(s: string, piece: Piece)
    requires Scans(s) && IsSeparator(piece.separator) && IsRun(piece.run)
    ensures Scans(s + piece.separator + piece.run)
  {
    var t := s + piece.separator + piece.run;
    var mid := |s| + |piece.separator|;
    assert forall k | 0 <= k < |s| :: t[k] == s[k];
    assert forall k | mid <= k < |t| :: IsAlnum(t[k]);
    assert forall k | |s| <= k < mid :: t[k] == piece.separator[k - |s|] && !IsAlnum(t[k]);
    forall i: nat, j: nat | IsGap(t, i, j) ensures IsValidSeparator(t[i..j]) {
      assert !IsAlnum(t[i]) && i < mid;
      if i < |s| {
        assert IsAlnum(t[|s| - 1]);
        assert j < |s| && IsGap(s, i, j) && t[i..j] == s[i..j];
      } else {
        assert IsGap(t, |s|, mid);
        GapsCoincide(t, |s|, mid, i, j);
        assert t[|s|..mid] == piece.separator;
      }
    }
  }

  lemma RunScans(run: string)
    requires IsRun(run)
    ensures Scans(run)
  {
    assert forall i: nat, j: nat | IsGap(run, i, j) :: !IsAlnum(run[i]);
  }

  lemma RenderMore(first: string, pieces: seq<Piece>, last: Piece)
    ensures first + Render(pieces + [last]) == first + Render(pieces) + last.separator + last.run
  {
    assert (pieces + [last])[..|pieces|] == pieces;
  }

  lemma {:induction false} DerivedScans(first: string, pieces: seq<Piece>)
    requires IsRun(first) && WellFormedPieces(pieces)
    ensures Scans(first + Render(pieces))
    decreases |pieces|
  {
    if pieces == [] {
      assert first + Render(pieces) == first;
      RunScans(first);
    } else {
      var init, last := pieces[..|pieces| - 1], pieces[|pieces| - 1];
      DerivedScans(first, init);
      ScansMore(first + Render(init), last);
      assert pieces == init + [last];
      RenderMore(first, init, last);
    }
  }

  /** The last gap of a string that has one. */
  lemma LastGap(s: string) returns (i: nat, j: nat)
    requires Scans(s) && !IsRun(s)
    ensures IsGap(s, i, j) && 0 < i && j < |s|
    ensures forall k | j <= k < |s| :: IsAlnum(s[k])
  {
    j := |s|;
    while j > 0 && IsAlnum(s[j - 1])
      invariant j <= |s|
      invariant forall k | j <= k < |s| :: IsAlnum(s[k])
    {
      j := j - 1;
    }
    i := j;
    while i > 0 && !IsAlnum(s[i - 1])
      invariant i <= j
      invariant forall k | i <= k < j :: !IsAlnum(s[k])
    {
      i := i - 1;
    }
  }

  lemma {:induction false} ScannedDerives(s: string) returns (first: string, pieces: seq<Piece>)
    requires Scans(s)
    ensures Derives(first, pieces, s)
    decreases |s|
  {
    if IsRun(s) {
      first, pieces := s, [];
      assert s + "" == s;
    } else {
      var i, j := LastGap(s);
      FrontScans(s, i, j);
      var init;
      first, init := ScannedDerives(s[..i]);
      pieces := init + [Piece(s[i..j], s[j..])];
      DerivesMore(first, init, s, i, j);
    }
  }

  lemma FrontScans(s: string, i: nat, j: nat)
    requires Scans(s) && IsGap(s, i, j) && 0 < i
    ensures Scans(s[..i])
  {
    var front := s[..i];
    forall a: nat, b: nat | IsGap(front, a, b) ensures IsValidSeparator(front[a..b]) {
      assert b != i && IsGap(s, a, b) && front[a..b] == s[a..b];
    }
  }

  lemma DerivesMore(first: string, init: seq<Piece>, s: string, i: nat, j: nat)
    requires Scans(s) && IsGap(s, i, j) && j < |s| && Derives(first, init, s[..i])
    requires forall k | j <= k < |s| :: IsAlnum(s[k])
    ensures Derives(first, init + [Piece(s[i..j], s[j..])], s)
  {
    RenderMore(first, init, Piece(s[i..j], s[j..]));
    assert s == s[..i] + s[i..j] + s[j..];
  }

  /** The scanner accepts exactly the components of the grammar. */
  lemma ScansIffComponent(s: string)
    ensures Scans(s) <==> IsComponent(s)
  {
    if Scans(s) {
      var first, pieces := ScannedDerives(s);
    }
    if IsComponent(s) {
      var first, pieces :| Derives(first, pieces, s);
      DerivedScans(first, pieces);
    }
  }

  // ---------------------------------------------------------------- whole names

  ghost predicate AreComponents(parts: seq<string>) {
    parts != [] && forall i | 0 <= i < |parts| :: IsComponent(parts[i])
  }

  /** Components joined by slashes, at most 255 octets in all. */
  ghost predicate IsName(s: string) {
    |s| <= MAX_NAME_LENGTH && exists parts :: AreComponents(parts) && s == Join(parts, '/')
  }

  lemma ComponentLacksSlash(s: string)
    requires Scans(s)
    ensures Lacks(s, '/')
  {
    if '/' in s {
      var k :| 0 <= k < |s| && s[k] == '/';
      var i, j := GapAround(s, k);
    }
  }

  lemma GapAround(s: string, k: nat) returns (i: nat, j: nat)
    requires k < |s| && !IsAlnum(s[k])
    ensures IsGap(s, i, j) && i <= k < j
  {
    i, j := k, k + 1;
    while i > 0 && !IsAlnum(s[i - 1])
      invariant i <= k && forall m | i <= m <= k :: !IsAlnum(s[m])
    {
      i := i - 1;
    }
    while j < |s| && !IsAlnum(s[j])
      invariant k < j <= |s| && forall m | i <= m < j :: !IsAlnum(s[m])
    {
      j := j + 1;
    }
  }

  /** Validation accepts exactly the names of the grammar. */
  method ValidateName(name: string) returns (ok: bool)
    ensures ok <==> IsName(name)
  {
    NameIffSplitScans(name);
    if name == "" || |name| > MAX_NAME_LENGTH {
      return false;
    }
    var parts := Split(name, '/');
    for i := 0 to |parts|
      invariant forall k | 0 <= k < i :: Scans(parts[k])
    {
      var valid := ValidateComponent(parts[i]);
      if !valid {
        return false;
      }
    }
    ok := true;
  }

  lemma NameIffSplitScans(name: string)
    ensures var parts := Split(name, '/');
            IsName(name) <==> |name| <= MAX_NAME_LENGTH && forall i | 0 <= i < |parts| :: Scans(parts[i])
  {
    var parts := Split(name, '/');
    JoinOfSplit(name, '/');
    if forall i | 0 <= i < |parts| :: Scans(parts[i]) {
      forall i | 0 <= i < |parts| ensures IsComponent(parts[i]) { ScansIffComponent(parts[i]); }
      assert AreComponents(parts);
    }
    if IsName(name) {
      var pieces :| AreComponents(pieces) && name == Join(pieces, '/');
      forall i | 0 <= i < |pieces| ensures Scans(pieces[i]) && Lacks(pieces[i], '/') {
        ScansIffComponent(pieces[i]);
        ComponentLacksSlash(pieces[i]);
      }
      SplitOfJoin(pieces, '/');
    }
  }
}
