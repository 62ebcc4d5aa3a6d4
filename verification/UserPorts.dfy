/** The configured user-port ranges: parsing, aligning to blocks of a hundred, merging, printing and counting. */
module UserPorts {
  import opened Common
  import opened Sorting
  import opened Text

  const BASE: int := 10000
  const LAST: int := 29999
  const SIZE: int := 100

  datatype PortRange = PortRange(lo: int, hi: int)

  // ---- one token

  /** A token is blank, malformed, or names the two ends of a range. */
  datatype Piece = Blank | Malformed | Given(a: int, b: int)

  function Read(tok: string): Piece {
    if TrimSpace(tok) == "" then Blank else ReadEnds(TrimSpace(tok))
  }

  function ReadEnds(tok: string): Piece {
    var parts := Split(tok, '-');
    if |parts| != 2 || TrimSpace(parts[0]) == "" || TrimSpace(parts[1]) == "" then Malformed
    else
      var a, b := Atoi(TrimSpace(parts[0])), Atoi(TrimSpace(parts[1]));
      if a.None? || b.None? || a.value > b.value then Malformed else Given(a.value, b.value)
  }

  function Pieces(s: string): seq<Piece> {
    var toks := Split(s, ',');
    seq(|toks|, i requires 0 <= i < |toks| => Read(toks[i]))
  }

  lemma TwoParts(t: string, x: string, y: string)
    ensures Split(t, '-') == [x, y] <==> t == x + "-" + y && '-' !in x && '-' !in y
  {
    if Split(t, '-') == [x, y] {
      JoinSplit(t, '-');
      assert '-' !in Split(t, '-')[0] && '-' !in Split(t, '-')[1];
    } else if t == x + "-" + y && '-' !in x && '-' !in y {
      SplitConcat(x, y, '-');
      SplitNone(x, '-');
      SplitNone(y, '-');
      assert false;
    }
  }

  /** The text is the numbers a and b, each with any blanks around it, and a dash between them. */
  ghost predicate Dashed(t: string, a: int, b: int) {
    exists x, y ::
      t == x + "-" + y && '-' !in x && '-' !in y && Atoi(TrimSpace(x)) == Some(a) && Atoi(TrimSpace(y)) == Some(b)
  }

  lemma EndsMean(t: string, a: int, b: int)
    ensures ReadEnds(t) == Given(a, b) <==> Dashed(t, a, b) && a <= b
  {
    var parts := Split(t, '-');
    if |parts| == 2 {
      assert parts == [parts[0], parts[1]];
      TwoParts(t, parts[0], parts[1]);
    }
    if Dashed(t, a, b) {
      var x, y :| t == x + "-" + y && '-' !in x && '-' !in y && Atoi(TrimSpace(x)) == Some(a) && Atoi(TrimSpace(y)) == Some(b);
      TwoParts(t, x, y);
    }
  }

  /** What a token means: nothing if it is blank, the range a to b if it is such a pair in order, and an error otherwise. */
  lemma TokenMeans(tok: string, a: int, b: int)
    ensures Read(tok).Blank? <==> AllSpace(tok)
    ensures Read(tok) == Given(a, b) <==> Dashed(TrimSpace(tok), a, b) && a <= b
  {
    TrimmedBlank(tok);
    EndsMean(TrimSpace(tok), a, b);
    EndsMean("", a, b);
  }

  /** The tokens are what stands between the commas. */
  lemma PiecesOfTokens(toks: seq<string>)
    requires toks != [] && forall i :: 0 <= i < |toks| ==> ',' !in toks[i]
    ensures |Pieces(Join(toks, ","))| == |toks|
    ensures forall i :: 0 <= i < |toks| ==> Pieces(Join(toks, ","))[i] == Read(toks[i])
  {
    SplitJoin(toks, ',');
  }

  /** A range clamped to the usable ports and shrunk to whole blocks, if anything remains. */
  function Clip(a: int, b: int): Option<PortRange> {
    var a', b' := Max(a, BASE), Min(b, LAST);
    if a' > b' then None
    else
      var lo, hi := (a' + SIZE - 1) / SIZE * SIZE, (b' + 1) / SIZE * SIZE - 1;
      if lo > hi then None else Some(PortRange(lo, hi))
  }

  predicate Aligned(r: PortRange) {
    BASE <= r.lo < r.hi <= LAST && r.lo % SIZE == 0 && (r.hi + 1) % SIZE == 0
  }

  /** A block lies in the clipped range exactly if all its ports lie in the given one and are usable. */
  lemma ClipKeepsWholeBlocks(a: int, b: int, start: int)
    requires start % 100 == 0
    ensures Clip(a, b).Some? ==> Aligned(Clip(a, b).value)
    ensures (Clip(a, b).Some? && Clip(a, b).value.lo <= start <= Clip(a, b).value.hi) <==>
      (a <= start && start + 99 <= b && 10000 <= start && start + 99 <= 29999)
  {
  }

  // ---- merging

  predicate LoLeq(x: PortRange, y: PortRange) { x.lo <= y.lo }

  ghost predicate AllAligned(rs: seq<PortRange>) { forall i :: 0 <= i < |rs| ==> Aligned(rs[i]) }

  /** Sorted, and never overlapping or touching. */
  ghost predicate Separated(rs: seq<PortRange>) {
    forall i, j :: 0 <= i < j < |rs| ==> rs[i].hi + 1 < rs[j].lo
  }

  /** The form every result has. */
  ghost predicate Normal(rs: seq<PortRange>) { AllAligned(rs) && Separated(rs) }

  predicate In(r: PortRange, port: int) { r.lo <= port <= r.hi }

  ghost predicate Covered(rs: seq<PortRange>, port: int) { exists i :: 0 <= i < |rs| && In(rs[i], port) }

  function Merged(rs: seq<PortRange>): (m: seq<PortRange>)
    ensures rs != [] ==> m != []
  {
    if |rs| <= 1 then rs
    else
      var m, r := Merged(rs[..|rs| - 1]), rs[|rs| - 1];
      MergeInto(m, r)
  }

  function MergeInto(m: seq<PortRange>, r: PortRange): (out: seq<PortRange>)
    requires m != []
    ensures out != []
  {
    var last := m[|m| - 1];
    if r.lo <= last.hi + 1 then (if r.hi > last.hi then m[|m| - 1 := PortRange(last.lo, r.hi)] else m)
    else m + [r]
  }

  lemma SortedFront(rs: seq<PortRange>)
    requires AllAligned(rs) && SortedBy(rs, LoLeq) && |rs| > 1
    ensures var front, r := rs[..|rs| - 1], rs[|rs| - 1];
      AllAligned(front) && SortedBy(front, LoLeq) && Aligned(r) && front[|front| - 1].lo <= r.lo
  {
    assert LoLeq(rs[|rs| - 2], rs[|rs| - 1]);
  }

  /** Merging sorted, aligned ranges covers the same ports with separated ones. */
  lemma {:induction false} MergedMeans(rs: seq<PortRange>, port: int)
    requires AllAligned(rs) && SortedBy(rs, LoLeq)
    ensures Normal(Merged(rs))
    ensures Covered(Merged(rs), port) <==> Covered(rs, port)
    ensures rs != [] ==> Merged(rs)[|Merged(rs)| - 1].lo <= rs[|rs| - 1].lo
  {
    if |rs| > 1 {
      var front, r := rs[..|rs| - 1], rs[|rs| - 1];
      SortedFront(rs);
      MergedMeans(front, port);
      MergeMore(Merged(front), front, r, port);
      assert front + [r] == rs;
    }
  }

  lemma MergeMore(m: seq<PortRange>, front: seq<PortRange>, r: PortRange, port: int)
    requires m != [] && Normal(m) && Aligned(r) && m[|m| - 1].lo <= r.lo
    requires Covered(m, port) <==> Covered(front, port)
    ensures Normal(MergeInto(m, r)) && MergeInto(m, r)[|MergeInto(m, r)| - 1].lo <= r.lo
    ensures Covered(MergeInto(m, r), port) <==> Covered(front + [r], port)
  {
    MergeStep(m, r, port);
    CoveredSplit(front, r, port);
  }

  lemma CoveredSplit(rs: seq<PortRange>, r: PortRange, port: int)
    ensures Covered(rs + [r], port) <==> Covered(rs, port) || In(r, port)
  {
    if Covered(rs, port) {
      var i :| 0 <= i < |rs| && In(rs[i], port);
      assert In((rs + [r])[i], port);
    }
    assert (rs + [r])[|rs|] == r;
  }

  lemma MergeStep(m: seq<PortRange>, r: PortRange, port: int)
    requires m != [] && Normal(m) && Aligned(r) && m[|m| - 1].lo <= r.lo
    ensures Normal(MergeInto(m, r))
    ensures Covered(MergeInto(m, r), port) <==> Covered(m, port) || In(r, port)
    ensures MergeInto(m, r)[|MergeInto(m, r)| - 1].lo <= r.lo
  {
    var front, last := m[..|m| - 1], m[|m| - 1];
    assert m == front + [last];
    CoveredSplit(front, last, port);
    if r.lo <= last.hi + 1 {
      if r.hi > last.hi {
        assert MergeInto(m, r) == front + [PortRange(last.lo, r.hi)];
        CoveredSplit(front, PortRange(last.lo, r.hi), port);
      }
    } else {
      CoveredSplit(m, r, port);
    }
  }

  // ---- the normal form is unique

  lemma FirstPort(rs: seq<PortRange>, port: int)
    requires Normal(rs) && rs != []
    ensures Covered(rs, rs[0].lo)
    ensures Covered(rs, port) ==> rs[0].lo <= port
  {
  }

  lemma HeadCovers(rs: seq<PortRange>, port: int)
    requires Normal(rs) && rs != []
    ensures Covered(rs, port) <==> In(rs[0], port) || Covered(rs[1..], port)
    ensures Covered(rs[1..], port) ==> port > rs[0].hi + 1
    ensures Normal(rs[1..])
  {
  }

  /** Two normal forms that cover the same ports are the same: the result does not depend on the order of the
      ranges in the text, nor on how the sort arranges equal ones. */
  lemma {:induction false} NormalFormUnique(x: seq<PortRange>, y: seq<PortRange>)
    requires Normal(x) && Normal(y)
    requires forall p :: Covered(x, p) <==> Covered(y, p)
    ensures x == y
    decreases |x|
  {
    if x != [] { NotEmpty(x, y); }
    if y != [] { NotEmpty(y, x); }
    if x != [] && y != [] {
      FirstPort(x, y[0].lo);
      FirstPort(y, x[0].lo);
      assert x[0].lo == y[0].lo;
      HeadEnds(x, y);
      HeadEnds(y, x);
      assert x[0].hi == y[0].hi;
      forall p ensures Covered(x[1..], p) <==> Covered(y[1..], p) {
        HeadCovers(x, p);
        HeadCovers(y, p);
        assert Covered(x, p) <==> Covered(y, p);
      }
      HeadCovers(x, 0);
      HeadCovers(y, 0);
      NormalFormUnique(x[1..], y[1..]);
      assert x == [x[0]] + x[1..] && y == [y[0]] + y[1..];
    }
  }

  lemma NotEmpty(x: seq<PortRange>, y: seq<PortRange>)
    requires x != [] && Normal(x) && forall p :: Covered(x, p) ==> Covered(y, p)
    ensures y != []
  {
    FirstPort(x, 0);
    assert Covered(y, x[0].lo);
  }

  lemma HeadEnds(x: seq<PortRange>, y: seq<PortRange>)
    requires Normal(x) && Normal(y) && x != [] && y != [] && x[0].lo == y[0].lo
    requires forall p :: Covered(x, p) <==> Covered(y, p)
    ensures y[0].hi <= x[0].hi
  {
    if x[0].hi < y[0].hi {
      assert In(y[0], x[0].hi + 1) && Covered(y, x[0].hi + 1);
      HeadCovers(x, x[0].hi + 1);
      assert false;
    }
  }

  // ---- parsing

  /** The first malformed token is named by its number. */
  datatype Error = BadRange(index: nat) | NothingUsable

  predicate AnyBad(ps: seq<Piece>) { exists i :: 0 <= i < |ps| && ps[i].Malformed? }

  function FirstBad(ps: seq<Piece>): (i: nat)
    requires AnyBad(ps)
    ensures i < |ps| && ps[i].Malformed? && forall j :: 0 <= j < i ==> !ps[j].Malformed?
  {
    if ps[0].Malformed? then 0
    else
      assert AnyBad(ps[1..]) by {
        var i :| 0 <= i < |ps| && ps[i].Malformed?;
        assert ps[1..][i - 1] == ps[i];
      }
      FirstBad(ps[1..]) + 1
  }

  /** The clipped ranges, blank tokens and useless ranges left out. */
  function Clipped(ps: seq<Piece>): seq<PortRange> {
    if ps == [] then [] else Clipped(ps[..|ps| - 1]) + ClipPiece(ps[|ps| - 1])
  }

  function ClipPiece(p: Piece): seq<PortRange> {
    if !p.Given? || Clip(p.a, p.b).None? then [] else [Clip(p.a, p.b).value]
  }

  function Normalized(ps: seq<Piece>): Result<seq<PortRange>, Error> {
    if AnyBad(ps) then Err(BadRange(FirstBad(ps)))
    else if Clipped(ps) == [] then Err(NothingUsable)
    else Ok(Merged(Sort(Clipped(ps), LoLeq)))
  }

  /** Some piece names a range that contains the whole block at `start`. */
  ghost predicate Names(ps: seq<Piece>, start: int) {
    exists i :: 0 <= i < |ps| && NamesBlock(ps[i], start)
  }

  predicate NamesBlock(p: Piece, start: int) { p.Given? && p.a <= start && start + 99 <= p.b }

  predicate Usable(start: int) { 10000 <= start && start + 99 <= 29999 }

  lemma PieceBlocks(p: Piece, start: int)
    requires start % 100 == 0
    ensures AllAligned(ClipPiece(p))
    ensures Covered(ClipPiece(p), start) <==> NamesBlock(p, start) && Usable(start)
  {
    if p.Given? {
      ClipKeepsWholeBlocks(p.a, p.b, start);
      if Clip(p.a, p.b).Some? { assert ClipPiece(p)[0] == Clip(p.a, p.b).value; }
    }
  }

  lemma {:induction false} ClippedBlocks(ps: seq<Piece>, start: int)
    requires start % 100 == 0
    ensures AllAligned(Clipped(ps))
    ensures Covered(Clipped(ps), start) <==> Names(ps, start) && Usable(start)
  {
    if ps != [] {
      var front, p := ps[..|ps| - 1], ps[|ps| - 1];
      ClippedBlocks(front, start);
      PieceBlocks(p, start);
      assert ps == front + [p];
      NamesSplit(front, p, start);
      var more := ClipPiece(p);
      if more == [] {
        assert Clipped(front) + more == Clipped(front);
      } else {
        CoveredSplit(Clipped(front), more[0], start);
        assert more == [more[0]];
      }
    }
  }

  lemma NamesSplit(ps: seq<Piece>, p: Piece, start: int)
    ensures Names(ps + [p], start) <==> Names(ps, start) || NamesBlock(p, start)
  {
    if Names(ps, start) {
      var i :| 0 <= i < |ps| && NamesBlock(ps[i], start);
      assert NamesBlock((ps + [p])[i], start);
    }
    assert (ps + [p])[|ps|] == p;
  }

  lemma CoveredSame(x: seq<PortRange>, y: seq<PortRange>, port: int)
    requires multiset(x) == multiset(y)
    ensures Covered(x, port) ==> Covered(y, port)
    ensures AllAligned(x) ==> AllAligned(y)
  {
    SameElements(x, y);
    if Covered(x, port) {
      var i :| 0 <= i < |x| && In(x[i], port);
      assert x[i] in y;
      var j :| 0 <= j < |y| && y[j] == x[i];
    }
    forall j | AllAligned(x) && 0 <= j < |y| ensures Aligned(y[j]) {
      assert y[j] in x;
    }
  }

  lemma LoOrder()
    ensures TotalPreorder(LoLeq)
  {
  }

  /** What an accepted value contains: ranges in normal form that hold exactly the usable blocks which lie
      wholly inside one of the given ranges. */
  lemma NormalizedMeans(ps: seq<Piece>, start: int)
    requires Normalized(ps).Ok? && start % 100 == 0
    ensures Normal(Normalized(ps).value) && Normalized(ps).value != []
    ensures Covered(Normalized(ps).value, start) <==> Names(ps, start) && Usable(start)
  {
    var c := Clipped(ps);
    ClippedBlocks(ps, start);
    LoOrder();
    SortSorted(c, LoLeq);
    CoveredSame(c, Sort(c, LoLeq), start);
    CoveredSame(Sort(c, LoLeq), c, start);
    MergedMeans(Sort(c, LoLeq), start);
  }

  /** The sort need not be stable: any arrangement in order of the low ends merges to the same ranges. */
  lemma AnySortWillDo(rs: seq<PortRange>, x: seq<PortRange>)
    requires AllAligned(rs) && multiset(x) == multiset(rs) && SortedBy(x, LoLeq)
    ensures Merged(x) == Merged(Sort(rs, LoLeq))
  {
    var y := Sort(rs, LoLeq);
    LoOrder();
    SortSorted(rs, LoLeq);
    CoveredSame(rs, x, 0);
    CoveredSame(rs, y, 0);
    forall p ensures Covered(Merged(x), p) <==> Covered(Merged(y), p) {
      MergedMeans(x, p);
      MergedMeans(y, p);
      CoveredSame(x, y, p);
      CoveredSame(y, x, p);
    }
    MergedMeans(x, 0);
    MergedMeans(y, 0);
    NormalFormUnique(Merged(x), Merged(y));
  }

  /** A value is refused exactly for a malformed token, or when no usable block remains. */
  lemma RefusedExactly(ps: seq<Piece>)
    ensures Normalized(ps).Err? <==> AnyBad(ps) || forall k :: !UsableBlock(ps, k)
  {
    var c := Clipped(ps);
    if c != [] {
      ClippedBlocks(ps, 0);
      var k := c[0].lo / 100;
      assert Aligned(c[0]) && In(c[0], k * 100);
      ClippedBlocks(ps, k * 100);
      assert UsableBlock(ps, k);
    } else {
      forall k ensures !UsableBlock(ps, k) { ClippedBlocks(ps, k * 100); }
    }
  }

  /** Block number k is usable and wholly inside one of the ranges. */
  ghost predicate UsableBlock(ps: seq<Piece>, k: int) { Names(ps, k * 100) && Usable(k * 100) }

  // ---- the parser itself

  /** The merge overwrites the array it reads from: what is read next is never behind what was written. */
  method MergeInPlace(a: array<PortRange>) returns (n: nat)
    requires a.Length > 0
    modifies a
    ensures n <= a.Length && a[..n] == Merged(old(a[..]))
  {
    ghost var was := a[..];
    n := 1;
    for i := 1 to a.Length
      invariant 1 <= n <= i
      invariant a[..n] == Merged(was[..i])
      invariant forall j :: i <= j < a.Length ==> a[j] == was[j]
    {
      var r := a[i];
      assert was[..i + 1][..i] == was[..i] && r == was[i];
      var last := a[n - 1];
      assert last == a[..n][n - 1];
      if r.lo <= last.hi + 1 {
        if r.hi > last.hi { a[n - 1] := PortRange(last.lo, r.hi); }
      } else {
        a[n] := r;
        n := n + 1;
      }
    }
    assert was[..a.Length] == was;
  }

  /** The parser: the text cut into tokens, then the loop over them, the sort and the merge. */
  method ParseUserPorts(s: string) returns (r: Result<seq<PortRange>, Error>)
    ensures r == Normalized(Pieces(s))
  {
    var ps := Pieces(s);
    r := Normalize(ps);
  }

  lemma ClippedMore(ps: seq<Piece>, i: nat)
    requires i < |ps|
    ensures Clipped(ps[..i + 1]) == Clipped(ps[..i]) + ClipPiece(ps[i])
  {
    assert ps[..i + 1][..i] == ps[..i];
  }

  lemma FirstBadIs(ps: seq<Piece>, i: nat)
    requires i < |ps| && ps[i].Malformed? && forall j :: 0 <= j < i ==> !ps[j].Malformed?
    ensures Normalized(ps) == Err(BadRange(i))
  {
    assert AnyBad(ps);
  }

  method Normalize(ps: seq<Piece>) returns (r: Result<seq<PortRange>, Error>)
    ensures r == Normalized(ps)
  {
    var out: seq<PortRange> := [];
    for i := 0 to |ps|
      invariant forall j :: 0 <= j < i ==> !ps[j].Malformed?
      invariant out == Clipped(ps[..i])
    {
      ClippedMore(ps, i);
      match ps[i]
      case Blank =>
      case Malformed =>
        FirstBadIs(ps, i);
        return Err(BadRange(i));
      case Given(a, b) =>
        var c := Clip(a, b);
        if c.Some? { out := out + [c.value]; }
    }
    assert ps[..|ps|] == ps;
    if out == [] { return Err(NothingUsable); }
    var merged := SortAndMerge(out);
    r := Ok(merged);
  }

  method SortAndMerge(out: seq<PortRange>) returns (merged: seq<PortRange>)
    requires out != []
    ensures merged == Merged(Sort(out, LoLeq))
  {
    var sorted := Sort(out, LoLeq);
    var a := new PortRange[|sorted|](i requires 0 <= i < |sorted| => sorted[i]);
    assert a[..] == sorted;
    var n := MergeInPlace(a);
    merged := a[..n];
  }
}
