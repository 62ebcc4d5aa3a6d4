/** The canonical text of the user-port ranges, and the blocks an allocator may draw from. */
module UserPortText {
  import opened Common
  import opened Sorting
  import opened Text
  import opened UserPorts

  // ---- printing

  function Format(r: PortRange): string
    requires Aligned(r)
  {
    Digits(r.lo) + "-" + Digits(r.hi)
  }

  function Formats(rs: seq<PortRange>): (out: seq<string>)
    requires AllAligned(rs)
    ensures |out| == |rs| && forall i :: 0 <= i < |rs| ==> out[i] == Format(rs[i])
  {
    if rs == [] then [] else [Format(rs[0])] + Formats(rs[1..])
  }

  function Print(rs: seq<PortRange>): string
    requires AllAligned(rs)
  {
    Join(Formats(rs), ", ")
  }

  // ---- reading one printed range back

  lemma DigitsPlain(n: nat)
    ensures TrimSpace(Digits(n)) == Digits(n)
    ensures '-' !in Digits(n) && ',' !in Digits(n)
  {
    var d := Digits(n);
    assert forall i :: 0 <= i < |d| ==> IsDigit(d[i]);
    assert IsDigit(d[0]) && IsDigit(d[|d| - 1]);
    TrimIsNothing(d);
  }

  lemma TrimIsNothing(s: string)
    requires s != "" && !IsSpace(s[0]) && !IsSpace(s[|s| - 1])
    ensures TrimSpace(s) == s
  {
  }

  lemma ReadsBack(a: nat, b: nat, dash: string)
    requires a <= b <= MAX_INT64 && dash == ['-']
    ensures ReadEnds(Digits(a) + dash + Digits(b)) == Given(a, b)
  {
    DigitsPlain(a);
    DigitsPlain(b);
    SplitConcat(Digits(a), Digits(b), '-');
    SplitNone(Digits(a), '-');
    SplitNone(Digits(b), '-');
    AtoiDigits(a);
    AtoiDigits(b);
  }

  lemma FormatTrims(r: PortRange, blank: string)
    requires Aligned(r) && AllSpace(blank)
    ensures TrimSpace(blank + Format(r)) == Format(r) != "" && ',' !in Format(r)
  {
    DigitsPlain(r.lo);
    DigitsPlain(r.hi);
    var f := Format(r);
    assert IsDigit(Digits(r.lo)[0]) && f[0] == Digits(r.lo)[0];
    assert IsDigit(Digits(r.hi)[|Digits(r.hi)| - 1]) && f[|f| - 1] == Digits(r.hi)[|Digits(r.hi)| - 1];
    TrimLeftPadded(blank, f);
    TrimRightPadded(f, "", IsSpace);
    assert f + "" == f;
  }

  lemma ReadFormat(r: PortRange, blank: string)
    requires Aligned(r) && AllSpace(blank)
    ensures Read(blank + Format(r)) == Given(r.lo, r.hi)
  {
    FormatTrims(r, blank);
    ReadsBack(r.lo, r.hi, "-");
  }

  // ---- reading the whole text back

  /** The tokens of a printed list: all but the first start with a blank. */
  function Gapped(parts: seq<string>, gap: string): seq<string> {
    seq(|parts|, i requires 0 <= i < |parts| => if i == 0 then parts[i] else gap + parts[i])
  }

  lemma SplitBlank(s: string, c: char, sep: char)
    requires c != sep
    ensures Split([c] + s, sep) == [[c] + Split(s, sep)[0]] + Split(s, sep)[1..]
  {
  }

  lemma GappedFront(parts: seq<string>, gap: string)
    requires |parts| > 1
    ensures var g := Gapped(parts[1..], gap); [parts[0]] + ([gap + g[0]] + g[1..]) == Gapped(parts, gap)
  {
  }

  lemma {:induction false} SplitGapped(parts: seq<string>, sep: char, c: char, joint: string)
    requires parts != [] && c != sep && joint == [sep] + [c]
    requires forall i :: 0 <= i < |parts| ==> sep !in parts[i]
    ensures Split(Join(parts, joint), sep) == Gapped(parts, [c])
  {
    SplitNone(parts[0], sep);
    if |parts| > 1 {
      var rest := Join(parts[1..], joint);
      SplitGapped(parts[1..], sep, c, joint);
      SplitBlank(rest, c, sep);
      SplitConcat(parts[0], [c] + rest, sep);
      assert parts[0] + joint + rest == parts[0] + [sep] + ([c] + rest);
      GappedFront(parts, [c]);
    }
  }

  function Givens(rs: seq<PortRange>): seq<Piece> { seq(|rs|, i requires 0 <= i < |rs| => Given(rs[i].lo, rs[i].hi)) }

  lemma ReadToken(r: PortRange, first: bool, blank: string, tok: string)
    requires Aligned(r) && AllSpace(blank) && tok == if first then Format(r) else blank + Format(r)
    ensures Read(tok) == Given(r.lo, r.hi)
  {
    if first {
      ReadFormat(r, "");
      assert "" + Format(r) == Format(r);
    } else {
      ReadFormat(r, blank);
    }
  }

  lemma ReadAll(rs: seq<PortRange>, toks: seq<string>, blank: string)
    requires AllAligned(rs) && AllSpace(blank) && toks == Gapped(Formats(rs), blank)
    ensures forall i :: 0 <= i < |rs| ==> Read(toks[i]) == Given(rs[i].lo, rs[i].hi)
  {
    forall i | 0 <= i < |rs| ensures Read(toks[i]) == Given(rs[i].lo, rs[i].hi) { ReadToken(rs[i], i == 0, blank, toks[i]); }
  }

  lemma PiecesOfPrint(rs: seq<PortRange>)
    requires rs != [] && AllAligned(rs)
    ensures Pieces(Print(rs)) == Givens(rs)
  {
    var parts := Formats(rs);
    forall i | 0 <= i < |parts| ensures ',' !in parts[i] { FormatTrims(rs[i], ""); }
    SplitGapped(parts, ',', ' ', ", ");
    ReadAll(rs, Split(Print(rs), ','), [' ']);
  }

  lemma AlignedClips(r: PortRange)
    requires Aligned(r)
    ensures Clip(r.lo, r.hi) == Some(r)
  {
  }

  lemma {:induction false} ClippedGivens(rs: seq<PortRange>)
    requires AllAligned(rs)
    ensures !AnyBad(Givens(rs)) && Clipped(Givens(rs)) == rs
  {
    if rs != [] {
      var k := |rs| - 1;
      ClippedGivens(rs[..k]);
      assert Givens(rs)[..k] == Givens(rs[..k]);
      AlignedClips(rs[k]);
      assert rs == rs[..k] + [rs[k]];
    }
  }

  /** Parsing the canonical text gives back exactly the ranges it was printed from. */
  lemma ReparseSame(rs: seq<PortRange>)
    requires Normal(rs) && rs != []
    ensures Normalized(Pieces(Print(rs))) == Ok(rs)
  {
    PiecesOfPrint(rs);
    ClippedGivens(rs);
    var sorted := Sort(rs, LoLeq);
    LoOrder();
    SortSorted(rs, LoLeq);
    CoveredSame(rs, sorted, 0);
    forall p ensures Covered(Merged(sorted), p) <==> Covered(rs, p) {
      CoveredSame(rs, sorted, p);
      CoveredSame(sorted, rs, p);
      MergedMeans(sorted, p);
    }
    MergedMeans(sorted, 0);
    NormalFormUnique(Merged(sorted), rs);
  }

  // ---- the canonical text

  function Canonical(s: string): string {
    var r := Normalized(Pieces(s));
    if r.Err? then TrimSpace(s)
    else
      NormalizedMeans(Pieces(s), 0);
      Print(r.value)
  }

  /** Blanks around a text change none of its tokens. */
  ghost predicate SameTrimmed(x: seq<string>, y: seq<string>) { SameBy(TrimSpace, x, y) }

  ghost predicate SameBy(f: string -> string, x: seq<string>, y: seq<string>) {
    |x| == |y| && forall i :: 0 <= i < |x| ==> f(x[i]) == f(y[i])
  }

  lemma TrimBefore(c: char, s: string)
    requires IsSpace(c)
    ensures TrimSpace([c] + s) == TrimSpace(s)
  {
  }

  lemma LeadingAfter(s: string, c: char)
    requires IsSpace(c)
    ensures Leading(s + [c]) == if Leading(s) == |s| then |s| + 1 else Leading(s)
  {
    var t, n := s + [c], Leading(s);
    assert forall i :: 0 <= i < n ==> t[i] == s[i];
    if n < |s| { assert t[n] == s[n]; }
  }

  lemma TrimRightStep(s: string, c: char)
    requires IsSpace(c)
    ensures TrimRight(s + [c], IsSpace) == TrimRight(s, IsSpace)
  {
  }

  lemma TrimAfter(s: string, c: char)
    requires IsSpace(c)
    ensures TrimSpace(s + [c]) == TrimSpace(s)
  {
    LeadingAfter(s, c);
    if Leading(s) < |s| {
      assert TrimLeft(s + [c]) == TrimLeft(s) + [c];
      TrimRightStep(TrimLeft(s), c);
    }
  }

  lemma BlankBefore(c: char, s: string, sep: char)
    requires IsSpace(c) && c != sep
    ensures SameTrimmed(Split([c] + s, sep), Split(s, sep))
  {
    SplitBlank(s, c, sep);
    TrimBefore(c, Split(s, sep)[0]);
  }

  function AppendLast(x: seq<string>, c: char): seq<string>
    requires x != []
  {
    x[..|x| - 1] + [x[|x| - 1] + [c]]
  }

  lemma {:induction false} BlankAfter(s: string, c: char, sep: char)
    requires c != sep
    ensures Split(s + [c], sep) == AppendLast(Split(s, sep), c)
  {
    if s == "" {
      SplitNone([c], sep);
      assert "" + [c] == [c];
    } else {
      var rest := Split(s[1..], sep);
      BlankAfter(s[1..], c, sep);
      assert (s + [c])[1..] == s[1..] + [c];
      if s[0] == sep { AppendAfterEmpty(rest, c); } else { AppendAfterHead(rest, s[0], c); }
    }
  }

  lemma AppendAfterEmpty(rest: seq<string>, c: char)
    requires rest != []
    ensures [""] + AppendLast(rest, c) == AppendLast([""] + rest, c)
  {
  }

  lemma AppendAfterHead(rest: seq<string>, head: char, c: char)
    requires rest != []
    ensures var a := AppendLast(rest, c); [[head] + a[0]] + a[1..] == AppendLast([[head] + rest[0]] + rest[1..], c)
  {
    if |rest| == 1 { assert [head] + (rest[0] + [c]) == ([head] + rest[0]) + [c]; }
  }

  lemma AppendSame(x: seq<string>, c: char)
    requires x != [] && IsSpace(c)
    ensures SameTrimmed(AppendLast(x, c), x)
  {
    var front, last := x[..|x| - 1], x[|x| - 1];
    TrimAfter(last, c);
    assert x == front + [last];
    SameByLast(TrimSpace, front, last + [c], last);
  }

  lemma SameByLast(f: string -> string, front: seq<string>, a: string, b: string)
    requires f(a) == f(b)
    ensures SameBy(f, front + [a], front + [b])
  {
  }

  lemma TokensAfter(s: string, c: char, sep: char)
    requires IsSpace(c) && c != sep
    ensures SameTrimmed(Split(s + [c], sep), Split(s, sep))
  {
    BlankAfter(s, c, sep);
    AppendSame(Split(s, sep), c);
  }

  lemma {:induction false} LeftTrimTokens(s: string, sep: char)
    requires !IsSpace(sep)
    ensures SameTrimmed(Split(TrimLeft(s), sep), Split(s, sep))
  {
    if s != "" && IsSpace(s[0]) {
      LeftTrimTokens(s[1..], sep);
      BlankBefore(s[0], s[1..], sep);
      assert s == [s[0]] + s[1..];
      assert TrimLeft(s) == TrimLeft(s[1..]);
    } else {
      assert TrimLeft(s) == s;
    }
  }

  lemma {:induction false} RightTrimTokens(s: string, sep: char)
    requires !IsSpace(sep)
    ensures SameTrimmed(Split(TrimRight(s, IsSpace), sep), Split(s, sep))
  {
    if s != "" && IsSpace(s[|s| - 1]) {
      var front, c := s[..|s| - 1], s[|s| - 1];
      assert s == front + [c];
      RightTrimTokens(front, sep);
      TokensAfter(front, c, sep);
      TrimRightStep(front, c);
    } else {
      assert TrimRight(s, IsSpace) == s;
    }
  }

  lemma PiecesTrimmed(s: string)
    ensures Pieces(TrimSpace(s)) == Pieces(s)
  {
    LeftTrimTokens(s, ',');
    RightTrimTokens(TrimLeft(s), ',');
    var x, y := Split(TrimSpace(s), ','), Split(s, ',');
    forall i | 0 <= i < |x| ensures Read(x[i]) == Read(y[i]) { assert TrimSpace(x[i]) == TrimSpace(y[i]); }
  }

  lemma TrimTwice(s: string)
    ensures TrimSpace(TrimSpace(s)) == TrimSpace(s)
  {
  }

  /** The canonical text is a fixed point, for every input, accepted or not; and it means the same. */
  lemma CanonicalFixed(s: string)
    ensures Canonical(Canonical(s)) == Canonical(s)
    ensures Normalized(Pieces(Canonical(s))) == Normalized(Pieces(s))
  {
    var r := Normalized(Pieces(s));
    if r.Ok? {
      NormalizedMeans(Pieces(s), 0);
      ReparseSame(r.value);
    } else {
      PiecesTrimmed(s);
      TrimTwice(s);
    }
  }

  // ---- the blocks an allocator may draw from

  const DEFAULT: seq<PortRange> := [PortRange(BASE, LAST)]

  lemma DefaultDigits()
    ensures Digits(BASE) == "10000" && Digits(LAST) == "29999"
  {
    assert Digits(1) == "1" && Digits(10) == "10" && Digits(100) == "100" && Digits(1000) == "1000";
    assert Digits(2) == "2" && Digits(29) == "29" && Digits(299) == "299" && Digits(2999) == "2999";
  }

  /** The default ranges print as the documented default text. */
  lemma DefaultText(r: PortRange)
    requires r == PortRange(BASE, LAST)
    ensures Format(r) == "10000-29999"
  {
    DefaultDigits();
  }

  /** The configured ranges, or the default ones if the value does not parse. */
  function Ranges(ps: seq<Piece>): (rs: seq<PortRange>)
    ensures Normal(rs) && rs != []
  {
    var r := Normalized(ps);
    if r.Err? then DEFAULT
    else
      NormalizedMeans(ps, 0);
      r.value
  }

  function Blocks(r: PortRange): nat
    requires Aligned(r)
  {
    (r.hi - r.lo + 1) / SIZE
  }

  function Count(rs: seq<PortRange>): nat
    requires AllAligned(rs)
  {
    if rs == [] then 0 else Count(rs[..|rs| - 1]) + Blocks(rs[|rs| - 1])
  }

  function StartsOf(lo: int, n: nat): seq<int> { if n == 0 then [] else StartsOf(lo, n - 1) + [lo + (n - 1) * SIZE] }

  function Starts(rs: seq<PortRange>): seq<int>
    requires AllAligned(rs)
  {
    if rs == [] then [] else Starts(rs[..|rs| - 1]) + StartsOf(rs[|rs| - 1].lo, Blocks(rs[|rs| - 1]))
  }

  ghost predicate Increasing(s: seq<int>) { forall i, j :: 0 <= i < j < |s| ==> s[i] < s[j] }

  lemma {:induction false} StartsOfAt(lo: int, n: nat)
    ensures |StartsOf(lo, n)| == n && forall i :: 0 <= i < n ==> StartsOf(lo, n)[i] == lo + i * 100
  {
    if n > 0 { StartsOfAt(lo, n - 1); }
  }

  lemma StartsOfRange(r: PortRange, b: int)
    requires Aligned(r)
    ensures b in StartsOf(r.lo, Blocks(r)) <==> b % 100 == 0 && In(r, b)
  {
    StartsOfAt(r.lo, Blocks(r));
    var s := StartsOf(r.lo, Blocks(r));
    if b % 100 == 0 && In(r, b) {
      var i := (b - r.lo) / 100;
      assert s[i] == b;
    }
  }

  /** The count is the number of starts; they increase strictly, and are exactly the whole hundreds whose block
      lies in the ranges. */
  lemma {:induction false} StartsExact(rs: seq<PortRange>)
    requires Normal(rs)
    ensures |Starts(rs)| == Count(rs) && Increasing(Starts(rs))
    ensures forall b :: b in Starts(rs) <==> b % 100 == 0 && Covered(rs, b)
  {
    if rs != [] {
      var front, r := rs[..|rs| - 1], rs[|rs| - 1];
      StartsExact(front);
      StartsOfAt(r.lo, Blocks(r));
      assert rs == front + [r];
      forall b ensures b in Starts(rs) <==> b % 100 == 0 && Covered(rs, b) {
        StartsOfRange(r, b);
        CoveredSplit(front, r, b);
      }
      forall b | b in Starts(front) ensures b < r.lo { BelowLast(rs, b); }
      IncreasingConcat(Starts(front), StartsOf(r.lo, Blocks(r)), r.lo);
    }
  }

  lemma IncreasingConcat(x: seq<int>, y: seq<int>, mid: int)
    requires Increasing(x) && Increasing(y)
    requires (forall b :: b in x ==> b < mid) && (forall b :: b in y ==> mid <= b)
    ensures Increasing(x + y)
  {
    var z := x + y;
    forall i, j | 0 <= i < j < |z| ensures z[i] < z[j] {
      assert i < |x| ==> z[i] in x;
      assert j >= |x| ==> z[j] in y;
    }
  }

  lemma BelowLast(rs: seq<PortRange>, port: int)
    requires Normal(rs) && rs != [] && Covered(rs[..|rs| - 1], port)
    ensures port < rs[|rs| - 1].lo
  {
  }

  /** How many containers the configured ranges have room for. */
  method UserPortCount(rs: seq<PortRange>) returns (n: nat)
    requires Normal(rs)
    ensures n == |Starts(rs)|
  {
    n := 0;
    for i := 0 to |rs|
      invariant n == Count(rs[..i])
    {
      assert rs[..i + 1][..i] == rs[..i];
      n := n + (rs[i].hi - rs[i].lo + 1) / SIZE;
    }
    assert rs[..|rs|] == rs;
    StartsExact(rs);
  }

  /** Every block start inside the ranges, for the allocator. */
  method UserPortBlockStarts(rs: seq<PortRange>) returns (starts: seq<int>)
    requires Normal(rs)
    ensures starts == Starts(rs)
  {
    starts := [];
    for i := 0 to |rs|
      invariant starts == Starts(rs[..i])
    {
      assert rs[..i + 1][..i] == rs[..i];
      var r := rs[i];
      var k := 0;
      var b := r.lo;
      while b <= r.hi
        invariant k <= Blocks(r) && b == r.lo + k * SIZE
        invariant starts == Starts(rs[..i]) + StartsOf(r.lo, k)
      {
        starts := starts + [b];
        b, k := b + SIZE, k + 1;
      }
      assert k == Blocks(r);
    }
    assert rs[..|rs|] == rs;
  }

  /** The starts an allocator draws from, in terms of the text: all usable blocks wholly inside a given range. */
  lemma AllocatableExactly(ps: seq<Piece>, b: int)
    requires Normalized(ps).Ok?
    ensures b in Starts(Ranges(ps)) <==> b % 100 == 0 && Names(ps, b) && Usable(b)
  {
    StartsExact(Ranges(ps));
    if b % 100 == 0 { NormalizedMeans(ps, b); }
  }

  /** Whatever the configuration says, every start is a whole hundred of the usable ports. */
  lemma StartsAreUsable(rs: seq<PortRange>, b: int)
    requires Normal(rs) && b in Starts(rs)
    ensures b % 100 == 0 && Usable(b)
  {
    StartsExact(rs);
    var i :| 0 <= i < |rs| && In(rs[i], b);
    assert Aligned(rs[i]);
  }
}
